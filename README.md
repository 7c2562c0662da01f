# Terpsichord core, modelled in Dafny

Terpsichord is a website for sharing and editing code projects. It has a Rust back end (axum, Postgres, Docker, GitHub), a Rust editor that runs natively or in the browser, and a React front end. This project models the parts of it that hold real logic and proves what they promise:

- **Editor sessions** (`EditorSessions`): the per-user session table of the back end. Each user has at most one entry. An entry is Active, or Waiting behind an idle timer. `open`, `create_session`, `idle_session` and `end_session` change the table. Every Docker call and every timer is recorded in a ghost log of effects. Each stop records whether it worked. The class invariant states that replaying the log yields exactly the timers the table refers to. It also yields the table's containers plus a ghost set of leaked ones: containers whose stop failed after their entry was removed.
- **Request/response pairing in the web editor** (`WebPending`) and its **directory cache** (`WebFileSystem`).
- **Data structures**:
  - `TokenCache`: an LRU cache whose doubly linked list lives in a vector, proved against a recency list.
  - `ProbingHashMap`: a linear-probing hash map with cluster re-insertion on removal.
  - `EditorBuffers`: the editor's buffer list, with selection and dirty tracking.
- **Algorithms**:
  - `Search`: KMP and Boyer–Moore substring search, and the project filter and SQL sort clause built on them.
  - `Introsort`: quicksort with heapsort and insertion-sort fallbacks, in place on an array.
  - `Comments`: assembly of the comment reply tree.
- **AES-256-GCM framing** (`Gcm`): inc32, the pre-counter block, GCTR, multiplication in GF(2^128), GHASH, and the `nonce ‖ ciphertext ‖ tag` layout. The AES block cipher is a parameter. Numbers are bit sequences, least significant bit first.
- **Small pure helpers**:
  - `ProjectLanguages`: language codes.
  - `RepoNames`: repository-name sanitising.
  - `AppErrors`: the mapping from errors to HTTP responses.
  - `DateFormat`: the front end's `formatDate`.

`Wrappers` holds the shared `Option`, `Result` and `Outcome` (returned or panicked) types.

Where the source mutates state, the model does too:

- The session table, LRU cache, hash map, buffer list, pending-operations cell and directory cache are classes.
- Their methods carry `modifies` clauses and are proved against specification functions.
- The sorts and the comment-tree fill work in place on an `array`.
- The search algorithms, GHASH, GCTR and GF multiplication are methods with loops, proved equal to functional specifications.

## Where the code and its documentation disagree

The model follows the code in each case.

- Re-opening a Waiting session for the same project returns `WithTokens::default()`, that is an empty container id and no tokens. It does not return the stored container id (`EditorSessions.SessionManager.Open`).
- `end_session` passes the error from stopping the container on to its caller; stopping is not best-effort (`EditorSessions.SessionManager.EndSession`).
- The comment at session.rs:78 says every container is stopped when the program stops. But `end_session` removes the entry before it stops the container. If that stop fails, the container keeps running, and no entry refers to it, so the shutdown sweep of lines 79-91 skips it. The model records such a container in `leaked` (`EditorSessions.SessionManager.EndSession`).
- A superseded idle timer is cancelled by dropping its handle. There is no generation counter.
- The GCM code departs from NIST SP 800-38D:
  - The first keystream block is encrypted under J0 + 2. `encrypt_detached` increments J0 and `gctr` increments again before the first block.
  - There is no additional authenticated data.
  - The GHASH length block is the ciphertext's length in bytes, placed in the low bits, where the standard uses bit lengths.
  - Products in GF(2^128) use the modulus 0x87 on a left shift, not the reflected bit order of section 6.3 of NIST SP 800-38D.
  - `Gcm.FirstKeyStreamCounter` and `Gcm.GhashSpec` state what the code does.

## Model

| member | source | states |
|---|---|---|
| AppErrors.IntoResponse | back_end/src/error.rs:56-81 | NotFound, Unauthorized, SessionConflict and ProjectExists map to exactly 404, 401, 409 and 422 with an empty body. Every other variant maps to 500, with the error text as JSON in debug builds and "Something went wrong" otherwise. |
| AppErrors.FromSqlx | back_end/src/error.rs:89-96 | RowNotFound converts to NotFound (status 404). Any other database error converts to Database (status 500). |
| AppErrors.FromInvalidAuth | back_end/src/error.rs:83-87 | An invalid-auth error is wrapped as InvalidAuth and answered with 500. |
| AppErrors.AuthFailedFrom | back_end/src/error.rs:47-49 | `auth_failed` wraps its cause in AuthFailed. The debug response is 500 carrying that cause. |
| AppErrors.OtherFrom | back_end/src/error.rs:51-53 | `other` wraps its cause in Other. The debug response is 500 carrying that cause. |
| ProjectLanguages.Code | back_end/src/lang.rs:29-43 | The Display code of each language is 1 to 4 characters long. |
| ProjectLanguages.FromStr | back_end/src/lang.rs:45-62 | Parsing succeeds only on a language's own code. Any other string fails with "Invalid language", and then no language has that code. |
| ProjectLanguages.FromStrCode | back_end/src/lang.rs:29-62 | Parsing the code of any language gives back that language. |
| ProjectLanguages.CodesDistinct | back_end/src/lang.rs:31-41 | Different languages have different codes. |
| ProjectLanguages.InitialFileName | back_end/src/lang.rs:79-89 | The initial file is README.md exactly for Rust and C#. Every other language gets `main.<code>`. |
| ProjectLanguages.ProjectTomlPath | back_end/src/lang.rs:72-76 | The project file of a language is `./back_end/languages/<code>/project.toml`. |
| ProjectLanguages.InitFilePath | back_end/src/lang.rs:91 | The initial contents of a language are read from `./back_end/languages/<code>/init`. |
| ProjectLanguages.GetProjectToml | back_end/src/lang.rs:74-76 | The result is the file read at the project-file path. |
| ProjectLanguages.GetInitialFile | back_end/src/lang.rs:78-94 | A read error is returned unchanged. Otherwise the result pairs the file name from the table with the contents read. |
| RepoNames.ReplaceSpaces | back_end/src/github/mod.rs:153 | Replacing spaces keeps the length. |
| RepoNames.RemoveInvalid | back_end/src/github/mod.rs:154 | After removal only allowed characters (ASCII letters, digits, `.`, `_`, `-`) remain, and the name is no longer than before. |
| RepoNames.SanitizeRepoName | back_end/src/github/mod.rs:148-156 | Every character of the result is a lowercase ASCII letter, a digit, `.`, `_` or `-`, and the result is no longer than the input. |
| RepoNames.LowercaseOfValid | back_end/src/github/mod.rs:155 | Lowercasing a string of allowed characters leaves only sanitised characters. |
| RepoNames.SanitizeIsPerCharacter | back_end/src/github/mod.rs:153-155 | The three passes act character by character: a space becomes `_`, other disallowed characters vanish, and allowed characters are lowercased. |
| RepoNames.SanitizeByCharAppend | back_end/src/github/mod.rs:153-155 | Sanitising a concatenation gives the concatenation of the sanitised parts. |
| RepoNames.SpaceAndInvalidCharacters | back_end/src/github/mod.rs:153-154 | A lone space becomes `_`, and any other disallowed character becomes the empty string. |
| RepoNames.SanitizeIdempotent | back_end/src/github/mod.rs:148-156 | Sanitising an already sanitised name returns it unchanged. |
| RepoNames.SanitizedFixed | back_end/src/github/mod.rs:148-156 | A name made only of sanitised characters is left as it is. |
| DateFormat.SuffixIsEnglishOrdinal | front_end/src/utils.ts:9-26 | For days 1 to 31, the `day % 10` switch with the 11–13 override gives the English ordinal suffix (st for 1, 21 and 31; nd for 2 and 22; rd for 3 and 23; th otherwise). Days 11, 12 and 13 get th. |
| DateFormat.NatToString | front_end/src/utils.ts:33 | A number is rendered as one or more decimal digits. |
| DateFormat.NatToStringRoundTrip | front_end/src/utils.ts:33 | Reading the rendered digits back gives the number. |
| DateFormat.FormatDate | front_end/src/utils.ts:1-34 | A NaN day gives "{invalid date}". Otherwise the output is day, suffix, a space, the month name taken from its 0-based index, a space, and the year. |
| DateFormat.FormatDateStartsWithDay | front_end/src/utils.ts:33 | The output starts with the day's digits, which read back as the day, followed by a non-digit. |
| Search.SortClause | back_end/src/api/search.rs:44-60 | The clause is empty exactly when the sort or the direction is missing, or the sort is Relevant. Otherwise it is "ORDER BY " + column + " ASC" or " DESC". |
| Search.CreateLps | back_end/src/api/search.rs:126-148 | The table has one entry per pattern byte. Entry i is the length of the longest proper prefix of `pattern[..=i]` that is also its suffix, so it is at most i. |
| Search.KmpSearch | back_end/src/api/search.rs:150-187 | For a non-empty pattern, the result is exactly the positions where the pattern occurs, strictly increasing. It requires a non-empty pattern or an empty text, because otherwise line 165 reads `pattern[0]`. |
| Search.BadCharacterHeuristic | back_end/src/api/search.rs:192-201 | The table has 256 entries. Entry c is the last index of byte c in the pattern, or -1. |
| Search.BoyerMooreSearch | back_end/src/api/search.rs:203-247 | The result is exactly the occurrence positions, strictly increasing, and empty when the pattern is longer than the text. Every shift is at least 1. |
| Search.Lower | back_end/src/api/search.rs:105-111 | Lowercasing maps each byte independently and keeps the length. |
| Search.NonEmptyIffContains | back_end/src/api/search.rs:104-113 | A complete occurrence list is non-empty iff the pattern occurs in the text. |
| Search.KeepsProjectAsWritten | back_end/src/api/search.rs:103-114 | The filter closure as written keeps a project iff the lowercased query occurs in its lowercased title or readme. This holds on the inputs where its title search does not panic. |
| Search.EmptyQueryLeavesKmpDomain | back_end/src/api/search.rs:104-107 | The empty query against the title "a" is outside those inputs. |
| Search.KeepsProject | back_end/src/api/search.rs:103-114 | With the title search skipped for an empty query, the same projects are kept for every input. |
| Search.Filtered | back_end/src/api/search.rs:101-115 | The kept projects are those of the input that pass the filter, and there are no more of them than of the input. |
| Search.FilterProjects | back_end/src/api/search.rs:101-115 | (Corrected.) The filter loop returns exactly the kept projects, in their original order. It uses the corrected `KeepsProject`, so an empty query does not reach the title search. |
| Gcm.ByteBitsRoundTrip | back_end/src/auth/crypto.rs:32-36 | A byte converted to bits and back is unchanged. |
| Gcm.BitsByteRoundTrip | back_end/src/auth/crypto.rs:32-36 | Eight bits converted to a byte and back are unchanged. |
| Gcm.FromBytesToBytes | back_end/src/auth/crypto.rs:32-36 | A block converted to big-endian bytes and back is unchanged. |
| Gcm.ToBytesFromBytes | back_end/src/auth/crypto.rs:104 | Bytes converted to a block and back are unchanged. |
| Gcm.NatBitsValue | back_end/src/auth/crypto.rs:109 | A number below 2^width, written in width bits, has that value. |
| Gcm.IncrementValue | back_end/src/auth/crypto.rs:47 | Incrementing a bit string adds one modulo 2^width. |
| Gcm.Inc32Spec | back_end/src/auth/crypto.rs:45-51 | inc32 leaves the upper 96 bits unchanged and sets the low 32 bits to (low + 1) mod 2^32. |
| Gcm.PreCounterBlock | back_end/src/auth/crypto.rs:53-55 | The pre-counter block has the IV as its upper 96 bits and the value 1 in its low 32 bits. |
| Gcm.GctrSpec | back_end/src/auth/crypto.rs:57-70 | The GCTR output is as long as its input. |
| Gcm.GctrInvolution | back_end/src/auth/crypto.rs:57-70 | Applying GCTR twice with the same starting counter returns the original bytes. |
| Gcm.Gctr | back_end/src/auth/crypto.rs:57-70 | The chunked loop produces the GCTR specification: byte k is XORed with byte k mod 16 of the encryption of the counter incremented k/16 + 1 times. |
| Gcm.GfRound | back_end/src/auth/crypto.rs:78-86 | One round adds `a` to the result iff the low bit of `b` is set, multiplies `a` by x (reducing by 0x87 when the top bit falls off) and shifts `b` down. |
| Gcm.GfMul | back_end/src/auth/crypto.rs:73-90 | The 128-round shift-and-add loop computes the product in GF(2^128) with modulus 0x87. |
| Gcm.GfProductZeroRight | back_end/src/auth/crypto.rs:73-90 | gf_mul(a, 0) == 0. |
| Gcm.GfProductZeroLeft | back_end/src/auth/crypto.rs:73-90 | gf_mul(0, b) == 0. |
| Gcm.GfProductOne | back_end/src/auth/crypto.rs:73-90 | gf_mul(a, 1) == a. |
| Gcm.GfProductXorRight | back_end/src/auth/crypto.rs:73-90 | The product distributes over XOR in its second argument. |
| Gcm.GfProductXorLeft | back_end/src/auth/crypto.rs:73-90 | The product distributes over XOR in its first argument. |
| Gcm.GhashChunksStep | back_end/src/auth/crypto.rs:101-107 | One GHASH round XORs in the next zero-padded chunk of at most 16 bytes and multiplies by H. |
| Gcm.GhashLoop | back_end/src/auth/crypto.rs:98-107 | The chunk loop computes the GHASH chaining value of the ciphertext under H. |
| Gcm.Ghash | back_end/src/auth/crypto.rs:97-113 | GHASH is the chunk chaining followed by one round with the length block, under the hash key `aes(0)`. |
| Gcm.GhashEmpty | back_end/src/auth/crypto.rs:97-113 | GHASH of the empty ciphertext is 0. |
| Gcm.GhashZeroKey | back_end/src/auth/crypto.rs:97-113 | Under a zero hash key GHASH is 0 for every ciphertext. |
| Gcm.FirstKeyStreamCounter | back_end/src/auth/crypto.rs:116-122 | The first keystream block is encrypted under the IV with counter 3 (J0 + 2). |
| Gcm.EncryptDetached | back_end/src/auth/crypto.rs:115-128 | The ciphertext is GCTR of the plaintext from J0 + 1, as long as the plaintext. The tag is GHASH(ciphertext) XOR aes(J0). |
| Gcm.DecryptDetached | back_end/src/auth/crypto.rs:161-182 | A tag other than the expected one gives InvalidTag and no plaintext. Otherwise the result is GCTR of the ciphertext, as long as the ciphertext. |
| Gcm.DetachedRoundTrip | back_end/src/auth/crypto.rs:115-128 | Decrypting the detached ciphertext and tag of a plaintext returns the plaintext. |
| Gcm.Framed | back_end/src/auth/crypto.rs:141 | A framed message is 12 + ciphertext length + 16 bytes long. |
| Gcm.FillFrame | back_end/src/auth/crypto.rs:141-152 | The copies into the split output buffer produce nonce ‖ ciphertext ‖ tag. |
| Gcm.Encrypt | back_end/src/auth/crypto.rs:140-155 | The output is the framed encryption of the plaintext under the given nonce. |
| Gcm.EncryptLayout | back_end/src/auth/crypto.rs:140-155 | The output is nonce bytes, then the ciphertext, then the tag bytes. |
| Gcm.Split | back_end/src/auth/crypto.rs:184-195 | (Corrected.) A message shorter than 28 bytes gives InvalidMessage. Any longer message splits into nonce, ciphertext and tag that frame it again. |
| Gcm.SplitAsWritten | back_end/src/auth/crypto.rs:184-195 | The split as written, with the usize subtraction at line 189 made explicit. It panics under overflow checks and wraps otherwise. |
| Gcm.SplitAsWrittenAgrees | back_end/src/auth/crypto.rs:184-195 | The split as written panics exactly on 12- to 27-byte messages in builds with overflow checks, and agrees with the corrected split everywhere else. |
| Gcm.UnderflowOnShortMessage | back_end/src/auth/crypto.rs:189 | A 20-byte message panics as written, where the corrected split rejects it as InvalidMessage. |
| Gcm.Decrypt | back_end/src/auth/crypto.rs:184-198 | Decrypt is the corrected split followed by detached decryption. Messages shorter than 28 bytes give InvalidMessage. |
| Gcm.DecryptFrame | back_end/src/auth/crypto.rs:161-198 | A framed message decrypts to GCTR of its ciphertext when its tag is the expected one, and to InvalidTag otherwise. |
| Gcm.RoundTrip | back_end/src/auth/crypto.rs:140-198 | decrypt(encrypt(p)) == Ok(p) for every block cipher, nonce and plaintext. |
| Gcm.TamperedTagRejected | back_end/src/auth/crypto.rs:172-174 | A frame whose tag is not the expected one is rejected with InvalidTag. |
| ProbingHashMap.Vacancies | common/src/hashmap.rs:20-27 | A fresh entry vector has exactly cap unoccupied entries. |
| ProbingHashMap.Home | common/src/hashmap.rs:93 | The corrected first probe slot lies inside the table. |
| ProbingHashMap.LookupHit | common/src/hashmap.rs:92-110 | In a well-formed table with unique keys, the entry holding a key gives its value. |
| ProbingHashMap.LookupMiss | common/src/hashmap.rs:92-110 | A key held by no entry has no value. |
| ProbingHashMap.ProbeMiss | common/src/hashmap.rs:99-101 | Reaching an unoccupied slot on a key's probe path means no entry holds the key. |
| ProbingHashMap.ProbeWrapped | common/src/hashmap.rs:103-106 | Probing all the way around without finding the key means the key is absent. |
| ProbingHashMap.InsertInEntries | common/src/hashmap.rs:67-82 | The probe stops at the first slot that is unoccupied or holds the key. Every slot before it on the path is occupied. Only that slot changes, and `added` holds iff it was unoccupied. |
| ProbingHashMap.InsertConsequences | common/src/hashmap.rs:67-82 | After an insert the table is still valid. The key now has the new value and every other key keeps its value. The count grows by one iff the key was absent. |
| ProbingHashMap.ReinsertCluster | common/src/hashmap.rs:120-136 | After a slot is cleared, re-inserting the following cluster gives a valid table with the same size and the same value for every key. |
| ProbingHashMap.HashMap.constructor | common/src/hashmap.rs:18-32 | A new map has exactly cap unoccupied entries, size 0 and no contents. |
| ProbingHashMap.HashMap.Resize | common/src/hashmap.rs:44-65 | The capacity doubles, the size is unchanged and every key keeps its value. |
| ProbingHashMap.HashMap.Insert | common/src/hashmap.rs:84-90 | (Corrected.) The key maps to the new value and the others are unchanged. The size grows only for a new key. The capacity doubles first when size >= capacity / 2. |
| ProbingHashMap.HashMap.Get | common/src/hashmap.rs:92-110 | The result is the key's value in the map, or None. |
| ProbingHashMap.HashMap.RemoveAt | common/src/hashmap.rs:120-136 | The slot's key loses its value and every other key keeps its value. |
| ProbingHashMap.HashMap.Remove | common/src/hashmap.rs:112-143 | The key is absent afterwards and the others are unchanged. Removing an absent key leaves the entries and size untouched. |
| ProbingHashMap.FirstProbeAsWrittenPanics | common/src/hashmap.rs:68 | The first probe as written indexes out of bounds exactly when hash(key) >= capacity. Otherwise it is the corrected slot. |
| ProbingHashMap.MissingModuloExample | common/src/hashmap.rs:68 | With capacity 4 and hash 7 the code as written panics, where the intended first slot is 3. |
| ProbingHashMap.InsertCounters | common/src/hashmap.rs:84-90 | (Corrected.) The size grows by one only for a new key, and the capacity never shrinks. |
| ProbingHashMap.RepeatedInsertExample | common/src/hashmap.rs:84-90 | Inserting one key three times into an empty map of capacity 2 reaches size 3 and capacity 8 as written, but size 1 and capacity 4 as intended. |
| ProbingHashMap.OverwritesInflateSize | common/src/hashmap.rs:89 | As written, n overwrites of present keys add n to the size. |
| Introsort.PermTrans | common/src/introsort.rs:24-25 | A permutation of a sub-range followed by a permutation of the whole range is a permutation of the whole range. |
| Introsort.RangePermutation | common/src/introsort.rs:6-26 | A permutation that leaves everything outside a range alone permutes that range. |
| Introsort.JoinSorted | common/src/introsort.rs:23-25 | Two sorted sides around a pivot, each on its correct side, make a sorted range. |
| Introsort.SwapPerm | common/src/introsort.rs:77-79 | A swap inside a range keeps the range a permutation. |
| Introsort.MaxDepth | common/src/introsort.rs:2 | The depth bound is 2·⌊log2 n⌋. |
| Introsort.InsertStep | common/src/introsort.rs:46-48 | Swapping an out-of-order neighbour moves the inserted element one step left while the rest stays sorted. |
| Introsort.InsertDone | common/src/introsort.rs:46 | When the inner loop stops, the prefix up to i is sorted. |
| Introsort.InsertionSort | common/src/introsort.rs:43-51 | The range is sorted and a permutation of the old range. Nothing outside it changes. |
| Introsort.Partition | common/src/introsort.rs:28-41 | The pivot ends at p, holding the old last element. Everything before p is at most the pivot and everything after is greater. The range is a permutation. |
| Introsort.HeapRootMaxAll | common/src/introsort.rs:53-62 | The root of a max-heap is its largest element. |
| Introsort.LargestOf | common/src/introsort.rs:66-75 | `largest` is the node or one of its children in the heap, and is at least as large as both children. It moves off the node only to a strictly larger child. |
| Introsort.SiftStep | common/src/introsort.rs:77-79 | Swapping the node with its larger child moves the heap defect down to that child. |
| Introsort.SiftDone | common/src/introsort.rs:80-82 | When the node is the largest of the three, every node from i on satisfies the heap property. |
| Introsort.Heapify | common/src/introsort.rs:64-84 | Given that the nodes below i satisfy the heap property, afterwards every node from i on does. Only elements in the subtree range are swapped, and they are permuted. |
| Introsort.BuildHeap | common/src/introsort.rs:54-57 | The range becomes a max-heap and a permutation of the old range. |
| Introsort.HeapsortRound | common/src/introsort.rs:58-61 | After swapping the root to position i and re-heapifying the prefix, the prefix is a heap, the suffix is sorted and every prefix element is at most every suffix element. |
| Introsort.SortDown | common/src/introsort.rs:58-61 | Starting from a heap, the sort-down loop leaves the range sorted and permuted. |
| Introsort.Heapsort | common/src/introsort.rs:53-62 | Heapsort sorts the range and permutes it. |
| Introsort.IntrosortRecursive | common/src/introsort.rs:6-26 | The range is sorted and permuted. A range of at most one element is left unchanged. |
| Introsort.Introsort | common/src/introsort.rs:1-4 | The array is sorted and a permutation of its input. |
| TokenCache.IndexOf | back_end/src/auth/token_cache.rs:82 | The result is the first position holding the key, or None when no position holds it. |
| TokenCache.RefreshedFind | back_end/src/auth/token_cache.rs:82-86 | Moving an entry to the front keeps the keys distinct and every key's value, and puts the key first. |
| TokenCache.InsertedFind | back_end/src/auth/token_cache.rs:92-121 | After a put, the key has the new value and the keys stay distinct. Other keys keep their values, except the evicted least recently used one. |
| TokenCache.InsertedSize | back_end/src/auth/token_cache.rs:101-120 | With capacity >= 1 a put never takes the size above the capacity. It grows by one only for a new key while there is room. |
| TokenCache.SplicedLinked | back_end/src/auth/token_cache.rs:57-65 | Unlinking a node keeps the list well linked, minus that node. |
| TokenCache.FrontedLinked | back_end/src/auth/token_cache.rs:67-75 | Linking a node in after the head gives a well-linked list with that node first. |
| TokenCache.MovedToFrontItems | back_end/src/auth/token_cache.rs:83-84 | Unlinking and re-fronting node p gives the list with item p moved to the front. |
| TokenCache.Evicted | back_end/src/auth/token_cache.rs:102-108 | The node behind the tail sentinel is the least recently used entry. Unlinking it and dropping its key removes the last item. |
| TokenCache.Pushed | back_end/src/auth/token_cache.rs:110-120 | Appending a node and linking it in front adds the new item at the front and maps its key to the new index. |
| TokenCache.LruCache.constructor | back_end/src/auth/token_cache.rs:30-55 | A new cache has a head sentinel at 0 and a tail sentinel at 1 whose next is the tail, an empty key map and no entries. |
| TokenCache.LruCache.Unlink | back_end/src/auth/token_cache.rs:57-65 | `remove` rewires the neighbours of the node around it and changes nothing else. |
| TokenCache.LruCache.InsertToFront | back_end/src/auth/token_cache.rs:67-75 | `insert_to_front` links the node in directly after the head. |
| TokenCache.LruCache.Get | back_end/src/auth/token_cache.rs:77-90 | The result is the key's value or None. A present key moves to the front. An absent key changes nothing. |
| TokenCache.LruCache.Overwrite | back_end/src/auth/token_cache.rs:93-99 | A present key takes the new value and moves to the front, and the map size is unchanged. |
| TokenCache.LruCache.EvictLast | back_end/src/auth/token_cache.rs:102-108 | The least recently used entry is removed and its key leaves the map. |
| TokenCache.LruCache.PushFront | back_end/src/auth/token_cache.rs:110-120 | A node for the new key is appended and becomes the most recent entry. |
| TokenCache.LruCache.Put | back_end/src/auth/token_cache.rs:92-121 | The entries become the recency list after the put: overwrite and front, or evict the last when full and push the new key in front. Nodes grow only for a new key, which gets the new node's index. |
| EditorBuffers.TrimEmpty | editor/src/buffer.rs:329 | Trimming gives the empty string iff the text is all white space. |
| EditorBuffers.SetFileName | editor/src/buffer.rs:355-358 | Setting the file name changes only the last path component. |
| EditorBuffers.Buffer.IsDirty | editor/src/buffer.rs:323-330 | A buffer with a file is dirty iff its text differs from the file's. A buffer without one is dirty iff its text holds a non-white-space character. |
| EditorBuffers.Buffer.Save | editor/src/buffer.rs:333-348 | Without a file the result is NoAssociatedFile and nothing changes. A native write error is returned and nothing changes. Otherwise the file contents become the text and the buffer is clean. |
| EditorBuffers.Buffer.Rename | editor/src/buffer.rs:350-366 | Without a file the result is NoAssociatedFile. On a filesystem error the path is unchanged. On success only the file-name component changes. |
| EditorBuffers.EmptyBuffer | editor/src/buffer.rs:278-280 | An empty buffer has no text and no file, and is clean. |
| EditorBuffers.BufferFromPath | editor/src/buffer.rs:269-276 | A failed read returns the I/O error wrapped in "Failed to read file", and no buffer is made. A successful read gives a clean buffer whose text and file data are the file's text. |
| EditorBuffers.Retained | editor/src/buffer.rs:206 | The retained buffers are exactly those with a different id, in order. |
| EditorBuffers.AddThenDelete | editor/src/buffer.rs:195-210 | Deleting a buffer just added under a fresh id restores the list. |
| EditorBuffers.IndexById | editor/src/buffer.rs:216-218 | The result is the first buffer with the id, or None when there is none. |
| EditorBuffers.AddedIsFound | editor/src/buffer.rs:195-218 | A buffer added under a fresh id is found at the end of the list. |
| EditorBuffers.IndexByPath | editor/src/buffer.rs:232-236 | The result is the first buffer whose file is at the path, or None when there is none. |
| EditorBuffers.Buffers.constructor | editor/src/buffer.rs:45-51 | A new buffer list is empty, with nothing selected. |
| EditorBuffers.Buffers.Add | editor/src/buffer.rs:195-198 | The buffer is appended and selected. |
| EditorBuffers.Buffers.Select | editor/src/buffer.rs:200-202 | The selection becomes the id and the list is unchanged. |
| EditorBuffers.Buffers.DeleteBuffer | editor/src/buffer.rs:204-210 | Every buffer with the id is removed and the others keep their order. If the id was selected, the selection moves to the last remaining buffer or None; otherwise it is unchanged. |
| EditorBuffers.Buffers.GetById | editor/src/buffer.rs:216-218 | A buffer is returned iff one has the id, and the one returned has that id. |
| EditorBuffers.Buffers.GetByPath | editor/src/buffer.rs:232-236 | A buffer is returned iff one is at the path, and the one returned is at that path. |
| EditorBuffers.Buffers.CurrentBuffer | editor/src/buffer.rs:224-226 | The current buffer is the selected buffer: None without a selection, and present whenever some buffer has the selected id. |
| EditorBuffers.Buffers.IsDirty | editor/src/buffer.rs:238-240 | The list is dirty iff some buffer is dirty. |
| WebPending.ResponsePair | editor/src/platform/web/mod.rs:168-178 | An answer pairs with the command sent under its id. An unknown id gives the invalid-message error. |
| WebPending.Paired | editor/src/platform/web/mod.rs:144-149 | Draining yields one result per queued answer. |
| WebPending.PairedAppend | editor/src/platform/web/mod.rs:144-149 | Draining two batches in turn yields what draining them together does. |
| WebPending.PairedAt | editor/src/platform/web/mod.rs:144-149 | The i-th result of a drain belongs to the i-th queued answer. |
| WebPending.PairedGrows | editor/src/platform/web/mod.rs:129-178 | Sending more commands never un-pairs an answer that already pairs. |
| WebPending.AnswerPairs | editor/src/platform/web/mod.rs:129-178 | The answer to a sent command pairs with that command. |
| WebPending.Pending.constructor | editor/src/platform/web/mod.rs:125-127 | Nothing is sent, failed or queued. |
| WebPending.Pending.Send | editor/src/platform/web/mod.rs:129-138 | The command is recorded under its id and the message goes to the websocket. Nothing else changes. |
| WebPending.Pending.PushSendErr | editor/src/platform/web/mod.rs:160-162 | A failed send appends (id, error) and changes nothing else. |
| WebPending.Pending.AddResp | editor/src/platform/web/mod.rs:140-142 | An answer joins the back of the queue. |
| WebPending.Pending.Update | editor/src/platform/web/mod.rs:65-75 | Every message that arrived is queued, in arrival order. |
| WebPending.Pending.Responses | editor/src/platform/web/mod.rs:144-149 | The queue is emptied. The results are the queued answers paired in arrival order, and no sent command is forgotten. |
| WebFileSystem.ChildPaths | editor/src/platform/web/filesystem.rs:25 | The listing of a directory is its children's paths, in order. |
| WebFileSystem.CacheFrame | editor/src/platform/web/filesystem.rs:22-30 | Caching a tree adds exactly its directories' paths and keeps every other cached path. |
| WebFileSystem.CacheDirectory | editor/src/platform/web/filesystem.rs:24-26 | A directory's path maps to its children's paths. |
| WebFileSystem.CacheAgain | editor/src/platform/web/filesystem.rs:25 | Re-caching a tree overwrites its paths with the same listings, whatever was cached before. |
| WebFileSystem.FileSystem.constructor | editor/src/platform/web/filesystem.rs:18-20 | Nothing is cached. |
| WebFileSystem.FileSystem.Cache | editor/src/platform/web/filesystem.rs:22-30 | The cache is updated by the recursive walk: a file changes nothing, and a directory records its listing and recurses into every child. |
| WebFileSystem.FileSystem.GetCached | editor/src/platform/web/filesystem.rs:32-36 | The stored listing is returned, or None for a path never cached. |
| WebFileSystem.FileSystem.ReadDir | editor/src/platform/web/filesystem.rs:48-58 | A cached path returns its listing and sends nothing. An uncached path sends one ReadDir and returns WouldBlock. |
| WebFileSystem.FileSystem.ReadFile | editor/src/platform/web/filesystem.rs:42-46 | Sends one ReadFile and returns WouldBlock. |
| WebFileSystem.FileSystem.Rename | editor/src/platform/web/filesystem.rs:60-67 | Sends one Rename and returns WouldBlock. |
| WebFileSystem.FileSystem.Write | editor/src/platform/web/filesystem.rs:69-76 | Sends one WriteFile and returns WouldBlock. |
| WebFileSystem.FileSystem.Delete | editor/src/platform/web/filesystem.rs:78-82 | Sends one Delete and returns WouldBlock. |
| Comments.RepliesIn | back_end/src/api/comment.rs:167-177 | The replies are the comments whose parent is the id, in slice order. |
| Comments.RepliesAreRows | back_end/src/api/comment.rs:170-173 | Each reply is a row of the slice with only its children filled in. |
| Comments.RepliesNest | back_end/src/api/comment.rs:171 | Each reply carries the replies to its own id as its children. |
| Comments.SameReplies | back_end/src/api/comment.rs:169-172 | Overwriting children fields does not change anyone's replies. |
| Comments.GetCommentReplies | back_end/src/api/comment.rs:167-177 | The result is the replies to the id. The slice keeps its order and length, and only children fields change. It requires the parent relation to be acyclic. |
| Comments.RootsIn | back_end/src/api/comment.rs:152-157 | The roots are exactly the comments without a parent. |
| Comments.TopLevel | back_end/src/api/comment.rs:152-157 | The loop collects the roots in slice order. |
| Comments.FillRoots | back_end/src/api/comment.rs:158-160 | Each root gets its replies as children, and the slice changes only in children fields. |
| Comments.SortSorted | back_end/src/api/comment.rs:162 | The sorted threads are newest first. |
| Comments.SortPerm | back_end/src/api/comment.rs:162 | Sorting permutes the threads. |
| Comments.SortStable | back_end/src/api/comment.rs:162 | Sorting is stable: threads with the same upload time keep their query order. |
| Comments.GetComments | back_end/src/api/comment.rs:95-165 | The answer is the root comments with their reply trees, sorted newest first and stably. |
| Comments.ThreadsAreRoots | back_end/src/api/comment.rs:152-162 | Every thread in the answer is a parentless row carrying its replies. |
| Comments.ThreadsComplete | back_end/src/api/comment.rs:152-162 | Every parentless row appears in the answer with its replies. |
| EditorSessions.ReplayAppend | back_end/src/editor/session.rs:194-319 | Replaying two effect sequences in turn is replaying their concatenation. |
| EditorSessions.EndEffects | back_end/src/editor/session.rs:309-319 | Ending a session stops its container first and records whether the stop worked. If it was Waiting, dropping its handle aborts its timer. |
| EditorSessions.Split | back_end/src/editor/session.rs:76 | A user's entry owns a container and a timer that no other entry holds. |
| EditorSessions.RemoveEntry | back_end/src/editor/session.rs:309-319 | Replaying an entry's end effects leaves exactly the timers of the remaining table. It leaves the remaining table's containers and the leaked ones, and the ended entry's container joins the leaked ones exactly when its stop fails. |
| EditorSessions.AddEntry | back_end/src/editor/session.rs:261-270 | Inserting an Active entry with a new container adds exactly that container. |
| EditorSessions.CreateAsWritten | back_end/src/editor/session.rs:194-273 | As written, an entry is inserted iff the call succeeds. |
| EditorSessions.CreateLeaks | back_end/src/editor/session.rs:243-259 | As written, when the tarball fetch or the upload fails after a start, no entry is inserted and the started container is still running. |
| EditorSessions.CreateSteps | back_end/src/editor/session.rs:194-273 | (Corrected.) An entry is inserted iff the call succeeds, and it is the Active entry for the project and the new container. A failure after a start ends with stopping that container. |
| EditorSessions.CreateReplay | back_end/src/editor/session.rs:194-273 | (Corrected.) A create leaves one more running container on success. On failure it leaves one more only when the container was started and the stop that undoes the start fails. |
| EditorSessions.SessionManager.constructor | back_end/src/editor/session.rs:108-121 | No sessions, no effects, nothing leaked. |
| EditorSessions.SessionManager.EndSession | back_end/src/editor/session.rs:309-319 | An absent user gets Ok and no Docker call. Otherwise the entry is removed and its container stopped once, and the stop error, if any, is returned. The container is still running afterwards exactly when the stop failed, and it is then leaked. |
| EditorSessions.SessionManager.IdleSession | back_end/src/editor/session.rs:299-307 | An existing entry becomes Waiting on a fresh timer and any old timer is aborted. An absent user changes nothing. |
| EditorSessions.SessionManager.TimerFires | back_end/src/editor/session.rs:43-53 | A live idle timer ends its session and drops the stop's error. The timer is then no longer live, and a container whose stop failed is leaked. |
| EditorSessions.SessionManager.CreateSession | back_end/src/editor/session.rs:194-273 | (Corrected.) The table gains the Active entry exactly when the create succeeds, and the log records the Docker calls. A started container that could not be set up and then failed to stop is leaked. |
| EditorSessions.SessionManager.Reactivate | back_end/src/editor/session.rs:163-170 | A Waiting entry becomes Active and its timer is aborted. |
| EditorSessions.SessionManager.Replace | back_end/src/editor/session.rs:172-187 | (Corrected.) The old entry is ended (its container stopped) before a new session is created with the corrected create. A stop error is returned with the old entry gone and its container leaked. |
| EditorSessions.SessionManager.Open | back_end/src/editor/session.rs:137-188 | (Corrected.) An Active entry gives SessionConflict and no change. A Waiting entry for the same project is reactivated and returns the default value. A Waiting entry for another project is replaced. An absent user gets a new session from the corrected create. Every path keeps the running containers equal to the table's plus the leaked ones, and the live timers equal to the table's. |

## Left out

- The AES block cipher, `OsRng` and base64 are not modelled. AES is a function parameter, and the nonce is a parameter of `Gcm.Encrypt`. `encrypt_base64` and the key loading from configuration are not part of this model.
- The hash function of `ProbingHashMap` is an abstract function from keys to naturals (`DefaultHasher` is not modelled). Probing is proved with the corrected first slot, and a capacity of at least 1 is required where the source would divide by zero or index an empty vector.
- TokenCache.LruCache.Put: requires capacity >= 1, because with capacity 0 the source's `unwrap` at token_cache.rs:104 panics.
- TokenCache: evicted node slots are never reused and the node vector only grows, as in the source. The model does not bound its growth.
- Keys of the LRU cache and the hash map are Dafny values. `Clone` and `Borrow` are not modelled.
- EditorBuffers: paths are sequences of components. The filesystem's answers (`written`, `renamed`, and the read's text or error) are parameters. `eyre`'s report is a context string over the I/O error. Buffer ids (`Uuid::new_v4`) are parameters. The egui UI (`show`, `show_tabs`, `join_save_errors`) is left out.
- WebPending and WebFileSystem: message ids are parameters. The websocket is represented by the ghost outbox, and delivered messages are a parameter of `Update`. The asynchronous send's failure is the separate event `PushSendErr`. bincode encoding and text frames are not modelled.
- WebPending.Pending.Responses: the source returns a lazy iterator, so each answer is paired when the caller reaches it. The model pairs all drained answers at once, against the commands recorded when `responses` is called.
- EditorSessions, Docker and GitHub: each call is an abstract effect whose outcome is a parameter (`StepResults`). The tokio timer is a timer id, and its firing is the event `TimerFires`.
- EditorSessions, concurrency: each manager call is atomic, so the gap between `open`'s read lock and its later writes is not modelled. The `RwLock` and the shutdown sweep in `Drop for SessionTable` (session.rs:79-91) are left out.
- EditorSessions.SessionManager.Open, EditorSessions.SessionManager.Replace: both go through the corrected create, which stops a started container that could not be set up. As written, `open` issues no such stop (see `EditorSessions.CreateLeaks`).
- EditorSessions.SessionManager.CreateSession: `get_image` is not modelled beyond its constant. The image is always "python:3", as at session.rs:277, whatever the language. The `.next().unwrap()` on an empty pull stream (session.rs:293) is not modelled as a panic.
- EditorSessions: tokens are two strings, and token refresh inside the GitHub client is left out.
- Comments: the database query and `post_comment` are left out. Upload times are integers, and the i32 widths of ids are not modelled.
- Comments.GetComments: the library `sort_by_key` is modelled by the specification function `SortNewestFirst`, a stable insertion sort. It is proved sorted, a permutation and stable.
- Comments: termination needs the parent relation to be acyclic. This is a ghost rank map, which the source leaves implicit.
- Introsort: elements are integers, not a generic `Ord`. The f64 `log2` is the integer floor log2, with 0 for an empty slice.
- Search: text is bytes; `to_lowercase` is ASCII lowercasing of bytes, which is narrower than Rust's Unicode lowercasing. The SQL query and the database fetch in `search_projects` are left out.
- Search.FilterProjects: it uses the corrected `KeepsProject`. As written, an empty query panics on any project with a non-empty title (see `Search.EmptyQueryLeavesKmpDomain`).
- Search.BoyerMooreSearch: the i32 and isize casts are not modelled as wrapping, because pattern lengths are far below 2^31.
- DateFormat.FormatDate: `Date` is the triple of day, month index and year, or NaN. Negative years and the `console.error` call are left out.
- AppErrors: the error texts of wrapped errors are strings. `GithubAuth` keeps only its message.
- ProjectLanguages: reading files is a function parameter. The sqlx `Decode` impl is not part of this model.

## Findings

| source | as written | input that shows it | evidently intended | confidence | as-written member | corrected member |
|---|---|---|---|---|---|---|
| common/src/hashmap.rs:68 | The first probe slot is `hash(key)` with no `% capacity`, unlike lines 93 and 113. | Capacity 4 and a key whose hash is 7: `entries[7]` is out of bounds. | Start probing at `hash(key) % capacity`. | high; not executed | ProbingHashMap.MissingModuloExample | ProbingHashMap.InsertInEntries |
| common/src/hashmap.rs:89 | `size` grows on every insert, including an overwrite of a present key. | Inserting the same key three times into an empty map of capacity 2 gives size 3 and capacity 8. | Count only keys that were absent. | high; not executed | ProbingHashMap.RepeatedInsertExample | ProbingHashMap.HashMap.Insert |
| back_end/src/auth/crypto.rs:189 | `remaining.len() - TAG_LEN` on usize underflows for messages of 12 to 27 bytes. It panics with overflow checks and wraps without them. | A 20-byte message. | Reject any message shorter than 28 bytes with InvalidMessage. | high; not executed | Gcm.UnderflowOnShortMessage | Gcm.Decrypt |
| back_end/src/api/search.rs:104-107 | The title search runs even for an empty query, and `kmp_search` then reads `pattern[0]` at line 165. | The query "" against a project titled "a". | An empty query matches every project, as the Boyer–Moore readme search already has it do. | medium; not executed | Search.EmptyQueryLeavesKmpDomain | Search.KeepsProject |
| back_end/src/editor/session.rs:243-259 | After the container is started, a failing tarball fetch or upload returns with `?`. The container is never stopped, and no table entry refers to it, so neither `end_session` nor the shutdown sweep of lines 78-91 will stop it. | The start succeeds and the fetch returns an error. | Stop the started container before returning the error. | medium; not executed | EditorSessions.CreateLeaks | EditorSessions.SessionManager.CreateSession |
