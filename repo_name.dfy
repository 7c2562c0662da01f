/**
 * `GithubClient::sanitize_repo_name`: turns a project title into a name GitHub
 * accepts for a repository, by replacing spaces with underscores, dropping every
 * character other than ASCII letters, digits, `.`, `_` and `-`, and lowercasing.
 */
module RepoNames {

  /** The characters the source keeps (`is_ascii_alphanumeric` or one of `._-`). */
  predicate IsValid(c: char)
  {
    ('a' <= c <= 'z') || ('A' <= c <= 'Z') || ('0' <= c <= '9') || c == '.' || c == '_' || c == '-'
  }

  /** The characters a sanitised name consists of. */
  predicate IsSanitized(c: char)
  {
    ('a' <= c <= 'z') || ('0' <= c <= '9') || c == '.' || c == '_' || c == '-'
  }

  /**
   * Lowercasing of one character. Only ASCII letters reach the lowercasing step, and
   * for them Unicode lowercasing is the ASCII one.
   */
  function LowerAscii(c: char): char
  {
    if 'A' <= c <= 'Z' then (c as int + 32) as char else c
  }

  /** `replace(' ', "_")` */
  function ReplaceSpaces(s: string): (r: string)
    ensures |r| == |s|
  {
    if s == [] then [] else [if s[0] == ' ' then '_' else s[0]] + ReplaceSpaces(s[1..])
  }

  /** `replace(|c| !is_valid(c), "")` */
  function RemoveInvalid(s: string): (r: string)
    ensures |r| <= |s|
    ensures forall i :: 0 <= i < |r| ==> IsValid(r[i])
  {
    if s == [] then [] else (if IsValid(s[0]) then [s[0]] else []) + RemoveInvalid(s[1..])
  }

  /** `to_lowercase()`, on the ASCII-only string the previous step leaves. */
  function ToLowercase(s: string): (r: string)
    ensures |r| == |s|
  {
    if s == [] then [] else [LowerAscii(s[0])] + ToLowercase(s[1..])
  }

  /** The three passes of the source, in its order. */
  function SanitizeRepoName(name: string): (r: string)
    ensures |r| <= |name|
    ensures forall i :: 0 <= i < |r| ==> IsSanitized(r[i])
  {
    var r := ToLowercase(RemoveInvalid(ReplaceSpaces(name)));
    LowercaseOfValid(RemoveInvalid(ReplaceSpaces(name)));
    r
  }

  lemma {:induction false} LowercaseOfValid(s: string)
    requires forall i :: 0 <= i < |s| ==> IsValid(s[i])
    ensures forall i :: 0 <= i < |ToLowercase(s)| ==> IsSanitized(ToLowercase(s)[i])
  {
    if s != [] {
      LowercaseOfValid(s[1..]);
      assert ToLowercase(s) == [LowerAscii(s[0])] + ToLowercase(s[1..]);
    }
  }

  /** What a single input character becomes: `_` for a space, nothing if disallowed, else lowercased. */
  function SanitizeChar(c: char): string
  {
    if c == ' ' then "_" else if IsValid(c) then [LowerAscii(c)] else ""
  }

  /** The same result, character by character: the reference definition of the three passes. */
  function SanitizeByChar(s: string): string
  {
    if s == [] then [] else SanitizeChar(s[0]) + SanitizeByChar(s[1..])
  }

  /** The source's three passes agree with the per-character definition. */
  lemma {:induction false} SanitizeIsPerCharacter(s: string)
    ensures SanitizeRepoName(s) == SanitizeByChar(s)
  {
    if s != [] {
      SanitizeIsPerCharacter(s[1..]);
      var t := s[1..];
      assert ReplaceSpaces(s) == [if s[0] == ' ' then '_' else s[0]] + ReplaceSpaces(t);
      var c := if s[0] == ' ' then '_' else s[0];
      assert RemoveInvalid(ReplaceSpaces(s)) == (if IsValid(c) then [c] else []) + RemoveInvalid(ReplaceSpaces(t));
      ToLowercaseAppend(if IsValid(c) then [c] else [], RemoveInvalid(ReplaceSpaces(t)));
    }
  }

  lemma {:induction false} ToLowercaseAppend(a: string, b: string)
    ensures ToLowercase(a + b) == ToLowercase(a) + ToLowercase(b)
  {
    if a == [] {
      assert a + b == b;
    } else {
      ToLowercaseAppend(a[1..], b);
      assert (a + b)[1..] == a[1..] + b;
    }
  }

  /** Sanitising distributes over concatenation. */
  lemma {:induction false} SanitizeByCharAppend(a: string, b: string)
    ensures SanitizeByChar(a + b) == SanitizeByChar(a) + SanitizeByChar(b)
  {
    if a == [] {
      assert a + b == b;
    } else {
      SanitizeByCharAppend(a[1..], b);
      assert (a + b)[1..] == a[1..] + b;
    }
  }

  /** Spaces become underscores and every other disallowed character is dropped. */
  lemma SpaceAndInvalidCharacters(c: char)
    ensures SanitizeRepoName([c]) == SanitizeChar(c)
    ensures c == ' ' ==> SanitizeRepoName([c]) == "_"
    ensures c != ' ' && !IsValid(c) ==> SanitizeRepoName([c]) == ""
  {
    SanitizeIsPerCharacter([c]);
  }

  /** A sanitised name is a fixed point: sanitising it again changes nothing. */
  lemma {:induction false} SanitizeIdempotent(s: string)
    ensures SanitizeRepoName(SanitizeRepoName(s)) == SanitizeRepoName(s)
  {
    var r := SanitizeRepoName(s);
    SanitizeIsPerCharacter(r);
    SanitizedFixed(r);
  }

  lemma {:induction false} SanitizedFixed(s: string)
    requires forall i :: 0 <= i < |s| ==> IsSanitized(s[i])
    ensures SanitizeByChar(s) == s
  {
    if s != [] {
      SanitizedFixed(s[1..]);
    }
  }
}
