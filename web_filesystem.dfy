/**
 * The web editor's filesystem (editor/src/platform/web/filesystem.rs):
 * every operation is a command sent to the server, answered later, so each
 * returns `WouldBlock` at once. The one exception is listing a directory
 * whose contents arrived earlier in a project tree and were cached.
 */
module WebFileSystem {
  import opened Wrappers
  import opened WebPending

  /** A project tree as the server sends it: files, and directories with their children in order. */
  datatype ProjectTree =
    | File(path: PathBuf)
    | Directory(path: PathBuf, children: seq<ProjectTree>)

  /** The I/O error kinds the operations return. */
  datatype ErrorKind = WouldBlock

  /** A measure that shrinks from a directory to each of its children. */
  function Size(t: ProjectTree): (n: nat)
    ensures n >= 1
  {
    match t
    case File(_) => 1
    case Directory(_, cs) => 1 + SizeAll(cs)
  }

  function SizeAll(ts: seq<ProjectTree>): nat {
    if |ts| == 0 then 0 else SizeAll(ts[..|ts| - 1]) + Size(ts[|ts| - 1])
  }

  /** Each tree of a list is no larger than the whole list. */
  lemma {:induction false} SizeAllBounds(ts: seq<ProjectTree>, i: nat)
    requires i < |ts|
    ensures Size(ts[i]) <= SizeAll(ts)
    ensures SizeAll(ts[..i]) + Size(ts[i]) <= SizeAll(ts)
  {
    if i < |ts| - 1 {
      assert ts[..|ts| - 1][..i] == ts[..i];
      SizeAllBounds(ts[..|ts| - 1], i);
    } else {
      assert ts[..i] == ts[..|ts| - 1];
    }
  }

  /** The paths of a list of trees, in order. */
  function ChildPaths(ts: seq<ProjectTree>): (r: seq<PathBuf>)
    ensures |r| == |ts| && forall i :: 0 <= i < |ts| ==> r[i] == ts[i].path
  {
    if |ts| == 0 then [] else ChildPaths(ts[..|ts| - 1]) + [ts[|ts| - 1].path]
  }

  /** The paths of the directories in a tree. */
  function DirPaths(t: ProjectTree): set<PathBuf>
    decreases Size(t), 0
  {
    match t
    case File(_) => {}
    case Directory(p, cs) => {p} + DirPathsAll(cs)
  }

  function DirPathsAll(ts: seq<ProjectTree>): set<PathBuf>
    decreases SizeAll(ts), 1
  {
    if |ts| == 0 then {}
    else
      SizeAllBounds(ts, |ts| - 1);
      DirPathsAll(ts[..|ts| - 1]) + DirPaths(ts[|ts| - 1])
  }

  /**
   * What `cache` does to the cache: a directory maps its path to its
   * children's paths, then each child is cached in turn; a file changes
   * nothing.
   */
  function CacheTree(m: map<PathBuf, seq<PathBuf>>, t: ProjectTree): map<PathBuf, seq<PathBuf>>
    decreases Size(t), 0
  {
    match t
    case File(_) => m
    case Directory(p, cs) => CacheAll(m[p := ChildPaths(cs)], cs)
  }

  /** Caching a list of trees, first to last. */
  function CacheAll(m: map<PathBuf, seq<PathBuf>>, ts: seq<ProjectTree>): map<PathBuf, seq<PathBuf>>
    decreases SizeAll(ts), 1
  {
    if |ts| == 0 then m
    else
      SizeAllBounds(ts, |ts| - 1);
      CacheTree(CacheAll(m, ts[..|ts| - 1]), ts[|ts| - 1])
  }

  /** Caching adds exactly the directory paths of the tree as keys, and leaves every other entry alone. */
  lemma {:induction false} CacheFrame(m: map<PathBuf, seq<PathBuf>>, t: ProjectTree)
    ensures CacheTree(m, t).Keys == m.Keys + DirPaths(t)
    ensures forall p :: p in m && p !in DirPaths(t) ==> CacheTree(m, t)[p] == m[p]
    decreases Size(t), 0
  {
    match t
    case File(_) =>
    case Directory(p, cs) =>
      CacheAllFrame(m[p := ChildPaths(cs)], cs);
  }

  lemma {:induction false} CacheAllFrame(m: map<PathBuf, seq<PathBuf>>, ts: seq<ProjectTree>)
    ensures CacheAll(m, ts).Keys == m.Keys + DirPathsAll(ts)
    ensures forall p :: p in m && p !in DirPathsAll(ts) ==> CacheAll(m, ts)[p] == m[p]
    decreases SizeAll(ts), 1
  {
    if |ts| > 0 {
      SizeAllBounds(ts, |ts| - 1);
      CacheAllFrame(m, ts[..|ts| - 1]);
      CacheFrame(CacheAll(m, ts[..|ts| - 1]), ts[|ts| - 1]);
    }
  }

  /**
   * A directory whose path no directory below it repeats is cached as the
   * list of its children's paths, in order.
   */
  lemma CacheDirectory(m: map<PathBuf, seq<PathBuf>>, p: PathBuf, cs: seq<ProjectTree>)
    requires p !in DirPathsAll(cs)
    ensures p in CacheTree(m, Directory(p, cs))
    ensures CacheTree(m, Directory(p, cs))[p] == ChildPaths(cs)
  {
    CacheAllFrame(m[p := ChildPaths(cs)], cs);
  }

  /** Caching a tree again overwrites what an earlier tree left under the same directory paths. */
  lemma {:induction false} CacheAgain(m: map<PathBuf, seq<PathBuf>>, m': map<PathBuf, seq<PathBuf>>, t: ProjectTree, p: PathBuf)
    requires p in DirPaths(t)
    ensures p in CacheTree(m, t) && p in CacheTree(m', t)
    ensures CacheTree(m, t)[p] == CacheTree(m', t)[p]
    decreases Size(t), 0
  {
    CacheFrame(m, t);
    CacheFrame(m', t);
    match t
    case Directory(q, cs) =>
      if p in DirPathsAll(cs) {
        CacheAllAgain(m[q := ChildPaths(cs)], m'[q := ChildPaths(cs)], cs, p);
      } else {
        CacheAllFrame(m[q := ChildPaths(cs)], cs);
        CacheAllFrame(m'[q := ChildPaths(cs)], cs);
      }
  }

  lemma {:induction false} CacheAllAgain(m: map<PathBuf, seq<PathBuf>>, m': map<PathBuf, seq<PathBuf>>, ts: seq<ProjectTree>, p: PathBuf)
    requires p in DirPathsAll(ts)
    ensures p in CacheAll(m, ts) && p in CacheAll(m', ts)
    ensures CacheAll(m, ts)[p] == CacheAll(m', ts)[p]
    decreases SizeAll(ts), 1
  {
    SizeAllBounds(ts, |ts| - 1);
    var init := ts[..|ts| - 1];
    var last := ts[|ts| - 1];
    CacheAllFrame(m, init);
    CacheAllFrame(m', init);
    if p in DirPaths(last) {
      CacheAgain(CacheAll(m, init), CacheAll(m', init), last, p);
    } else {
      CacheAllAgain(m, m', init, p);
      CacheFrame(CacheAll(m, init), last);
      CacheFrame(CacheAll(m', init), last);
    }
  }

  class FileSystem {
    /** The shared table of commands sent and answers received. */
    const pending: Pending
    var cachedDirs: map<PathBuf, seq<PathBuf>>

    /** `FileSystem::new`: an empty cache over the given handle. */
    constructor(pending: Pending)
      ensures this.pending == pending && cachedDirs == map[]
    {
      this.pending := pending;
      cachedDirs := map[];
    }

    /** `cache`: records the directory listings of a project tree. */
    method Cache(tree: ProjectTree)
      modifies this
      ensures cachedDirs == CacheTree(old(cachedDirs), tree)
      decreases Size(tree)
    {
      if tree.Directory? {
        var children := tree.children;
        cachedDirs := cachedDirs[tree.path := ChildPaths(children)];
        ghost var start := cachedDirs;
        var i := 0;
        while i < |children|
          invariant 0 <= i <= |children|
          invariant cachedDirs == CacheAll(start, children[..i])
        {
          SizeAllBounds(children, i);
          assert children[..i + 1][..i] == children[..i];
          Cache(children[i]);
          i := i + 1;
        }
        assert children[..i] == children;
      }
    }

    /** `get_cached`: the stored listing of `path`, if it was ever cached. */
    function GetCached(path: PathBuf): (r: Option<seq<PathBuf>>)
      reads this
      ensures r.Some? <==> path in cachedDirs
      ensures r.Some? ==> r.value == cachedDirs[path]
    {
      if path in cachedDirs then Some(cachedDirs[path]) else None
    }

    /** Sends `cmd` under the fresh message id `id` (`BackendHandle::send`). */
    method SendCommand(id: Uuid, cmd: Command)
      modifies pending
      ensures pending.outbox == old(pending.outbox) + [ClientMessage(id, cmd)]
      ensures pending.messages == old(pending.messages)[id := cmd]
      ensures pending.sendErrs == old(pending.sendErrs) && pending.responses == old(pending.responses)
    {
      pending.Send(ClientMessage(id, cmd));
    }

    /** `read_dir`: a cached listing is returned at once; otherwise the server is asked. */
    method ReadDir(path: PathBuf, id: Uuid) returns (r: Result<seq<PathBuf>, ErrorKind>)
      modifies pending
      ensures path in cachedDirs ==> r == Ok(cachedDirs[path]) && pending.outbox == old(pending.outbox)
      ensures path in cachedDirs ==> pending.messages == old(pending.messages)
      ensures path !in cachedDirs ==> r == Err(WouldBlock)
      ensures path !in cachedDirs ==> pending.outbox == old(pending.outbox) + [ClientMessage(id, Command.ReadDir(path))]
      ensures path !in cachedDirs ==> pending.messages == old(pending.messages)[id := Command.ReadDir(path)]
      ensures pending.sendErrs == old(pending.sendErrs) && pending.responses == old(pending.responses)
    {
      var cached := GetCached(path);
      if cached.Some? {
        return Ok(cached.value);
      }
      SendCommand(id, Command.ReadDir(path));
      r := Err(WouldBlock);
    }

    method ReadFile(path: PathBuf, id: Uuid) returns (r: Result<string, ErrorKind>)
      modifies pending
      ensures r == Err(WouldBlock)
      ensures pending.outbox == old(pending.outbox) + [ClientMessage(id, Command.ReadFile(path))]
      ensures pending.messages == old(pending.messages)[id := Command.ReadFile(path)]
      ensures pending.sendErrs == old(pending.sendErrs) && pending.responses == old(pending.responses)
    {
      SendCommand(id, Command.ReadFile(path));
      r := Err(WouldBlock);
    }

    method Rename(from: PathBuf, to: PathBuf, id: Uuid) returns (r: Result<(), ErrorKind>)
      modifies pending
      ensures r == Err(WouldBlock)
      ensures pending.outbox == old(pending.outbox) + [ClientMessage(id, Command.Rename(from, to))]
      ensures pending.messages == old(pending.messages)[id := Command.Rename(from, to)]
      ensures pending.sendErrs == old(pending.sendErrs) && pending.responses == old(pending.responses)
    {
      SendCommand(id, Command.Rename(from, to));
      r := Err(WouldBlock);
    }

    method Write(path: PathBuf, contents: string, id: Uuid) returns (r: Result<(), ErrorKind>)
      modifies pending
      ensures r == Err(WouldBlock)
      ensures pending.outbox == old(pending.outbox) + [ClientMessage(id, WriteFile(path, contents))]
      ensures pending.messages == old(pending.messages)[id := WriteFile(path, contents)]
      ensures pending.sendErrs == old(pending.sendErrs) && pending.responses == old(pending.responses)
    {
      SendCommand(id, WriteFile(path, contents));
      r := Err(WouldBlock);
    }

    method Delete(path: PathBuf, id: Uuid) returns (r: Result<(), ErrorKind>)
      modifies pending
      ensures r == Err(WouldBlock)
      ensures pending.outbox == old(pending.outbox) + [ClientMessage(id, Command.Delete(path))]
      ensures pending.messages == old(pending.messages)[id := Command.Delete(path)]
      ensures pending.sendErrs == old(pending.sendErrs) && pending.responses == old(pending.responses)
    {
      SendCommand(id, Command.Delete(path));
      r := Err(WouldBlock);
    }
  }
}
