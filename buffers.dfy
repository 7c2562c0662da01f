/**
 * The editor's open buffers (editor/src/buffer.rs): each buffer holds the
 * text shown to the user and, once it is tied to a file, the path and the
 * contents last written there; the buffer list remembers which buffer is
 * selected. The filesystem is not modelled: its answers to `write` and
 * `rename` are parameters.
 */
module EditorBuffers {
  import opened Wrappers

  // ---------------------------------------------------------------------
  // Text and paths
  // ---------------------------------------------------------------------

  /** The Unicode White_Space characters, the ones `str::trim` removes. */
  predicate IsWhitespace(c: char) {
    c == '\t' || c == '\n' || c == '\U{000B}' || c == '\U{000C}' || c == '\r' || c == ' ' ||
    c == '\U{0085}' || c == '\U{00A0}' || c == '\U{1680}' || ('\U{2000}' <= c <= '\U{200A}') ||
    c == '\U{2028}' || c == '\U{2029}' || c == '\U{202F}' || c == '\U{205F}' || c == '\U{3000}'
  }

  /** The text without its leading white space. */
  function TrimStart(s: string): (r: string)
    ensures |r| <= |s| && r == s[|s| - |r|..]
    ensures forall i :: 0 <= i < |s| - |r| ==> IsWhitespace(s[i])
    ensures |r| > 0 ==> !IsWhitespace(r[0])
  {
    if |s| > 0 && IsWhitespace(s[0]) then TrimStart(s[1..]) else s
  }

  /** The text without its trailing white space. */
  function TrimEnd(s: string): (r: string)
    ensures |r| <= |s| && r == s[..|r|]
    ensures forall i :: |r| <= i < |s| ==> IsWhitespace(s[i])
    ensures |r| > 0 ==> !IsWhitespace(r[|r| - 1])
  {
    if |s| > 0 && IsWhitespace(s[|s| - 1]) then TrimEnd(s[..|s| - 1]) else s
  }

  /** `str::trim`: white space removed from both ends. */
  function Trim(s: string): string {
    TrimEnd(TrimStart(s))
  }

  /** Trimming leaves nothing exactly when every character is white space. */
  lemma TrimEmpty(s: string)
    ensures Trim(s) == [] <==> forall i :: 0 <= i < |s| ==> IsWhitespace(s[i])
  {
  }

  /** One component of a path: the root, a `..`, or a name. */
  datatype Component = RootDir | ParentDir | Normal(name: string)

  /** A path as its list of components. */
  type Path = seq<Component>

  /** `Path::file_name`: the last component when it is a name. */
  function FileName(p: Path): Option<string> {
    if |p| > 0 && p[|p| - 1].Normal? then Some(p[|p| - 1].name) else None
  }

  /** The path without its last component. */
  function Parent(p: Path): Path {
    if |p| > 0 then p[..|p| - 1] else p
  }

  /**
   * `PathBuf::set_file_name`: the file name is replaced when there is one;
   * otherwise the new name is pushed.
   */
  function SetFileName(p: Path, name: string): (r: Path)
    ensures FileName(r) == Some(name)
    ensures Parent(r) == if FileName(p).Some? then Parent(p) else p
  {
    if FileName(p).Some? then p[..|p| - 1] + [Normal(name)] else p + [Normal(name)]
  }

  // ---------------------------------------------------------------------
  // One buffer
  // ---------------------------------------------------------------------

  /** Buffer identifiers; the source draws them at random (`Uuid::new_v4`). */
  type Uuid = nat

  /** The file a buffer is tied to, and the contents last written there. */
  datatype FileData = FileData(path: Path, contents: string)

  /** An error from the filesystem. */
  datatype IoError = IoError(message: string)

  datatype BufferError = NoAssociatedFile | Io(error: IoError)

  /** Where the editor runs: on the web, the result of a write is not waited for. */
  datatype Target = Native | Web

  class Buffer {
    const id: Uuid
    /** The text shown to the user, unsaved changes included. */
    var contents: string
    var fileData: Option<FileData>

    /** `Buffer::new`, with the fresh identifier passed in. */
    constructor(id: Uuid, contents: string, fileData: Option<FileData>)
      ensures this.id == id && this.contents == contents && this.fileData == fileData
    {
      this.id := id;
      this.contents := contents;
      this.fileData := fileData;
    }

    /**
     * Unsaved changes: the text differs from the file's, or, with no file,
     * the text holds something other than white space.
     */
    predicate IsDirty()
      reads this
      ensures IsDirty() <==>
        if fileData.Some? then contents != fileData.value.contents
        else exists i :: 0 <= i < |contents| && !IsWhitespace(contents[i])
    {
      TrimEmpty(contents);
      match fileData
      case Some(f) => contents != f.contents
      case None => Trim(contents) != []
    }

    /**
     * Writes the text to the buffer's file. `written` is the filesystem's
     * answer, which only a native build waits for.
     */
    method Save(target: Target, written: Result<(), IoError>) returns (r: Result<(), BufferError>)
      modifies this
      ensures fileData.None? || (target == Native && written.Err?) ==> fileData == old(fileData)
      ensures old(fileData).None? ==> r == Err(NoAssociatedFile)
      ensures old(fileData).Some? && target == Native && written.Err? ==> r == Err(Io(written.error))
      ensures old(fileData).Some? && (target == Web || written.Ok?) ==>
        r == Ok(()) && fileData == Some(FileData(old(fileData).value.path, old(contents)))
      ensures r.Ok? ==> !IsDirty()
      ensures contents == old(contents)
    {
      if fileData.None? {
        return Err(NoAssociatedFile);
      }
      if target == Native && written.Err? {
        return Err(Io(written.error));
      }
      fileData := Some(fileData.value.(contents := contents));
      r := Ok(());
    }

    /**
     * Gives the buffer's file the name `newName` in the same directory.
     * `renamed` is the filesystem's answer; the path changes only when it
     * succeeds.
     */
    method Rename(newName: string, renamed: Result<(), IoError>) returns (r: Result<(), BufferError>)
      modifies this
      ensures old(fileData).None? ==> r == Err(NoAssociatedFile) && fileData == old(fileData)
      ensures old(fileData).Some? && renamed.Err? ==> r == Err(Io(renamed.error)) && fileData == old(fileData)
      ensures old(fileData).Some? && renamed.Ok? ==>
        r == Ok(()) && fileData == Some(old(fileData).value.(path := SetFileName(old(fileData).value.path, newName)))
      ensures contents == old(contents)
    {
      if fileData.None? {
        return Err(NoAssociatedFile);
      }
      var newPath := SetFileName(fileData.value.path, newName);
      if renamed.Err? {
        return Err(Io(renamed.error));
      }
      fileData := Some(fileData.value.(path := newPath));
      r := Ok(());
    }
  }

  /** A buffer that was never written: empty text and no file. */
  method EmptyBuffer(id: Uuid) returns (b: Buffer)
    ensures fresh(b) && b.id == id && b.contents == [] && b.fileData.None? && !b.IsDirty()
  {
    b := new Buffer(id, [], None);
  }

  /** The context `from_path` puts around a failed read. */
  const ReadContext: string := "Failed to read file"

  /** A read error with the context that says what was being done. */
  datatype ReadFailure = ReadFailure(context: string, cause: IoError)

  /**
   * A buffer read from `path`. `read` is the filesystem's answer: an error
   * comes back wrapped in `ReadContext` and no buffer is made; otherwise the
   * buffer's text is the file's, and it starts clean.
   */
  method BufferFromPath(id: Uuid, path: Path, read: Result<string, IoError>) returns (r: Result<Buffer, ReadFailure>)
    ensures read.Err? ==> r == Err(ReadFailure(ReadContext, read.error))
    ensures read.Ok? ==> r.Ok? && fresh(r.value) && r.value.id == id && r.value.contents == read.value
    ensures read.Ok? ==> r.Ok? && r.value.fileData == Some(FileData(path, read.value)) && !r.value.IsDirty()
  {
    if read.Err? {
      return Err(ReadFailure(ReadContext, read.error));
    }
    var b := new Buffer(id, read.value, Some(FileData(path, read.value)));
    r := Ok(b);
  }

  // ---------------------------------------------------------------------
  // The buffer list
  // ---------------------------------------------------------------------

  /** The list without the buffers holding `id` (`Vec::retain`). */
  function Retained(bs: seq<Buffer>, id: Uuid): (r: seq<Buffer>)
    ensures |r| <= |bs|
    ensures forall i :: 0 <= i < |r| ==> r[i] in bs && r[i].id != id
    ensures forall i :: 0 <= i < |bs| && bs[i].id != id ==> bs[i] in r
  {
    if |bs| == 0 then []
    else (if bs[0].id != id then [bs[0]] else []) + Retained(bs[1..], id)
  }

  /** Retaining keeps the order: it works piece by piece on a concatenation. */
  lemma {:induction false} RetainedAppend(a: seq<Buffer>, b: seq<Buffer>, id: Uuid)
    ensures Retained(a + b, id) == Retained(a, id) + Retained(b, id)
  {
    if |a| == 0 {
      assert a + b == b;
    } else {
      assert (a + b)[1..] == a[1..] + b;
      RetainedAppend(a[1..], b, id);
    }
  }

  /** A list without `id` is kept whole. */
  lemma {:induction false} RetainedNone(bs: seq<Buffer>, id: Uuid)
    requires forall i :: 0 <= i < |bs| ==> bs[i].id != id
    ensures Retained(bs, id) == bs
  {
    if |bs| > 0 {
      RetainedNone(bs[1..], id);
    }
  }

  /** Closing a freshly added buffer whose id no other buffer holds gives back the list as it was. */
  lemma AddThenDelete(bs: seq<Buffer>, b: Buffer)
    requires forall i :: 0 <= i < |bs| ==> bs[i].id != b.id
    ensures Retained(bs + [b], b.id) == bs
  {
    RetainedAppend(bs, [b], b.id);
    RetainedNone(bs, b.id);
    assert Retained([b], b.id) == [];
  }

  /** The position of the first buffer holding `id`. */
  function IndexById(bs: seq<Buffer>, id: Uuid): (r: Option<nat>)
    ensures r.Some? ==> r.value < |bs| && bs[r.value].id == id
    ensures r.Some? ==> forall j :: 0 <= j < r.value ==> bs[j].id != id
    ensures r.None? ==> forall j :: 0 <= j < |bs| ==> bs[j].id != id
  {
    if |bs| == 0 then None
    else if bs[0].id == id then Some(0)
    else match IndexById(bs[1..], id)
      case None => None
      case Some(i) => Some(i + 1)
  }

  /** A buffer appended under an id no other buffer holds is the one found by that id. */
  lemma {:induction false} AddedIsFound(bs: seq<Buffer>, b: Buffer)
    requires forall i :: 0 <= i < |bs| ==> bs[i].id != b.id
    ensures IndexById(bs + [b], b.id) == Some(|bs|)
  {
    if |bs| > 0 {
      assert (bs + [b])[1..] == bs[1..] + [b];
      AddedIsFound(bs[1..], b);
    }
  }

  /** Whether buffer `b` is tied to the file at `path`. */
  predicate AtPath(b: Buffer, path: Path)
    reads b
  {
    b.fileData.Some? && b.fileData.value.path == path
  }

  /** The position of the first buffer tied to `path`. */
  function IndexByPath(bs: seq<Buffer>, path: Path): (r: Option<nat>)
    reads bs
    ensures r.Some? ==> r.value < |bs| && AtPath(bs[r.value], path)
    ensures r.Some? ==> forall j :: 0 <= j < r.value ==> !AtPath(bs[j], path)
    ensures r.None? ==> forall j :: 0 <= j < |bs| ==> !AtPath(bs[j], path)
  {
    if |bs| == 0 then None
    else if AtPath(bs[0], path) then Some(0)
    else match IndexByPath(bs[1..], path)
      case None => None
      case Some(i) => Some(i + 1)
  }

  /** Whether some buffer of the list has unsaved changes (`Iterator::any`). */
  predicate AnyDirty(bs: seq<Buffer>)
    reads bs
    ensures AnyDirty(bs) <==> exists i :: 0 <= i < |bs| && bs[i].IsDirty()
  {
    if |bs| == 0 then false
    else bs[0].IsDirty() || AnyDirty(bs[1..])
  }

  class Buffers {
    var buffers: seq<Buffer>
    var selectedId: Option<Uuid>

    /** No buffers and nothing selected (`Default`). */
    constructor()
      ensures buffers == [] && selectedId.None?
    {
      buffers := [];
      selectedId := None;
    }

    /** Appends `buffer` and selects it. */
    method Add(buffer: Buffer)
      modifies this
      ensures buffers == old(buffers) + [buffer]
      ensures selectedId == Some(buffer.id)
    {
      Select(buffer.id);
      buffers := buffers + [buffer];
    }

    method Select(id: Uuid)
      modifies this
      ensures selectedId == Some(id) && buffers == old(buffers)
    {
      selectedId := Some(id);
    }

    /**
     * Closes every buffer holding `id`. If it was the selected one, the last
     * remaining buffer becomes selected, or none when the list is empty.
     */
    method DeleteBuffer(id: Uuid)
      modifies this
      ensures buffers == Retained(old(buffers), id)
      ensures forall b :: b in buffers <==> b in old(buffers) && b.id != id
      ensures old(selectedId) == Some(id) ==>
        selectedId == if |buffers| == 0 then None else Some(buffers[|buffers| - 1].id)
      ensures old(selectedId) != Some(id) ==> selectedId == old(selectedId)
    {
      buffers := Retained(buffers, id);
      if selectedId == Some(id) {
        selectedId := if |buffers| == 0 then None else Some(buffers[|buffers| - 1].id);
      }
    }

    /** The first buffer holding `id`. */
    function GetById(id: Uuid): (r: Option<Buffer>)
      reads this
      ensures r.Some? <==> exists i :: 0 <= i < |buffers| && buffers[i].id == id
      ensures r.Some? ==> r.value in buffers && r.value.id == id
    {
      match IndexById(buffers, id)
      case None => None
      case Some(i) => Some(buffers[i])
    }

    /** The first buffer tied to the file at `path`. */
    function GetByPath(path: Path): (r: Option<Buffer>)
      reads this, buffers
      ensures r.Some? <==> exists i :: 0 <= i < |buffers| && AtPath(buffers[i], path)
      ensures r.Some? ==> r.value in buffers && AtPath(r.value, path)
    {
      match IndexByPath(buffers, path)
      case None => None
      case Some(i) => Some(buffers[i])
    }

    /** The selected buffer, when the selection names one in the list. */
    function CurrentBuffer(): (r: Option<Buffer>)
      reads this
      ensures r.Some? ==> selectedId == Some(r.value.id) && r.value in buffers
      ensures selectedId.None? ==> r.None?
      ensures selectedId.Some? && (exists i :: 0 <= i < |buffers| && buffers[i].id == selectedId.value) ==> r.Some?
    {
      match selectedId
      case None => None
      case Some(id) => GetById(id)
    }

    /** Some buffer has unsaved changes. */
    predicate IsDirty()
      reads this, buffers
      ensures IsDirty() <==> exists i :: 0 <= i < |buffers| && buffers[i].IsDirty()
    {
      AnyDirty(buffers)
    }
  }
}
