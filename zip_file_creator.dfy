/**
 * ZipFileCreator.zip: an archive beside a directory holding one entry per
 * regular file beneath it, named by the file's path relative to the
 * directory, each file streamed through a 512-byte buffer.
 *
 * The archive is the sequence of its entries (name and uncompressed bytes);
 * an entry name is the relative path as a list of components.
 */
module ZipFiles {
  import opened Wrappers
  import opened Paths
  import opened FileTree

  /** The size of the copy buffer. */
  const BufferSize: nat := 512

  /** The archive path: the input's parent joined with the input's name plus ".zip". */
  function ArchivePath(input: Path): Path
    requires |input| > 0
  {
    Parent(input) + [input[|input| - 1] + ".zip"]
  }

  /** The archive lies beside the input directory, never inside it nor on it. */
  lemma ArchiveBesideInput(input: Path)
    requires |input| > 0
    ensures |ArchivePath(input)| > 0 && Parent(ArchivePath(input)) == Parent(input)
    ensures !StartsWith(ArchivePath(input), input)
  {
    var a := ArchivePath(input);
    assert |a[|a| - 1]| == |input[|input| - 1]| + 4;
  }

  datatype ZipEntry = ZipEntry(name: Path, data: seq<byte>)

  /**
   * How zip can fail: getFileName() and getParent() are null for the root
   * (a NullPointerException), or a file cannot be opened for reading.
   */
  datatype ZipError = NoParent | Unreadable(path: Path)

  /** The entries of a completed archive: one per file visit, in walk order. */
  function Entries(input: Path, vs: seq<Visit>): seq<ZipEntry>
    requires AllUnder(vs, input)
  {
    if vs == [] then []
    else
      assert vs[|vs| - 1] in vs && forall v :: v in vs[..|vs| - 1] ==> v in vs;
      var last := vs[|vs| - 1];
      Entries(input, vs[..|vs| - 1]) +
      (if last.node.File? then [ZipEntry(Relativize(input, last.path), last.node.bytes)] else [])
  }

  /** The index of the first file visit that cannot be opened, or |vs| when there is none. */
  function FirstUnopenable(vs: seq<Visit>, unreadable: set<Path>, i: nat): (k: nat)
    requires i <= |vs|
    ensures i <= k <= |vs|
    ensures forall j :: i <= j < k ==> !(vs[j].node.File? && vs[j].path in unreadable)
    ensures k < |vs| ==> vs[k].node.File? && vs[k].path in unreadable
    decreases |vs| - i
  {
    if i == |vs| then |vs|
    else if vs[i].node.File? && vs[i].path in unreadable then i
    else FirstUnopenable(vs, unreadable, i + 1)
  }

  /** A FileInputStream over the bytes of one file. */
  class FileInput {
    const data: seq<byte>
    var pos: nat

    predicate Valid()
      reads this
    {
      pos <= |data|
    }

    constructor (data: seq<byte>)
      ensures this.data == data && pos == 0 && Valid()
    {
      this.data := data;
      pos := 0;
    }

    /**
     * read(buf): -1 at end of file; otherwise it copies between one byte and
     * buf.Length bytes from the current position into the front of `buf`
     * (a read may return fewer bytes than remain).
     */
    method Read(buf: array<byte>) returns (n: int)
      requires Valid() && buf.Length > 0
      modifies this`pos, buf
      ensures Valid()
      ensures old(pos) == |data| ==> n == -1 && pos == old(pos)
      ensures old(pos) < |data| ==>
                0 < n <= buf.Length && pos == old(pos) + n && buf[..n] == data[old(pos)..pos]
    {
      if pos == |data| {
        return -1;
      }
      var p := pos;
      var m := if |data| - p < buf.Length then |data| - p else buf.Length;
      n :| 0 < n <= m;
      var k := 0;
      while k < n
        invariant 0 <= k <= n
        invariant buf[..k] == data[p..p + k]
        modifies buf
      {
        buf[k] := data[p + k];
        k := k + 1;
      }
      pos := p + n;
    }
  }

  /** A ZipOutputStream: the entries so far, whether the last one is still open, whether the stream is closed. */
  class ZipOutput {
    var entries: seq<ZipEntry>
    var entryOpen: bool
    var closed: bool

    constructor ()
      ensures entries == [] && !entryOpen && !closed
    {
      entries := [];
      entryOpen := false;
      closed := false;
    }

    predicate HasName(name: Path)
      reads this
    {
      exists k :: 0 <= k < |entries| && entries[k].name == name
    }

    /**
     * putNextEntry: starts a new, empty entry, closing the open one first.
     * The stream refuses a name it has already written.
     */
    method PutNextEntry(name: Path)
      requires !closed && !HasName(name)
      modifies this`entries, this`entryOpen
      ensures entries == old(entries) + [ZipEntry(name, [])] && entryOpen
    {
      entries := entries + [ZipEntry(name, [])];
      entryOpen := true;
    }

    /** write(buf, 0, len): appends the first `len` bytes of `buf` to the open entry. */
    method Write(buf: array<byte>, len: int)
      requires !closed && entryOpen && |entries| > 0 && 0 <= len <= buf.Length
      modifies this`entries
      ensures |entries| == |old(entries)| && entries[..|entries| - 1] == old(entries)[..|entries| - 1]
      ensures entries[|entries| - 1] ==
              old(entries)[|entries| - 1].(data := old(entries)[|entries| - 1].data + buf[..len])
    {
      var last := entries[|entries| - 1];
      entries := entries[..|entries| - 1] + [last.(data := last.data + buf[..len])];
    }

    method CloseEntry()
      requires !closed
      modifies this`entryOpen
      ensures !entryOpen
    {
      entryOpen := false;
    }

    method Close()
      modifies this`closed, this`entryOpen
      ensures closed && !entryOpen
    {
      entryOpen := false;
      closed := true;
    }
  }

  /**
   * zip(input) over the tree `tree` sitting at `input`; opening a file of
   * `unreadable` fails. On success the archive is closed, holds Entries and
   * the archive path is returned; a failure leaves the stream open with the
   * failing file's entry started and empty.
   */
  method Zip(input: Path, tree: Node, unreadable: set<Path>) returns (r: Result<Path, ZipError>, out: ZipOutput?)
    requires WellFormed(tree)
    ensures |input| == 0 ==> r == Failure(NoParent) && out == null
    ensures |input| > 0 ==>
              out != null && fresh(out) && AllUnder(Walk(tree, input, None), input) &&
              var vs := Walk(tree, input, None);
              var k := FirstUnopenable(vs, unreadable, 0);
              if k == |vs| then
                r == Success(ArchivePath(input)) && out.entries == Entries(input, vs) && out.closed
              else
                r == Failure(Unreadable(vs[k].path)) && !out.closed &&
                out.entries == Entries(input, vs[..k]) + [ZipEntry(Relativize(input, vs[k].path), [])]
  {
    if |input| == 0 {
      return Failure(NoParent), null;
    }
    var targetPath := ArchivePath(input);
    out := new ZipOutput();
    var vs := Walk(tree, input, None);
    WalkUnder(tree, input, None);
    WalkDistinct(tree, input, None);
    var k := WalkFiles(out, input, vs, unreadable);
    if k < |vs| {
      r := Failure(Unreadable(vs[k].path));
      return;
    }
    out.Close();
    r := Success(targetPath);
  }

  /**
   * Files.walkFileTree(input, visitor) for the zip: visitFile on each file in
   * walk order, until a file cannot be opened. Returns the index of that file,
   * or |vs| when every file was archived.
   */
  method WalkFiles(out: ZipOutput, input: Path, vs: seq<Visit>, unreadable: set<Path>) returns (k: nat)
    requires AllUnder(vs, input) && DistinctPaths(vs)
    requires out.entries == [] && !out.entryOpen && !out.closed
    modifies out`entries, out`entryOpen
    ensures k == FirstUnopenable(vs, unreadable, 0) && !out.closed
    ensures k == |vs| ==> out.entries == Entries(input, vs) && !out.entryOpen
    ensures k < |vs| ==> out.entries == Entries(input, vs[..k]) + [ZipEntry(Relativize(input, vs[k].path), [])]
  {
    var i := 0;
    while i < |vs|
      invariant 0 <= i <= |vs| && FirstUnopenable(vs, unreadable, 0) == FirstUnopenable(vs, unreadable, i)
      invariant AllUnder(vs[..i], input) && out.entries == Entries(input, vs[..i])
      invariant !out.entryOpen && !out.closed
    {
      var v := vs[i];
      EntriesSnoc(input, vs, i);
      if v.node.File? {
        EntryNamesFresh(input, vs, i);
        var err := VisitFile(out, input, v.path, v.node.bytes, unreadable);
        if err.Some? {
          return i;
        }
      }
      i := i + 1;
    }
    assert vs[..i] == vs;
    return |vs|;
  }

  /**
   * visitFile of the zip walk: start the entry named by the file's path
   * relative to the input, then stream the file into it and close it; a file
   * that cannot be opened leaves its entry started, empty and open.
   */
  method VisitFile(out: ZipOutput, input: Path, file: Path, bytes: seq<byte>, unreadable: set<Path>)
    returns (err: Option<ZipError>)
    requires StartsWith(file, input) && !out.closed && !out.entryOpen
    requires forall k :: 0 <= k < |out.entries| ==> out.entries[k].name != Relativize(input, file)
    modifies out`entries, out`entryOpen
    ensures !out.closed
    ensures err.Some? <==> file in unreadable
    ensures err.Some? ==>
              err.value == Unreadable(file) && out.entryOpen &&
              out.entries == old(out.entries) + [ZipEntry(Relativize(input, file), [])]
    ensures err.None? ==>
              !out.entryOpen && out.entries == old(out.entries) + [ZipEntry(Relativize(input, file), bytes)]
  {
    var targetFile := file[|input|..];
    out.PutNextEntry(targetFile);
    if file in unreadable {
      return Some(Unreadable(file));
    }
    StreamFile(out, bytes);
    out.CloseEntry();
    err := None;
  }

  /**
   * The try-with-resources block of visitFile: read the file into the
   * 512-byte buffer until read reports the end, writing each chunk to the
   * open entry, which so ends up holding exactly the file's bytes.
   */
  method StreamFile(out: ZipOutput, bytes: seq<byte>)
    requires out.entryOpen && !out.closed && |out.entries| > 0 && out.entries[|out.entries| - 1].data == []
    modifies out`entries
    ensures out.entries == old(out.entries[..|out.entries| - 1] + [out.entries[|out.entries| - 1].(data := bytes)])
  {
    var fin := new FileInput(bytes);
    var buf := new byte[BufferSize];
    ghost var before := out.entries[..|out.entries| - 1];
    ghost var name := out.entries[|out.entries| - 1].name;
    while true
      invariant fin.Valid() && out.entryOpen && !out.closed && fin.data == bytes
      invariant out.entries == before + [ZipEntry(name, fin.data[..fin.pos])]
      decreases |fin.data| - fin.pos
    {
      var bytesRead := fin.Read(buf);
      if bytesRead <= 0 {
        break;
      }
      out.Write(buf, bytesRead);
      assert fin.data[..fin.pos] == fin.data[..fin.pos - bytesRead] + buf[..bytesRead];
    }
    assert fin.data[..fin.pos] == bytes;
  }

  // ---------------------------------------------------------------------------
  // Properties of the archive

  /** Every entry is named after a file visit, relative to the input, and holds its bytes: the visit it comes from. */
  lemma {:induction false} EntryOrigin(input: Path, vs: seq<Visit>, k: nat) returns (j: nat)
    requires AllUnder(vs, input) && k < |Entries(input, vs)|
    ensures j < |vs| && vs[j].node.File? &&
            Entries(input, vs)[k] == ZipEntry(Relativize(input, vs[j].path), vs[j].node.bytes)
    decreases |vs|
  {
    assert vs != [];
    var i := |vs| - 1;
    EntriesSnoc(input, vs, i);
    assert vs[..i + 1] == vs;
    var ei := Entries(input, vs[..i]);
    if k < |ei| {
      j := EntryOrigin(input, vs[..i], k);
      assert vs[..i][j] == vs[j];
    } else {
      j := i;
    }
  }

  /** One more visit adds its file's entry, if it is a file, to the entries so far. */
  lemma EntriesSnoc(input: Path, vs: seq<Visit>, i: nat)
    requires i < |vs| && AllUnder(vs, input)
    ensures vs[i] in vs && AllUnder(vs[..i], input) && AllUnder(vs[..i + 1], input)
    ensures Entries(input, vs[..i + 1]) ==
            Entries(input, vs[..i]) +
            (if vs[i].node.File? then [ZipEntry(Relativize(input, vs[i].path), vs[i].node.bytes)] else [])
  {
    assert vs[i] in vs;
    assert forall v :: v in vs[..i + 1] ==> v in vs;
    assert vs[..i + 1][..i] == vs[..i] && vs[..i + 1][i] == vs[i];
  }

  /** The next file's entry name is not yet in the archive. */
  lemma EntryNamesFresh(input: Path, vs: seq<Visit>, i: nat)
    requires i < |vs| && AllUnder(vs, input) && DistinctPaths(vs)
    ensures AllUnder(vs[..i], input) && vs[i] in vs
    ensures forall k :: 0 <= k < |Entries(input, vs[..i])| ==>
              Entries(input, vs[..i])[k].name != Relativize(input, vs[i].path)
  {
    var init := vs[..i];
    assert forall v :: v in init ==> v in vs;
    assert vs[i] in vs;
    forall k | 0 <= k < |Entries(input, init)|
      ensures Entries(input, init)[k].name != Relativize(input, vs[i].path)
    {
      var j := EntryOrigin(input, init, k);
      assert init[j] == vs[j] && vs[j] in vs;
      if Relativize(input, vs[j].path) == Relativize(input, vs[i].path) {
        RelativizeInjective(input, vs[j].path, vs[i].path);
      }
    }
  }

  /** Every file the walk visits has its entry, with its bytes. */
  lemma {:induction false} EveryFileArchived(input: Path, vs: seq<Visit>, j: nat)
    requires AllUnder(vs, input) && j < |vs| && vs[j].node.File?
    ensures exists k :: 0 <= k < |Entries(input, vs)| &&
                        Entries(input, vs)[k] == ZipEntry(Relativize(input, vs[j].path), vs[j].node.bytes)
  {
    var init := vs[..|vs| - 1];
    assert forall v :: v in init ==> v in vs;
    var last := vs[|vs| - 1];
    var tail := if last.node.File? then [ZipEntry(Relativize(input, last.path), last.node.bytes)] else [];
    assert Entries(input, vs) == Entries(input, init) + tail;
    if j < |vs| - 1 {
      assert init[j] == vs[j];
      EveryFileArchived(input, init, j);
      var k :| 0 <= k < |Entries(input, init)| &&
               Entries(input, init)[k] == ZipEntry(Relativize(input, vs[j].path), vs[j].node.bytes);
      assert Entries(input, vs)[k] == Entries(input, init)[k];
    } else {
      assert Entries(input, vs)[|Entries(input, vs)| - 1] ==
             ZipEntry(Relativize(input, vs[j].path), vs[j].node.bytes);
    }
  }

  /** No two entries of the archive of a well-formed tree share a name. */
  lemma EntryNamesDistinct(input: Path, tree: Node)
    requires WellFormed(tree)
    ensures AllUnder(Walk(tree, input, None), input)
    ensures var e := Entries(input, Walk(tree, input, None));
            forall k1, k2 :: 0 <= k1 < k2 < |e| ==> e[k1].name != e[k2].name
  {
    var vs := Walk(tree, input, None);
    WalkUnder(tree, input, None);
    WalkDistinct(tree, input, None);
    EntriesDistinct(input, vs);
  }

  lemma {:induction false} EntriesDistinct(input: Path, vs: seq<Visit>)
    requires AllUnder(vs, input) && DistinctPaths(vs)
    ensures forall k1, k2 :: 0 <= k1 < k2 < |Entries(input, vs)| ==>
              Entries(input, vs)[k1].name != Entries(input, vs)[k2].name
  {
    if vs != [] {
      var init := vs[..|vs| - 1];
      assert forall v :: v in init ==> v in vs;
      EntriesDistinct(input, init);
      EntryNamesFresh(input, vs, |vs| - 1);
      var last := vs[|vs| - 1];
      var tail := if last.node.File? then [ZipEntry(Relativize(input, last.path), last.node.bytes)] else [];
      var e, ei := Entries(input, vs), Entries(input, init);
      assert e == ei + tail;
      forall k1, k2 | 0 <= k1 < k2 < |e| ensures e[k1].name != e[k2].name {
        if k2 < |ei| {
          assert e[k1] == ei[k1] && e[k2] == ei[k2];
        } else {
          assert k2 == |ei| && last.node.File?;
          assert e[k1] == ei[k1] && e[k2] == tail[0];
          assert ei[k1].name != Relativize(input, last.path);
        }
      }
    } else {
      assert Entries(input, vs) == [];
    }
  }

  /** Resolving an entry name against the input gives back the path of the archived file. */
  lemma EntryNamesResolve(input: Path, vs: seq<Visit>, k: nat)
    requires AllUnder(vs, input) && k < |Entries(input, vs)|
    ensures exists j :: 0 <= j < |vs| && vs[j].node.File? && Resolve(input, Entries(input, vs)[k].name) == vs[j].path
  {
    var j := EntryOrigin(input, vs, k);
    assert vs[j] in vs;
    ResolveRelativize(input, vs[j].path);
  }
}
