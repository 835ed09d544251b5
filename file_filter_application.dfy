/**
 * FileFilterApplication.apply: one walk of the source tree that keeps the
 * selected files passing the type and date tests, then, on the way back out
 * of each entered directory, keeps the directory when something already kept
 * lies beneath it.
 */
module FilterApplication {
  import opened Wrappers
  import opened Paths
  import opened FileTree
  import opened DateOptions
  import opened Filters

  /** What the visitor reads: the selection, the filter settings and today's day number. */
  datatype Criteria = Criteria(selected: set<Path>, dateOpt: DateOption, fileTypes: seq<string>, today: int)

  /** String.lastIndexOf(c): the last position of `c`, or -1. */
  function LastIndexOf(s: string, c: char): (r: int)
    ensures -1 <= r < |s|
    ensures r == -1 ==> c !in s
    ensures r >= 0 ==> s[r] == c && c !in s[r + 1..]
  {
    if s == [] then -1
    else if s[|s| - 1] == c then |s| - 1
    else
      var init := s[..|s| - 1];
      var r := LastIndexOf(init, c);
      assert s == init + [s[|s| - 1]];
      assert r >= 0 ==> s[r + 1..] == init[r + 1..] + [s[|s| - 1]];
      r
  }

  /**
   * getFileExtension: the text after the last '.' of the file name, or "" when
   * the name has no '.'.
   */
  function GetFileExtension(fileName: string): (e: string)
    ensures '.' !in e
    ensures '.' !in fileName ==> e == ""
    ensures '.' in fileName ==>
              |e| < |fileName| && fileName[|fileName| - |e| - 1] == '.' && fileName[|fileName| - |e|..] == e
  {
    var ix := LastIndexOf(fileName, '.');
    if ix == -1 then "" else fileName[ix + 1..]
  }

  /** A name ending in '.' and a dot-free `ext` has exactly `ext` as its extension. */
  lemma ExtensionOfDotted(stem: string, ext: string)
    requires '.' !in ext
    ensures GetFileExtension(stem + "." + ext) == ext
  {
    var name := stem + "." + ext;
    assert name[|stem|] == '.';
    assert name[|name| - |ext|..] == ext;
  }

  /**
   * Every token offered by the filters dialog other than "All" is the
   * extension of the file names that end in '.' and that token.
   */
  lemma OfferedExtensionsMatchable(stem: string, e: string)
    requires e in FileExtensions && e != AllTypes
    ensures GetFileExtension(stem + "." + e) == e
  {
    OfferedExtensionsDotFree(e);
    ExtensionOfDotted(stem, e);
  }

  lemma OfferedExtensionsDotFree(e: string)
    requires e in FileExtensions
    ensures '.' !in e
  {
    FileExtensionsShape();
  }

  /** applyFileTypeFilter: the list holds "All" or the file's extension. */
  predicate ApplyFileTypeFilter(fileTypes: seq<string>, fileName: string)
  {
    AllTypes in fileTypes || GetFileExtension(fileName) in fileTypes
  }

  /**
   * applyDateOptionFilter: ALL_DAYS passes without reading the file's date;
   * the other options read it (failing when it cannot be read) and test
   * LocalDate.isAfter against today, today - 7 or today - 30.
   */
  function ApplyDateOptionFilter(opt: DateOption, file: Path, mtimeDay: Option<int>, today: int): Result<bool, IOError>
  {
    match opt
    case Today =>
      if mtimeDay.None? then Failure(AttributesUnreadable(file)) else Success(mtimeDay.value > today)
    case Last7Days =>
      if mtimeDay.None? then Failure(AttributesUnreadable(file)) else Success(mtimeDay.value > today - 7)
    case Last30Days =>
      if mtimeDay.None? then Failure(AttributesUnreadable(file)) else Success(mtimeDay.value > today - 30)
    case AllDays => Success(true)
  }

  /** The date is read only for the three bounded options, and only then can it fail. */
  lemma DateReadOnlyWhenBounded(opt: DateOption, file: Path, mtimeDay: Option<int>, today: int)
    ensures opt == AllDays ==> ApplyDateOptionFilter(opt, file, mtimeDay, today) == Success(true)
    ensures opt != AllDays ==>
              (ApplyDateOptionFilter(opt, file, mtimeDay, today).Failure? <==> mtimeDay.None?)
  {
  }

  /** Each option admits every file the narrower one admits: TODAY, then LAST_7_DAYS, then LAST_30_DAYS. */
  lemma DateOptionsNested(file: Path, day: int, today: int)
    ensures ApplyDateOptionFilter(Today, file, Some(day), today) == Success(true) ==>
            ApplyDateOptionFilter(Last7Days, file, Some(day), today) == Success(true)
    ensures ApplyDateOptionFilter(Last7Days, file, Some(day), today) == Success(true) ==>
            ApplyDateOptionFilter(Last30Days, file, Some(day), today) == Success(true)
  {
  }

  /**
   * The comparison is strict: a file modified today or earlier does not pass TODAY, while
   * LAST_7_DAYS admits the seven days ending today.
   */
  lemma DateWindows(file: Path, day: int, today: int)
    ensures day <= today ==> ApplyDateOptionFilter(Today, file, Some(day), today) == Success(false)
    ensures day <= today ==>
              (ApplyDateOptionFilter(Last7Days, file, Some(day), today) == Success(true) <==> today - day < 7)
    ensures day <= today ==>
              (ApplyDateOptionFilter(Last30Days, file, Some(day), today) == Success(true) <==> today - day < 30)
  {
  }

  /** dirHasFiles: something in `list` lies strictly beneath `dir` (a check on the set, not on the disk). */
  predicate DirHasFiles(dir: Path, list: set<Path>)
  {
    exists q :: q in list && StrictlyBelow(q, dir)
  }

  /** The condition of visitFile: selected, of a listed type, and inside the date window. */
  predicate FileKept(p: Path, f: Node, c: Criteria)
    requires f.File?
  {
    p in c.selected && ApplyFileTypeFilter(c.fileTypes, f.name) &&
    ApplyDateOptionFilter(c.dateOpt, p, f.mtimeDay, c.today) == Success(true)
  }

  /** The file at `p` makes visitFile throw: the date is read and cannot be. */
  predicate FileUnreadable(p: Path, f: Node, c: Criteria)
    requires f.File?
  {
    p in c.selected && ApplyFileTypeFilter(c.fileTypes, f.name) &&
    ApplyDateOptionFilter(c.dateOpt, p, f.mtimeDay, c.today).Failure?
  }

  /**
   * The paths apply adds for the tree `n` at `p`: post-order, so a directory
   * is tested against what its own entries contributed.
   */
  function Kept(n: Node, p: Path, c: Criteria): set<Path>
  {
    match n
    case File(_, _, _) => if FileKept(p, n, c) then {p} else {}
    case Dir(_, cs) =>
      if p !in c.selected then {}
      else
        var below := KeptChildren(cs, p, c);
        if DirHasFiles(p, below) then below + {p} else below
  }

  function KeptChildren(cs: seq<Node>, p: Path, c: Criteria): set<Path>
  {
    if cs == [] then {}
    else KeptChildren(cs[..|cs| - 1], p, c) + Kept(cs[|cs| - 1], p + [cs[|cs| - 1].name], c)
  }

  /** The first file, in walk order, whose date read throws; the walk stops there. */
  function FirstUnreadable(n: Node, p: Path, c: Criteria): Option<Path>
  {
    match n
    case File(_, _, _) => if FileUnreadable(p, n, c) then Some(p) else None
    case Dir(_, cs) => if p !in c.selected then None else FirstUnreadableChildren(cs, p, c)
  }

  function FirstUnreadableChildren(cs: seq<Node>, p: Path, c: Criteria): Option<Path>
  {
    if cs == [] then None
    else
      var before := FirstUnreadableChildren(cs[..|cs| - 1], p, c);
      if before.Some? then before
      else FirstUnreadable(cs[|cs| - 1], p + [cs[|cs| - 1].name], c)
  }

  /** What apply returns for the tree `n` at `p`: the kept paths, or the first unreadable date. */
  function Filtered(n: Node, p: Path, c: Criteria): Result<set<Path>, IOError>
  {
    match FirstUnreadable(n, p, c)
    case Some(q) => Failure(AttributesUnreadable(q))
    case None => Success(Kept(n, p, c))
  }

  /**
   * The anonymous SimpleFileVisitor of apply. Its one piece of state is the
   * HashSet filteredFiles, which visitFile and postVisitDirectory add to.
   */
  class FilterVisitor {
    var filteredFiles: set<Path>
    const criteria: Criteria

    constructor (c: Criteria)
      ensures criteria == c && filteredFiles == {}
    {
      criteria := c;
      filteredFiles := {};
    }

    /** preVisitDirectory: descend only into selected directories. */
    function PreVisitDirectory(dir: Path): (descend: bool)
    {
      dir in criteria.selected
    }

    /** visitFile: add the file when it passes; a date that cannot be read throws. */
    method VisitFile(file: Path, f: Node) returns (err: Option<IOError>)
      requires f.File?
      modifies this`filteredFiles
      ensures err.Some? <==> FileUnreadable(file, f, criteria)
      ensures err.Some? ==> err.value == AttributesUnreadable(file)
      ensures err.None? ==>
                filteredFiles == old(filteredFiles) + (if FileKept(file, f, criteria) then {file} else {})
    {
      err := None;
      if file in criteria.selected && ApplyFileTypeFilter(criteria.fileTypes, f.name) {
        var date := ApplyDateOptionFilter(criteria.dateOpt, file, f.mtimeDay, criteria.today);
        if date.Failure? {
          err := Some(date.error);
        } else if date.value {
          filteredFiles := filteredFiles + {file};
        }
      }
    }

    /** postVisitDirectory: add the directory when something kept lies beneath it. */
    method PostVisitDirectory(dir: Path)
      modifies this`filteredFiles
      ensures filteredFiles == old(filteredFiles) + (if DirHasFiles(dir, old(filteredFiles)) then {dir} else {})
    {
      if DirHasFiles(dir, filteredFiles) {
        filteredFiles := filteredFiles + {dir};
      }
    }

    /**
     * Files.walkFileTree driving this visitor over the tree `n` at `p`. Nothing
     * kept so far lies at or under `p`, which holds for the start and, because
     * sibling names differ, for every entry the walk reaches.
     */
    method WalkFrom(n: Node, p: Path) returns (err: Option<IOError>)
      requires WellFormed(n)
      requires forall q :: q in filteredFiles ==> !StartsWith(q, p)
      modifies this`filteredFiles
      ensures err == (if FirstUnreadable(n, p, criteria).Some?
                      then Some(AttributesUnreadable(FirstUnreadable(n, p, criteria).value)) else None)
      ensures err.None? ==> filteredFiles == old(filteredFiles) + Kept(n, p, criteria)
      decreases n
    {
      match n {
        case File(_, _, _) =>
          err := VisitFile(p, n);
        case Dir(_, cs) =>
          if !PreVisitDirectory(p) {
            return None;
          }
          var i := 0;
          while i < |cs|
            invariant 0 <= i <= |cs|
            invariant filteredFiles == old(filteredFiles) + KeptChildren(cs[..i], p, criteria)
            invariant FirstUnreadableChildren(cs[..i], p, criteria).None?
          {
            assert cs[..i + 1][..i] == cs[..i];
            forall q | q in filteredFiles ensures !StartsWith(q, p + [cs[i].name]) {
              if q in KeptChildren(cs[..i], p, criteria) {
                KeptChildrenUnder(cs[..i], p, criteria);
                var k :| 0 <= k < i && q[|p|] == cs[..i][k].name;
              }
              if StartsWith(q, p + [cs[i].name]) {
                ChildStartsWith(q, p, cs[i].name);
              }
            }
            err := WalkFrom(cs[i], p + [cs[i].name]);
            assert cs[..i + 1][i] == cs[i];
            if err.Some? {
              FirstUnreadableChildrenStops(cs, p, criteria, i + 1, |cs|);
              assert cs[..|cs|] == cs;
              return;
            }
            i := i + 1;
          }
          assert cs[..i] == cs;
          KeptChildrenUnder(cs, p, criteria);
          assert DirHasFiles(p, filteredFiles) <==> DirHasFiles(p, KeptChildren(cs, p, criteria));
          PostVisitDirectory(p);
          err := None;
      }
    }
  }

  /**
   * apply(sourceDir, selectedFiles, filters): the kept paths, or the
   * IOException of the first file whose date cannot be read.
   */
  method Apply(sourceDir: Path, root: Node, selectedFiles: set<Path>, filters: FileFilters, today: int)
    returns (r: Result<set<Path>, IOError>)
    requires WellFormed(root)
    ensures r == Filtered(root, sourceDir, Criteria(selectedFiles, filters.dateOpt, filters.fileTypes, today))
  {
    var visitor := new FilterVisitor(Criteria(selectedFiles, filters.dateOpt, filters.fileTypes, today));
    var err := visitor.WalkFrom(root, sourceDir);
    assert visitor.criteria == Criteria(selectedFiles, filters.dateOpt, filters.fileTypes, today);
    if err.Some? {
      r := Failure(err.value);
    } else {
      assert visitor.filteredFiles == Kept(root, sourceDir, visitor.criteria);
      r := Success(visitor.filteredFiles);
    }
  }

  // ---------------------------------------------------------------------------
  // What the kept set is, stated against the walk of the tree.

  lemma {:induction false} InKeptChildren(cs: seq<Node>, p: Path, c: Criteria, q: Path)
    ensures q in KeptChildren(cs, p, c) <==>
            exists k :: 0 <= k < |cs| && q in Kept(cs[k], p + [cs[k].name], c)
  {
    if cs != [] {
      var init := cs[..|cs| - 1];
      InKeptChildren(init, p, c, q);
      if q in KeptChildren(init, p, c) {
        var k :| 0 <= k < |init| && q in Kept(init[k], p + [init[k].name], c);
        assert init[k] == cs[k];
      }
      if exists k :: 0 <= k < |cs| && q in Kept(cs[k], p + [cs[k].name], c) {
        var k :| 0 <= k < |cs| && q in Kept(cs[k], p + [cs[k].name], c);
        if k < |cs| - 1 {
          assert init[k] == cs[k];
        }
      }
    }
  }

  /** Once an entry's walk throws, the walk of the later entries does not change the error. */
  lemma {:induction false} FirstUnreadableChildrenStops(cs: seq<Node>, p: Path, c: Criteria, i: nat, j: nat)
    requires i <= j <= |cs|
    requires FirstUnreadableChildren(cs[..i], p, c).Some?
    ensures FirstUnreadableChildren(cs[..j], p, c) == FirstUnreadableChildren(cs[..i], p, c)
    decreases j - i
  {
    if i < j {
      assert cs[..i + 1][..i] == cs[..i];
      FirstUnreadableChildrenStops(cs, p, c, i + 1, j);
    }
  }

  /** Every kept path lies under the start of the walk. */
  lemma {:induction false} KeptUnder(n: Node, p: Path, c: Criteria)
    ensures forall q :: q in Kept(n, p, c) ==> StartsWith(q, p)
    decreases n, 1
  {
    if n.Dir? && p in c.selected {
      KeptChildrenUnder(n.children, p, c);
    }
  }

  lemma {:induction false} KeptChildrenUnder(cs: seq<Node>, p: Path, c: Criteria)
    ensures forall q :: q in KeptChildren(cs, p, c) ==>
              StartsWith(q, p) && |q| > |p| && exists k :: 0 <= k < |cs| && q[|p|] == cs[k].name
    decreases cs, 0
  {
    forall q | q in KeptChildren(cs, p, c)
      ensures StartsWith(q, p) && |q| > |p| && exists k :: 0 <= k < |cs| && q[|p|] == cs[k].name
    {
      InKeptChildren(cs, p, c, q);
      var k :| 0 <= k < |cs| && q in Kept(cs[k], p + [cs[k].name], c);
      KeptUnder(cs[k], p + [cs[k].name], c);
      ChildStartsWith(q, p, cs[k].name);
    }
  }

  /** Within a directory, a kept path under entry `k` was contributed by entry `k` alone. */
  lemma KeptChildrenPick(cs: seq<Node>, p: Path, c: Criteria, k: nat, q: Path)
    requires forall i, j :: 0 <= i < j < |cs| ==> cs[i].name != cs[j].name
    requires k < |cs| && StartsWith(q, p + [cs[k].name])
    ensures q in KeptChildren(cs, p, c) <==> q in Kept(cs[k], p + [cs[k].name], c)
  {
    InKeptChildren(cs, p, c, q);
    ChildStartsWith(q, p, cs[k].name);
    if q in KeptChildren(cs, p, c) {
      var j :| 0 <= j < |cs| && q in Kept(cs[j], p + [cs[j].name], c);
      KeptUnder(cs[j], p + [cs[j].name], c);
      ChildStartsWith(q, p, cs[j].name);
    }
  }

  /** The result is a subset of the selection, and every kept path is reached by the walk. */
  lemma {:induction false} KeptSelectedAndReached(n: Node, p: Path, c: Criteria)
    ensures forall q :: q in Kept(n, p, c) ==>
              q in c.selected && exists v :: v in Walk(n, p, Some(c.selected)) && v.path == q
    decreases n
  {
    WalkUnder(n, p, Some(c.selected));
    if n.Dir? && p in c.selected {
      forall q | q in Kept(n, p, c)
        ensures q in c.selected && exists v :: v in Walk(n, p, Some(c.selected)) && v.path == q
      {
        if q != p {
          InKeptChildren(n.children, p, c, q);
          var k :| 0 <= k < |n.children| && q in Kept(n.children[k], p + [n.children[k].name], c);
          KeptSelectedAndReached(n.children[k], p + [n.children[k].name], c);
          var v :| v in Walk(n.children[k], p + [n.children[k].name], Some(c.selected)) && v.path == q;
          InWalkChildren(n.children, p, Some(c.selected), v);
        }
      }
    }
  }

  /**
   * Nothing below an unselected directory is kept, even when it was itself
   * selected: every directory enclosing a kept path is selected.
   */
  lemma KeptUnderSelectedDirectories(n: Node, p: Path, c: Criteria, q: Path)
    requires q in Kept(n, p, c)
    ensures q in c.selected && EnteredAll(q, p, c.selected)
    ensures exists v :: v in Walk(n, p, None) && v.path == q
  {
    KeptSelectedAndReached(n, p, c);
    var v :| v in Walk(n, p, Some(c.selected)) && v.path == q;
    WalkPruned(n, p, c.selected, v);
  }

  /**
   * A file the walk reaches is kept exactly when it is selected, of a listed
   * type and inside the date window.
   */
  lemma {:induction false} KeptFileIff(n: Node, p: Path, c: Criteria, v: Visit)
    requires WellFormed(n)
    requires v in Walk(n, p, Some(c.selected)) && v.node.File?
    ensures v.path in Kept(n, p, c) <==> FileKept(v.path, v.node, c)
    decreases n
  {
    WalkUnder(n, p, Some(c.selected));
    if n.Dir? {
      var cs := n.children;
      InWalkChildren(cs, p, Some(c.selected), v);
      var k :| 0 <= k < |cs| && v in Walk(cs[k], p + [cs[k].name], Some(c.selected));
      WalkUnder(cs[k], p + [cs[k].name], Some(c.selected));
      KeptFileIff(cs[k], p + [cs[k].name], c, v);
      KeptChildrenPick(cs, p, c, k, v.path);
      ChildStartsWith(v.path, p, cs[k].name);
    }
  }

  /**
   * Over the whole tree: a file is kept exactly when it is selected, every
   * directory from the start down to it is selected, and it passes the type
   * and date tests.
   */
  lemma KeptFileIffInTree(n: Node, p: Path, c: Criteria, v: Visit)
    requires WellFormed(n)
    requires v in Walk(n, p, None) && v.node.File?
    ensures v.path in Kept(n, p, c) <==> EnteredAll(v.path, p, c.selected) && FileKept(v.path, v.node, c)
  {
    WalkPruned(n, p, c.selected, v);
    if v.path in Kept(n, p, c) {
      KeptUnderSelectedDirectories(n, p, c, v.path);
    }
    if v in Walk(n, p, Some(c.selected)) {
      KeptFileIff(n, p, c, v);
    }
  }

  /**
   * A directory the walk reaches is kept exactly when it is selected and some
   * other kept path lies beneath it.
   */
  lemma {:induction false} KeptDirIff(n: Node, p: Path, c: Criteria, v: Visit)
    requires WellFormed(n)
    requires v in Walk(n, p, Some(c.selected)) && v.node.Dir?
    ensures v.path in Kept(n, p, c) <==> v.path in c.selected && DirHasFiles(v.path, Kept(n, p, c))
    decreases n
  {
    WalkUnder(n, p, Some(c.selected));
    var cs := n.children;
    if v.path == p {
      if p in c.selected {
        var below := KeptChildren(cs, p, c);
        KeptChildrenUnder(cs, p, c);
        assert p !in below;
        assert DirHasFiles(p, Kept(n, p, c)) <==> DirHasFiles(p, below);
      }
    } else {
      InWalkChildren(cs, p, Some(c.selected), v);
      var k :| 0 <= k < |cs| && v in Walk(cs[k], p + [cs[k].name], Some(c.selected));
      var pk := p + [cs[k].name];
      WalkUnder(cs[k], pk, Some(c.selected));
      KeptDirIff(cs[k], pk, c, v);
      KeptChildrenPick(cs, p, c, k, v.path);
      forall q | StrictlyBelow(q, v.path)
        ensures q in Kept(n, p, c) <==> q in Kept(cs[k], pk, c)
      {
        StartsWithTransitive(q, v.path, pk);
        KeptChildrenPick(cs, p, c, k, q);
        ChildStartsWith(q, p, cs[k].name);
      }
    }
  }

  /** Ancestor closure: every directory from the start down to a kept path is kept. */
  lemma {:induction false} KeptAncestorClosed(n: Node, p: Path, c: Criteria, q: Path, k: nat)
    requires q in Kept(n, p, c) && |p| <= k < |q|
    ensures q[..k] in Kept(n, p, c)
    decreases n
  {
    KeptUnder(n, p, c);
    var cs := n.children;
    InKeptChildren(cs, p, c, q);
    var i :| 0 <= i < |cs| && q in Kept(cs[i], p + [cs[i].name], c);
    var pi := p + [cs[i].name];
    KeptUnder(cs[i], pi, c);
    ChildStartsWith(q, p, cs[i].name);
    if k == |p| {
      assert q[..k] == p && StrictlyBelow(q, p);
      assert q in KeptChildren(cs, p, c);
    } else {
      KeptAncestorClosed(cs[i], pi, c, q, k);
      InKeptChildren(cs, p, c, q[..k]);
    }
  }

  /**
   * A walk pruned to the filtered set (SKIP_SUBTREE for every directory not in
   * it) still visits every filtered path: the directories enclosing it are
   * filtered too, so none of them is skipped.
   */
  lemma KeptReachedByFilteredWalk(n: Node, p: Path, c: Criteria, q: Path) returns (v: Visit)
    requires q in Kept(n, p, c)
    ensures v.path == q && v in Walk(n, p, None) && v in Walk(n, p, Some(Kept(n, p, c)))
  {
    KeptUnderSelectedDirectories(n, p, c, q);
    v :| v in Walk(n, p, None) && v.path == q;
    forall k | |p| <= k < |q|
      ensures q[..k] in Kept(n, p, c)
    {
      KeptAncestorClosed(n, p, c, q, k);
    }
    WalkPruned(n, p, Kept(n, p, c), v);
  }

  /** No empty directories: at or beneath every kept path lies a kept file. */
  lemma {:induction false} KeptHasFile(n: Node, p: Path, c: Criteria, q: Path)
    requires q in Kept(n, p, c)
    ensures exists v :: v in Walk(n, p, Some(c.selected)) && v.node.File? && v.path in Kept(n, p, c) &&
                        StartsWith(v.path, q)
    decreases n
  {
    WalkUnder(n, p, Some(c.selected));
    if n.File? {
      assert Walk(n, p, Some(c.selected))[0] in Walk(n, p, Some(c.selected));
    } else {
      var cs := n.children;
      var below := KeptChildren(cs, p, c);
      KeptChildrenUnder(cs, p, c);
      assert p !in below;
      var q' := if q == p then var r :| r in below && StrictlyBelow(r, p); r else q;
      InKeptChildren(cs, p, c, q');
      var i :| 0 <= i < |cs| && q' in Kept(cs[i], p + [cs[i].name], c);
      var pi := p + [cs[i].name];
      KeptHasFile(cs[i], pi, c, q');
      var v :| v in Walk(cs[i], pi, Some(c.selected)) && v.node.File? && v.path in Kept(cs[i], pi, c) &&
               StartsWith(v.path, q');
      InWalkChildren(cs, p, Some(c.selected), v);
      InKeptChildren(cs, p, c, v.path);
      KeptUnder(cs[i], pi, c);
      ChildStartsWith(v.path, p, cs[i].name);
      if q == p {
        ChildStartsWith(q', p, cs[i].name);
        StartsWithTransitive(v.path, q', p);
      }
    }
  }

  /** A directory at the start is kept exactly when the result is non-empty. */
  lemma RootKeptIffNonEmpty(n: Node, p: Path, c: Criteria)
    requires n.Dir?
    ensures p in Kept(n, p, c) <==> Kept(n, p, c) != {}
  {
    if p in c.selected && Kept(n, p, c) != {} {
      var q :| q in KeptChildren(n.children, p, c);
      KeptChildrenUnder(n.children, p, c);
    }
  }

  /**
   * apply fails exactly when the walk reaches a selected file of a listed type
   * whose date is needed and cannot be read; the error names such a file.
   */
  lemma {:induction false} UnreadableIffReached(n: Node, p: Path, c: Criteria)
    ensures FirstUnreadable(n, p, c).Some? <==>
            exists v :: v in Walk(n, p, Some(c.selected)) && v.node.File? && FileUnreadable(v.path, v.node, c)
    ensures FirstUnreadable(n, p, c).Some? ==>
            exists v :: v in Walk(n, p, Some(c.selected)) && v.node.File? && FileUnreadable(v.path, v.node, c) &&
                        v.path == FirstUnreadable(n, p, c).value
    decreases n, 1
  {
    var w := Walk(n, p, Some(c.selected));
    if n.Dir? && p in c.selected {
      var wc := WalkChildren(n.children, p, Some(c.selected));
      UnreadableChildrenIffReached(n.children, p, c);
      assert w == [Visit(p, n)] + wc;
      if exists v :: v in wc && v.node.File? && FileUnreadable(v.path, v.node, c) {
        var v :| v in wc && v.node.File? && FileUnreadable(v.path, v.node, c);
        assert v in w;
      }
    } else {
      assert w == [Visit(p, n)];
    }
  }

  lemma {:induction false} UnreadableChildrenIffReached(cs: seq<Node>, p: Path, c: Criteria)
    ensures FirstUnreadableChildren(cs, p, c).Some? <==>
            exists v :: v in WalkChildren(cs, p, Some(c.selected)) && v.node.File? && FileUnreadable(v.path, v.node, c)
    ensures FirstUnreadableChildren(cs, p, c).Some? ==>
            exists v :: v in WalkChildren(cs, p, Some(c.selected)) && v.node.File? && FileUnreadable(v.path, v.node, c) &&
                        v.path == FirstUnreadableChildren(cs, p, c).value
    decreases cs, 0
  {
    if cs != [] {
      UnreadableChildrenIffReached(cs[..|cs| - 1], p, c);
      UnreadableIffReached(cs[|cs| - 1], p + [cs[|cs| - 1].name], c);
    }
  }

  /** The file-type list of a fresh FileFilters admits every file name. */
  lemma DefaultTypesAdmitAll(fileName: string)
    ensures ApplyFileTypeFilter([AllTypes], fileName)
  {
  }

  /** Without "All", a single-token list admits exactly the names with that extension. */
  lemma SingleTypeFilter(ext: string, fileName: string)
    requires ext != AllTypes
    ensures ApplyFileTypeFilter([ext], fileName) <==> GetFileExtension(fileName) == ext
  {
  }
}
