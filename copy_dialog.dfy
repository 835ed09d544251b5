/**
 * The logic of the copy dialog: the check of the chosen target directory,
 * the sizing of the work, the copy walk run by the background task, and the
 * decision to build a ZIP archive afterwards.
 *
 * The source tree is a FileTree value; the target file system is a map from
 * absolute paths to entries. The Cancel button is an oracle: the i-th
 * callback of the copy walk finds the task cancelled when `cancel[i]` holds.
 */
module CopyDialogs {
  import opened Wrappers
  import opened Paths
  import opened FileTree
  import opened Filters
  import opened FilterApplication

  /** An entry of the target file system. */
  datatype Entry = DirEntry | FileEntry(bytes: seq<byte>)

  type FileSystem = map<Path, Entry>

  predicate IsDir(fs: FileSystem, p: Path)
  {
    p in fs && fs[p].DirEntry?
  }

  /** File.list() on `d` returns at least one name. */
  predicate HasEntries(fs: FileSystem, d: Path)
  {
    exists q :: q in fs && |q| == |d| + 1 && StartsWith(q, d)
  }

  /** The parent of `t` exists and is a directory, so `t` can be created. */
  predicate ParentIsDir(fs: FileSystem, t: Path)
  {
    |t| > 0 && IsDir(fs, Parent(t))
  }

  // ---------------------------------------------------------------------------
  // verifyDirectories

  /**
   * What verifyDirectories decides: no target chosen, a target equal to or
   * inside the source (both rejected with an alert), a target that is not a
   * listable directory (File.list() returns null and requireNonNull throws),
   * or acceptance, with a warning when the target already holds entries.
   */
  datatype Verdict = NoTarget | SameOrNested | NotListable | Accepted(targetNotEmpty: bool)

  function VerifyDirectories(sourceDir: Path, targetDir: Option<Path>, fs: FileSystem): (v: Verdict)
    ensures v == NoTarget <==> targetDir.None?
    ensures v.Accepted? <==>
              targetDir.Some? && !StartsWith(targetDir.value, sourceDir) && IsDir(fs, targetDir.value)
    ensures v == NotListable <==>
              targetDir.Some? && !StartsWith(targetDir.value, sourceDir) && !IsDir(fs, targetDir.value)
    ensures v.Accepted? ==> (v.targetNotEmpty <==> HasEntries(fs, targetDir.value))
  {
    if targetDir.None? then NoTarget
    else if sourceDir == targetDir.value || StartsWith(targetDir.value, sourceDir) then SameOrNested
    else if !IsDir(fs, targetDir.value) then NotListable
    else Accepted(HasEntries(fs, targetDir.value))
  }

  /** An accepted target is an existing directory outside the source tree, so no copy target lies in the source. */
  lemma AcceptedTargetOutsideSource(sourceDir: Path, targetDir: Path, fs: FileSystem, p: Path)
    requires VerifyDirectories(sourceDir, Some(targetDir), fs).Accepted?
    requires StartsWith(p, sourceDir)
    ensures targetDir != sourceDir
    ensures !StartsWith(Resolve(targetDir, Relativize(sourceDir, p)), sourceDir) || StartsWith(sourceDir, targetDir)
  {
  }

  // ---------------------------------------------------------------------------
  // Work sizing

  /** Files.isDirectory on the source: the path names a directory of the source tree. */
  function FilteredDirs(filtered: set<Path>, source: seq<Visit>): set<Path>
  {
    set q | q in filtered && IsDirectoryIn(source, q)
  }

  function FilteredFiles(filtered: set<Path>, source: seq<Visit>): set<Path>
  {
    set q | q in filtered && !IsDirectoryIn(source, q)
  }

  /** dirsCount: the filtered directories minus the root. */
  function DirsCount(filtered: set<Path>, source: seq<Visit>): int
  {
    |FilteredDirs(filtered, source)| - 1
  }

  function FilesCount(filtered: set<Path>, source: seq<Visit>): int
  {
    |FilteredFiles(filtered, source)|
  }

  /** The directory count shown in the log, never negative. */
  function LoggedDirs(dirsCount: int): (n: nat)
    ensures n >= dirsCount && (dirsCount >= 0 ==> n == dirsCount)
  {
    if dirsCount < 0 then 0 else dirsCount
  }

  /** partitioningBy splits the filtered set in two, so the work total is one less than its size. */
  lemma WorkSizeTotal(filtered: set<Path>, source: seq<Visit>)
    ensures DirsCount(filtered, source) + FilesCount(filtered, source) == |filtered| - 1
  {
    var d, f := FilteredDirs(filtered, source), FilteredFiles(filtered, source);
    assert d + f == filtered;
    assert d * f == {};
  }

  /**
   * For a non-empty result of the filter pass over a directory, the root is
   * among the filtered directories, so dirsCount is not negative.
   */
  lemma WorkSizeAfterFilter(n: Node, p: Path, c: Criteria)
    requires n.Dir? && Kept(n, p, c) != {}
    ensures DirsCount(Kept(n, p, c), Walk(n, p, None)) >= 0
  {
    RootKeptIffNonEmpty(n, p, c);
    WalkUnder(n, p, None);
    assert Walk(n, p, None)[0] in Walk(n, p, None);
    assert p in FilteredDirs(Kept(n, p, c), Walk(n, p, None));
  }

  // ---------------------------------------------------------------------------
  // The copy walk, one callback at a time

  /** One call of updateProgress(workDone, max). */
  datatype ProgressUpdate = ProgressUpdate(workDone: int, max: int)

  /**
   * What the copy walk sees: the source and target directories, the filtered
   * set, the work total dirsCount + filesCount and the cancel oracle.
   */
  datatype CopyEnv = CopyEnv(source: Path, target: Path, filtered: set<Path>, total: int, cancel: seq<bool>)

  /** The target file system, copiedDirsCount, copiedFilesCount, currentCounter and the progress updates so far. */
  datatype CopyState = CopyState(fs: FileSystem, dirs: int, files: int, counter: int, progress: seq<ProgressUpdate>)

  /** How the walk ended: all callbacks returned, the task was cancelled (TERMINATE), or an IOException escaped. */
  datatype Outcome = Completed | Terminated | Failed(error: IOError)

  /** isCancelled() in the i-th callback. */
  predicate Cancelled(env: CopyEnv, i: int)
  {
    0 <= i < |env.cancel| && env.cancel[i]
  }

  /** targetDir.resolve(sourceDir.relativize(p)). */
  function Target(env: CopyEnv, p: Path): Path
    requires StartsWith(p, env.source)
  {
    Resolve(env.target, Relativize(env.source, p))
  }

  /** The entry a copy of `n` leaves: an empty directory, or the file's bytes. */
  function EntryOf(n: Node): Entry
  {
    if n.Dir? then DirEntry else FileEntry(n.bytes)
  }

  /** ++currentCounter followed by updateProgress(currentCounter, dirsCount + filesCount). */
  function Advance(s: CopyState, env: CopyEnv): CopyState
  {
    s.(counter := s.counter + 1, progress := s.progress + [ProgressUpdate(s.counter + 1, env.total)])
  }

  /**
   * The i-th callback of the copy visitor, on visit `v`: preVisitDirectory
   * for a directory, visitFile for a file. Success carries the next state and
   * means CONTINUE or SKIP_SUBTREE (the pruned walk already leaves out what a
   * skip leaves out); failure carries how the walk ends.
   */
  function Step(env: CopyEnv, i: int, v: Visit, s: CopyState): Result<CopyState, Outcome>
    requires StartsWith(v.path, env.source)
  {
    if Cancelled(env, i) then Failure(Terminated)
    else if v.path !in env.filtered then Success(s)
    else
      var t := Target(env, v.path);
      match v.node
      case Dir(_, _) =>
        // Files.copy(dir, target) without REPLACE_EXISTING
        if t in s.fs then
          if s.fs[t].DirEntry? then Success(s) else Failure(Failed(FileAlreadyExists(t)))
        else if !ParentIsDir(s.fs, t) then Failure(Failed(NoSuchFile(t)))
        else Success(Advance(s.(fs := s.fs[t := DirEntry], dirs := s.dirs + 1), env))
      case File(_, _, bytes) =>
        // Files.copy(file, target, REPLACE_EXISTING)
        if t in s.fs && s.fs[t].DirEntry? && HasEntries(s.fs, t) then Failure(Failed(DirectoryNotEmpty(t)))
        else if t !in s.fs && !ParentIsDir(s.fs, t) then Failure(Failed(NoSuchFile(t)))
        else Success(Advance(s.(fs := s.fs[t := FileEntry(bytes)], files := s.files + 1), env))
  }

  /** The callbacks from the i-th on: the final state and how the walk ended. */
  function CopyFrom(env: CopyEnv, vs: seq<Visit>, i: nat, s: CopyState): (CopyState, Outcome)
    requires i <= |vs| && AllUnder(vs, env.source)
    decreases |vs| - i
  {
    if i == |vs| then (s, Completed)
    else
      match Step(env, i, vs[i], s)
      case Failure(stop) => (s, stop)
      case Success(next) => CopyFrom(env, vs, i + 1, next)
  }

  /**
   * What the copy task leaves, given the filter settings in force: a filter
   * failure fails the task before anything is copied; otherwise the walk of
   * the source pruned at the filtered set, sized by the filtered directories
   * (less the source itself) and files, starting from zeroed counters.
   */
  function Routine(tree: Node, source: Path, target: Path, c: Criteria, fs0: FileSystem, cancel: seq<bool>): (CopyState, Outcome)
  {
    match Filtered(tree, source, c)
    case Failure(e) => (CopyState(fs0, 0, 0, 0, []), Failed(e))
    case Success(filtered) =>
      var walk := Walk(tree, source, None);
      var env := CopyEnv(source, target, filtered, DirsCount(filtered, walk) + FilesCount(filtered, walk), cancel);
      WalkUnder(tree, source, Some(filtered));
      CopyFrom(env, Walk(tree, source, Some(filtered)), 0, CopyState(fs0, 0, 0, 0, []))
  }

  /**
   * The task object of copyRoutine together with the dialog fields it reads
   * and updates.
   */
  class CopyDialog {
    var sourceDir: Path
    var targetDir: Option<Path>
    var fileFilters: FileFilters?
    var zipSelected: bool
    var copiedFilesCount: int
    var copiedDirsCount: int

    constructor (sourceDir: Path)
      ensures this.sourceDir == sourceDir && targetDir.None? && fileFilters == null
      ensures !zipSelected && copiedFilesCount == 0 && copiedDirsCount == 0
    {
      this.sourceDir := sourceDir;
      targetDir := None;
      fileFilters := null;
      zipSelected := false;
      copiedFilesCount := 0;
      copiedDirsCount := 0;
    }

    /**
     * applyFileFilters: the default filters when none were set, then the
     * filter pass over the source tree.
     */
    method ApplyFileFilters(selectedFiles: set<Path>, tree: Node, today: int)
      returns (r: Result<set<Path>, IOError>)
      requires WellFormed(tree)
      modifies this`fileFilters
      ensures fileFilters != null
      ensures old(fileFilters) != null ==> fileFilters == old(fileFilters)
      ensures old(fileFilters) == null ==> fresh(fileFilters) && fileFilters.IsDefault()
      ensures r == Filtered(tree, sourceDir, Criteria(selectedFiles, fileFilters.dateOpt, fileFilters.fileTypes, today))
    {
      if fileFilters == null {
        fileFilters := FileFilters.GetDefault();
      }
      r := Apply(sourceDir, tree, selectedFiles, fileFilters, today);
    }

    /**
     * The Files.walkFileTree call of the task: the visits of the source tree
     * pruned at the directories outside `filtered`, each handled as Step says.
     */
    method CopyFiles(tree: Node, filtered: set<Path>, total: int, fs0: FileSystem, cancel: seq<bool>)
      returns (fs: FileSystem, progress: seq<ProgressUpdate>, outcome: Outcome)
      requires targetDir.Some?
      modifies this`copiedDirsCount, this`copiedFilesCount
      ensures AllUnder(Walk(tree, sourceDir, Some(filtered)), sourceDir)
      ensures var env := CopyEnv(sourceDir, targetDir.value, filtered, total, cancel);
              var r := CopyFrom(env, Walk(tree, sourceDir, Some(filtered)), 0,
                                CopyState(fs0, old(copiedDirsCount), old(copiedFilesCount), 0, []));
              r.0.fs == fs && r.0.dirs == copiedDirsCount && r.0.files == copiedFilesCount &&
              r.0.progress == progress && r.1 == outcome
    {
      var vs := Walk(tree, sourceDir, Some(filtered));
      WalkUnder(tree, sourceDir, Some(filtered));
      ghost var env := CopyEnv(sourceDir, targetDir.value, filtered, total, cancel);
      ghost var s0 := CopyState(fs0, copiedDirsCount, copiedFilesCount, 0, []);
      var target := targetDir.value;
      var currentCounter := 0;
      fs, progress, outcome := fs0, [], Completed;
      var i := 0;
      while i < |vs|
        invariant 0 <= i <= |vs|
        invariant CopyFrom(env, vs, 0, s0) ==
                  CopyFrom(env, vs, i, CopyState(fs, copiedDirsCount, copiedFilesCount, currentCounter, progress))
      {
        var v := vs[i];
        if i < |cancel| && cancel[i] {
          outcome := Terminated;
          return;
        }
        if v.path in filtered {
          var t := target + v.path[|sourceDir|..];
          match v.node {
            case Dir(_, _) =>
              if t in fs {
                if !fs[t].DirEntry? {
                  outcome := Failed(FileAlreadyExists(t));
                  return;
                }
              } else if !ParentIsDir(fs, t) {
                outcome := Failed(NoSuchFile(t));
                return;
              } else {
                fs := fs[t := DirEntry];
                copiedDirsCount := copiedDirsCount + 1;
                currentCounter := currentCounter + 1;
                progress := progress + [ProgressUpdate(currentCounter, total)];
              }
            case File(_, _, bytes) =>
              if t in fs && fs[t].DirEntry? && HasEntries(fs, t) {
                outcome := Failed(DirectoryNotEmpty(t));
                return;
              } else if t !in fs && !ParentIsDir(fs, t) {
                outcome := Failed(NoSuchFile(t));
                return;
              }
              fs := fs[t := FileEntry(bytes)];
              copiedFilesCount := copiedFilesCount + 1;
              currentCounter := currentCounter + 1;
              progress := progress + [ProgressUpdate(currentCounter, total)];
          }
        }
        i := i + 1;
      }
    }

    /**
     * The body of the copy task: reset the counters, filter, size the work,
     * walk, then decide on the archive. The archive is built when the walk
     * ran to its end, the ZIP box is ticked and at least one file was copied;
     * after a cancellation the interrupted Thread.sleep ahead of the archive
     * throws, so no archive follows a cancelled walk.
     */
    method CopyRoutine(selectedFiles: set<Path>, tree: Node, fs0: FileSystem, cancel: seq<bool>, today: int)
      returns (fs: FileSystem, progress: seq<ProgressUpdate>, outcome: Outcome, zip: bool)
      requires WellFormed(tree) && targetDir.Some?
      modifies this`copiedDirsCount, this`copiedFilesCount, this`fileFilters
      ensures fileFilters != null
      ensures old(fileFilters) != null ==> fileFilters == old(fileFilters)
      ensures old(fileFilters) == null ==> fresh(fileFilters) && fileFilters.IsDefault()
      ensures var r := Routine(tree, sourceDir, targetDir.value,
                               Criteria(selectedFiles, fileFilters.dateOpt, fileFilters.fileTypes, today), fs0, cancel);
              r.0.fs == fs && r.0.dirs == copiedDirsCount && r.0.files == copiedFilesCount &&
              r.0.progress == progress && r.1 == outcome
      ensures zip <==> outcome == Completed && zipSelected && copiedFilesCount > 0
    {
      copiedFilesCount := 0;
      copiedDirsCount := 0;
      var filterResult := ApplyFileFilters(selectedFiles, tree, today);
      ghost var c := Criteria(selectedFiles, fileFilters.dateOpt, fileFilters.fileTypes, today);
      if filterResult.Failure? {
        return fs0, [], Failed(filterResult.error), false;
      }
      var filtered := filterResult.value;
      var source := Walk(tree, sourceDir, None);
      var dirsCount := DirsCount(filtered, source);
      var filesCount := FilesCount(filtered, source);
      fs, progress, outcome := CopyFiles(tree, filtered, dirsCount + filesCount, fs0, cancel);
      assert Routine(tree, sourceDir, targetDir.value, c, fs0, cancel) ==
             CopyFrom(CopyEnv(sourceDir, targetDir.value, filtered, dirsCount + filesCount, cancel),
                      Walk(tree, sourceDir, Some(filtered)), 0, CopyState(fs0, 0, 0, 0, []));
      assert c == Criteria(selectedFiles, fileFilters.dateOpt, fileFilters.fileTypes, today);
      zip := outcome == Completed && zipSelected && copiedFilesCount > 0;
    }
  }

  // ---------------------------------------------------------------------------
  // Properties of the copy walk

  /** currentCounter counts the copied entries, and each copy reports the next number. */
  predicate Consistent(s: CopyState, total: int)
  {
    s.counter == s.dirs + s.files && |s.progress| == s.counter &&
    forall k :: 0 <= k < |s.progress| ==> s.progress[k] == ProgressUpdate(k + 1, total)
  }

  lemma {:induction false} CopyFromConsistent(env: CopyEnv, vs: seq<Visit>, i: nat, s: CopyState)
    requires i <= |vs| && AllUnder(vs, env.source)
    requires Consistent(s, env.total)
    ensures Consistent(CopyFrom(env, vs, i, s).0, env.total)
    ensures CopyFrom(env, vs, i, s).0.dirs >= s.dirs && CopyFrom(env, vs, i, s).0.files >= s.files
    decreases |vs| - i
  {
    if i < |vs| {
      var st := Step(env, i, vs[i], s);
      if st.Success? {
        CopyFromConsistent(env, vs, i + 1, st.value);
      }
    }
  }

  /**
   * Once the task is found cancelled at callback `k`, nothing from callback
   * `k` on has any effect: the state is that of the walk cut before `k`, and
   * the walk ends terminated unless it had already failed.
   */
  lemma {:induction false} CancelStops(env: CopyEnv, vs: seq<Visit>, i: nat, s: CopyState, k: nat)
    requires i <= k < |vs| && AllUnder(vs, env.source)
    requires Cancelled(env, k)
    ensures AllUnder(vs[..k], env.source)
    ensures CopyFrom(env, vs, i, s).0 == CopyFrom(env, vs[..k], i, s).0
    ensures CopyFrom(env, vs, i, s).1 ==
            (if CopyFrom(env, vs[..k], i, s).1 == Completed then Terminated else CopyFrom(env, vs[..k], i, s).1)
    decreases k - i
  {
    assert forall v :: v in vs[..k] ==> v in vs;
    if i < k {
      assert vs[..k][i] == vs[i];
      var st := Step(env, i, vs[i], s);
      if st.Success? {
        CancelStops(env, vs, i + 1, st.value, k);
      }
    }
  }

  /** The paths of the callbacks from `i` on that lie in the filtered set, the source itself excepted. */
  function Countable(env: CopyEnv, vs: seq<Visit>, i: nat): set<Path>
    requires i <= |vs|
  {
    set j | i <= j < |vs| && vs[j].path in env.filtered && vs[j].path != env.source :: vs[j].path
  }

  lemma CountableStep(env: CopyEnv, vs: seq<Visit>, i: nat)
    requires i < |vs| && DistinctPaths(vs)
    ensures |Countable(env, vs, i)| ==
            |Countable(env, vs, i + 1)| + (if vs[i].path in env.filtered && vs[i].path != env.source then 1 else 0)
  {
    var c, c' := Countable(env, vs, i), Countable(env, vs, i + 1);
    assert vs[i].path !in c';
    if vs[i].path in env.filtered && vs[i].path != env.source {
      assert c == c' + {vs[i].path};
    } else {
      assert c == c';
    }
  }

  /** Each callback from `i` on copies at most one entry, and never the source itself. */
  lemma {:induction false} CopyFromCountBound(env: CopyEnv, vs: seq<Visit>, i: nat, s: CopyState)
    requires i <= |vs| && AllUnder(vs, env.source) && DistinctPaths(vs)
    requires forall j :: i <= j < |vs| ==> vs[j].path != env.source
    ensures CopyFrom(env, vs, i, s).0.counter <= s.counter + |Countable(env, vs, i)|
    decreases |vs| - i
  {
    if i < |vs| {
      CountableStep(env, vs, i);
      var st := Step(env, i, vs[i], s);
      if st.Success? {
        CopyFromCountBound(env, vs, i + 1, st.value);
      }
    }
  }

  /**
   * Every progress update of a copy run reports a counter within the work
   * total dirsCount + filesCount: the source directory maps onto the existing
   * target and is never counted, and no other path is copied twice.
   */
  lemma ProgressWithinTotal(env: CopyEnv, tree: Node, fs0: FileSystem)
    requires WellFormed(tree) && tree.Dir?
    requires IsDir(fs0, env.target)
    requires env.total == |env.filtered| - 1
    ensures AllUnder(Walk(tree, env.source, Some(env.filtered)), env.source)
    ensures forall u :: u in CopyFrom(env, Walk(tree, env.source, Some(env.filtered)), 0, CopyState(fs0, 0, 0, 0, [])).0.progress ==>
              0 < u.workDone <= u.max == env.total
  {
    var vs := Walk(tree, env.source, Some(env.filtered));
    var s0 := CopyState(fs0, 0, 0, 0, []);
    WalkUnder(tree, env.source, Some(env.filtered));
    WalkDistinct(tree, env.source, Some(env.filtered));
    CopyFromConsistent(env, vs, 0, s0);
    var r := CopyFrom(env, vs, 0, s0).0;
    var st := Step(env, 0, vs[0], s0);
    assert Target(env, env.source) == env.target;
    if st.Success? {
      assert st.value == s0;
      assert CopyFrom(env, vs, 0, s0) == CopyFrom(env, vs, 1, s0);
      CopyFromCountBound(env, vs, 1, s0);
      if env.source in env.filtered {
        assert Countable(env, vs, 1) <= env.filtered - {env.source};
        SubsetCardinality(Countable(env, vs, 1), env.filtered - {env.source});
        assert env.filtered == (env.filtered - {env.source}) + {env.source};
      } else {
        assert |vs| == 1;
        assert Countable(env, vs, 1) == {};
      }
      assert r.progress != [] ==> r.counter <= env.total;
    }
    forall u | u in r.progress ensures 0 < u.workDone <= u.max == env.total {
      var k :| 0 <= k < |r.progress| && r.progress[k] == u;
    }
  }

  lemma SubsetCardinality<T>(a: set<T>, b: set<T>)
    requires a <= b
    ensures |a| <= |b|
  {
    assert b == a + (b - a);
  }

  /**
   * Nothing in the target is removed, and every entry that changes is the
   * copy target targetDir.resolve(sourceDir.relativize(p)) of a filtered
   * path p among the callbacks from `i` on.
   */
  lemma {:induction false} CopyFromTargets(env: CopyEnv, vs: seq<Visit>, i: nat, s: CopyState)
    requires i <= |vs| && AllUnder(vs, env.source)
    ensures s.fs.Keys <= CopyFrom(env, vs, i, s).0.fs.Keys
    ensures forall t :: t in CopyFrom(env, vs, i, s).0.fs && (t !in s.fs || CopyFrom(env, vs, i, s).0.fs[t] != s.fs[t]) ==>
              exists j :: i <= j < |vs| && vs[j].path in env.filtered && t == Target(env, vs[j].path)
    decreases |vs| - i
  {
    if i < |vs| {
      var st := Step(env, i, vs[i], s);
      if st.Success? {
        CopyFromTargets(env, vs, i + 1, st.value);
      }
    }
  }

  /**
   * The copy walk writes only under the target, at the mirror images of
   * filtered paths whose enclosing directories all passed the filter.
   */
  lemma CopyWritesFilteredOnly(env: CopyEnv, tree: Node, s: CopyState, t: Path)
    requires AllUnder(Walk(tree, env.source, Some(env.filtered)), env.source)
    requires t in CopyFrom(env, Walk(tree, env.source, Some(env.filtered)), 0, s).0.fs
    requires t !in s.fs || CopyFrom(env, Walk(tree, env.source, Some(env.filtered)), 0, s).0.fs[t] != s.fs[t]
    ensures exists p :: p in env.filtered && StartsWith(p, env.source) && EnteredAll(p, env.source, env.filtered) &&
                        t == Target(env, p)
  {
    var vs := Walk(tree, env.source, Some(env.filtered));
    CopyFromTargets(env, vs, 0, s);
    var j :| 0 <= j < |vs| && vs[j].path in env.filtered && t == Target(env, vs[j].path);
    assert vs[j] in vs;
    WalkPruned(tree, env.source, env.filtered, vs[j]);
  }

  lemma TargetInjective(env: CopyEnv, p: Path, q: Path)
    requires StartsWith(p, env.source) && StartsWith(q, env.source)
    requires Target(env, p) == Target(env, q)
    ensures p == q
  {
    var rp, rq := Relativize(env.source, p), Relativize(env.source, q);
    assert rp == Target(env, p)[|env.target|..];
    assert rq == Target(env, q)[|env.target|..];
    RelativizeInjective(env.source, p, q);
  }

  lemma TargetParent(env: CopyEnv, p: Path)
    requires StrictlyBelow(p, env.source)
    ensures |Target(env, p)| > 0 && StartsWith(Parent(p), env.source)
    ensures Parent(Target(env, p)) == Target(env, Parent(p))
  {
  }

  /** A target entry the copy of `n` can land on: absent, or of the same kind. */
  predicate Compatible(fs: FileSystem, t: Path, n: Node)
  {
    t in fs ==> (n.Dir? <==> fs[t].DirEntry?)
  }

  /** The entries a completed copy leaves, one per filtered callback from `i` on. */
  function Copies(env: CopyEnv, vs: seq<Visit>, i: nat): map<Path, Entry>
    requires i <= |vs| && AllUnder(vs, env.source)
    decreases |vs| - i
  {
    if i == |vs| then map[]
    else
      var rest := Copies(env, vs, i + 1);
      if vs[i].path in env.filtered then map[Target(env, vs[i].path) := EntryOf(vs[i].node)] + rest else rest
  }

  lemma {:induction false} CopiesAt(env: CopyEnv, vs: seq<Visit>, i: nat, j: nat)
    requires i <= j < |vs| && AllUnder(vs, env.source) && DistinctPaths(vs)
    requires vs[j].path in env.filtered
    ensures Target(env, vs[j].path) in Copies(env, vs, i)
    ensures Copies(env, vs, i)[Target(env, vs[j].path)] == EntryOf(vs[j].node)
    decreases j - i
  {
    assert vs[i] in vs && vs[j] in vs;
    if i < j {
      CopiesAt(env, vs, i + 1, j);
      if vs[i].path in env.filtered && Target(env, vs[i].path) == Target(env, vs[j].path) {
        TargetInjective(env, vs[i].path, vs[j].path);
      }
    } else if Target(env, vs[j].path) in Copies(env, vs, j + 1) {
      CopiesKeys(env, vs, j + 1, Target(env, vs[j].path));
      var k :| j + 1 <= k < |vs| && vs[k].path in env.filtered && Target(env, vs[j].path) == Target(env, vs[k].path);
      assert vs[k] in vs;
      TargetInjective(env, vs[j].path, vs[k].path);
    }
  }

  lemma {:induction false} CopiesKeys(env: CopyEnv, vs: seq<Visit>, i: nat, t: Path)
    requires i <= |vs| && AllUnder(vs, env.source)
    requires t in Copies(env, vs, i)
    ensures exists j :: i <= j < |vs| && vs[j].path in env.filtered && t == Target(env, vs[j].path)
    decreases |vs| - i
  {
    if t !in Copies(env, vs, i + 1) {
      assert vs[i].path in env.filtered && t == Target(env, vs[i].path);
    } else {
      CopiesKeys(env, vs, i + 1, t);
    }
  }

  /** The conditions under which the callbacks from `i` on all succeed. */
  predicate CanComplete(env: CopyEnv, vs: seq<Visit>, i: nat, fs: FileSystem)
    requires i <= |vs| && AllUnder(vs, env.source)
  {
    // no cancellation is seen
    (forall j :: i <= j < |vs| ==> !Cancelled(env, j)) &&
    // the target directory is there when the source itself comes up
    (forall j :: i <= j < |vs| && vs[j].path == env.source ==> IsDir(fs, env.target)) &&
    // every filtered directory already walked has its copy in place
    (forall k :: 0 <= k < i && vs[k].node.Dir? && vs[k].path in env.filtered ==> IsDir(fs, Target(env, vs[k].path))) &&
    // nothing in the way of the copies still to come
    (forall j :: i <= j < |vs| && vs[j].path in env.filtered ==> Compatible(fs, Target(env, vs[j].path), vs[j].node))
  }

  /** The walk's order: distinct paths, and the directory of every later callback was entered before it. */
  predicate WalkShaped(env: CopyEnv, vs: seq<Visit>)
  {
    AllUnder(vs, env.source) && DistinctPaths(vs) &&
    forall j :: 0 <= j < |vs| && vs[j].path != env.source ==>
      StrictlyBelow(vs[j].path, env.source) &&
      exists k :: 0 <= k < j && ParentVisit(vs[k], vs[j], Some(env.filtered))
  }

  /** The copy target of the i-th callback, when it is filtered. */
  function NextFs(env: CopyEnv, vs: seq<Visit>, i: nat, fs: FileSystem): FileSystem
    requires i < |vs| && AllUnder(vs, env.source)
  {
    assert vs[i] in vs;
    if vs[i].path in env.filtered then fs[Target(env, vs[i].path) := EntryOf(vs[i].node)] else fs
  }

  /** A single callback under CanComplete succeeds and writes exactly its own copy. */
  lemma StepSucceeds(env: CopyEnv, vs: seq<Visit>, i: nat, s: CopyState)
    requires i < |vs| && WalkShaped(env, vs) && CanComplete(env, vs, i, s.fs)
    ensures Step(env, i, vs[i], s).Success?
    ensures Step(env, i, vs[i], s).value.fs == NextFs(env, vs, i, s.fs)
  {
    var v := vs[i];
    assert v in vs;
    if v.path in env.filtered {
      var t := Target(env, v.path);
      if v.path == env.source {
        assert t == env.target && IsDir(s.fs, t);
      } else if t !in s.fs {
        var k := ParentIndex(env, vs, i);
        TargetParent(env, v.path);
        assert IsDir(s.fs, Target(env, vs[k].path));
      }
      assert Compatible(s.fs, t, v.node);
    }
    StepWhenCompatible(env, i, v, s);
  }

  /** The index of the callback that entered the directory holding the j-th callback's path. */
  lemma ParentIndex(env: CopyEnv, vs: seq<Visit>, j: nat) returns (k: nat)
    requires j < |vs| && WalkShaped(env, vs) && vs[j].path != env.source
    ensures k < j && ParentVisit(vs[k], vs[j], Some(env.filtered))
    ensures StrictlyBelow(vs[j].path, env.source)
  {
    k :| 0 <= k < j && ParentVisit(vs[k], vs[j], Some(env.filtered));
  }

  /** A callback with no cancellation, nothing in the way and a parent in place succeeds with its copy. */
  lemma StepWhenCompatible(env: CopyEnv, i: nat, v: Visit, s: CopyState)
    requires StartsWith(v.path, env.source) && !Cancelled(env, i)
    requires v.path in env.filtered ==>
               Compatible(s.fs, Target(env, v.path), v.node) &&
               (Target(env, v.path) !in s.fs ==> ParentIsDir(s.fs, Target(env, v.path)))
    ensures Step(env, i, v, s).Success?
    ensures Step(env, i, v, s).value.fs ==
            if v.path in env.filtered then s.fs[Target(env, v.path) := EntryOf(v.node)] else s.fs
  {
    if v.path in env.filtered {
      var t := Target(env, v.path);
      if t in s.fs && v.node.Dir? {
        assert s.fs[t := DirEntry] == s.fs;
      }
    }
  }

  /** The other copy targets are not touched by the i-th callback. */
  lemma OtherTargetsDiffer(env: CopyEnv, vs: seq<Visit>, i: nat, j: nat)
    requires i < |vs| && j < |vs| && i != j && AllUnder(vs, env.source) && DistinctPaths(vs)
    ensures Target(env, vs[j].path) != Target(env, vs[i].path)
  {
    assert vs[i] in vs && vs[j] in vs;
    if Target(env, vs[j].path) == Target(env, vs[i].path) {
      TargetInjective(env, vs[j].path, vs[i].path);
    }
  }

  /** A successful callback keeps CanComplete for the callbacks after it. */
  lemma CanCompleteNext(env: CopyEnv, vs: seq<Visit>, i: nat, fs: FileSystem)
    requires i < |vs| && AllUnder(vs, env.source) && DistinctPaths(vs) && CanComplete(env, vs, i, fs)
    ensures CanComplete(env, vs, i + 1, NextFs(env, vs, i, fs))
  {
    var fs' := NextFs(env, vs, i, fs);
    assert vs[i] in vs;
    if vs[i].path in env.filtered {
      var t := Target(env, vs[i].path);
      forall j | i + 1 <= j < |vs| && vs[j].path == env.source ensures IsDir(fs', env.target) {
        assert Target(env, vs[j].path) == env.target;
        OtherTargetsDiffer(env, vs, i, j);
      }
      forall k | 0 <= k < i + 1 && vs[k].node.Dir? && vs[k].path in env.filtered
        ensures IsDir(fs', Target(env, vs[k].path))
      {
        if k < i {
          OtherTargetsDiffer(env, vs, i, k);
        }
      }
      forall j | i + 1 <= j < |vs| && vs[j].path in env.filtered
        ensures Compatible(fs', Target(env, vs[j].path), vs[j].node)
      {
        OtherTargetsDiffer(env, vs, i, j);
      }
    }
  }

  /**
   * Under CanComplete the callbacks from `i` on all succeed, and the target
   * ends up as it was with the copies of the filtered entries laid over it.
   */
  lemma {:induction false} CopyFromCompletes(env: CopyEnv, vs: seq<Visit>, i: nat, s: CopyState)
    requires i <= |vs| && WalkShaped(env, vs) && CanComplete(env, vs, i, s.fs)
    ensures CopyFrom(env, vs, i, s).1 == Completed
    ensures CopyFrom(env, vs, i, s).0.fs == s.fs + Copies(env, vs, i)
    decreases |vs| - i
  {
    if i < |vs| {
      var next := CompletesStep(env, vs, i, s);
      CopyFromCompletes(env, vs, i + 1, next);
      CopiesStep(env, vs, i, s.fs);
    }
  }

  /** Under CanComplete one callback succeeds, writes its own copy and keeps CanComplete. */
  lemma CompletesStep(env: CopyEnv, vs: seq<Visit>, i: nat, s: CopyState) returns (next: CopyState)
    requires i < |vs| && WalkShaped(env, vs) && CanComplete(env, vs, i, s.fs)
    ensures next.fs == NextFs(env, vs, i, s.fs)
    ensures CanComplete(env, vs, i + 1, next.fs)
    ensures CopyFrom(env, vs, i, s) == CopyFrom(env, vs, i + 1, next)
  {
    StepSucceeds(env, vs, i, s);
    CanCompleteNext(env, vs, i, s.fs);
    next := Step(env, i, vs[i], s).value;
    assert vs[i] in vs;
    CopyFromStep(env, vs, i, s);
  }

  /** Laying the i-th copy and then the later ones over `fs` lays all copies from `i` on. */
  lemma CopiesStep(env: CopyEnv, vs: seq<Visit>, i: nat, fs: FileSystem)
    requires i < |vs| && AllUnder(vs, env.source)
    ensures NextFs(env, vs, i, fs) + Copies(env, vs, i + 1) == fs + Copies(env, vs, i)
  {
    assert vs[i] in vs;
    if vs[i].path in env.filtered {
      MapOverride(fs, Target(env, vs[i].path), EntryOf(vs[i].node), Copies(env, vs, i + 1));
    }
  }

  lemma CopyFromStep(env: CopyEnv, vs: seq<Visit>, i: nat, s: CopyState)
    requires i < |vs| && AllUnder(vs, env.source)
    requires StartsWith(vs[i].path, env.source) && Step(env, i, vs[i], s).Success?
    ensures CopyFrom(env, vs, i, s) == CopyFrom(env, vs, i + 1, Step(env, i, vs[i], s).value)
  {
  }

  lemma MapOverride<K, V>(m: map<K, V>, k: K, v: V, c: map<K, V>)
    ensures m[k := v] + c == m + (map[k := v] + c)
  {
  }

  /** The pruned walk of a well-formed source tree has the walk's order. */
  lemma WalkIsShaped(env: CopyEnv, tree: Node)
    requires WellFormed(tree)
    ensures WalkShaped(env, Walk(tree, env.source, Some(env.filtered)))
  {
    var vs := Walk(tree, env.source, Some(env.filtered));
    WalkUnder(tree, env.source, Some(env.filtered));
    WalkDistinct(tree, env.source, Some(env.filtered));
    WalkParentFirst(tree, env.source, Some(env.filtered));
    forall j | 0 <= j < |vs| && vs[j].path != env.source
      ensures StrictlyBelow(vs[j].path, env.source) && exists k :: 0 <= k < j && ParentVisit(vs[k], vs[j], Some(env.filtered))
    {
      assert vs[j] in vs;
    }
  }

  /**
   * Copying into an existing, empty target directory, with no cancellation,
   * completes, and leaves the target holding exactly the copies: every
   * filtered directory as a directory and every filtered file with its bytes,
   * each at targetDir.resolve(sourceDir.relativize(p)).
   */
  lemma CopyIntoEmptyTarget(env: CopyEnv, tree: Node, fs0: FileSystem, dirs0: int, files0: int)
    requires WellFormed(tree) && tree.Dir?
    requires IsDir(fs0, env.target) && forall q :: q in fs0 ==> !StrictlyBelow(q, env.target)
    requires forall j :: 0 <= j < |Walk(tree, env.source, Some(env.filtered))| ==> !Cancelled(env, j)
    ensures AllUnder(Walk(tree, env.source, Some(env.filtered)), env.source)
    ensures var vs := Walk(tree, env.source, Some(env.filtered));
            var r := CopyFrom(env, vs, 0, CopyState(fs0, dirs0, files0, 0, []));
            r.1 == Completed && r.0.fs == fs0 + Copies(env, vs, 0)
  {
    var vs := Walk(tree, env.source, Some(env.filtered));
    WalkIsShaped(env, tree);
    forall j | 0 <= j < |vs| && vs[j].path in env.filtered
      ensures Compatible(fs0, Target(env, vs[j].path), vs[j].node)
    {
      if vs[j].path == env.source {
        assert vs[j] == vs[0];
        WalkUnder(tree, env.source, Some(env.filtered));
        assert Target(env, env.source) == env.target;
      } else {
        assert StrictlyBelow(Target(env, vs[j].path), env.target);
      }
    }
    CopyFromCompletes(env, vs, 0, CopyState(fs0, dirs0, files0, 0, []));
  }

  /**
   * With the filter's result as the filtered set, every filtered path has its
   * copy, holding the entry of the node found at that path.
   */
  lemma CopiesCoverFiltered(env: CopyEnv, tree: Node, c: Criteria, q: Path) returns (v: Visit)
    requires WellFormed(tree) && env.filtered == Kept(tree, env.source, c) && q in env.filtered
    ensures AllUnder(Walk(tree, env.source, Some(env.filtered)), env.source)
    ensures v.path == q && v in Walk(tree, env.source, None) && StartsWith(q, env.source)
    ensures var copies := Copies(env, Walk(tree, env.source, Some(env.filtered)), 0);
            Target(env, q) in copies && copies[Target(env, q)] == EntryOf(v.node)
  {
    var vs := Walk(tree, env.source, Some(env.filtered));
    WalkUnder(tree, env.source, Some(env.filtered));
    WalkDistinct(tree, env.source, Some(env.filtered));
    v := KeptReachedByFilteredWalk(tree, env.source, c, q);
    var j :| 0 <= j < |vs| && vs[j] == v;
    CopiesAt(env, vs, 0, j);
  }

  /**
   * The copy task from filter to target: when no file date is unreadable and
   * nothing is cancelled, copying into an existing empty target directory
   * completes, and below the target there is exactly one entry per filtered
   * path other than the source, at targetDir.resolve(sourceDir.relativize(q)),
   * holding a directory or the file's bytes as the source tree has them.
   */
  lemma RoutineCopiesFilteredTree(tree: Node, source: Path, target: Path, c: Criteria, fs0: FileSystem, cancel: seq<bool>)
    requires WellFormed(tree) && tree.Dir?
    requires IsDir(fs0, target) && forall t :: t in fs0 ==> !StrictlyBelow(t, target)
    requires FirstUnreadable(tree, source, c).None?
    requires forall j :: 0 <= j < |cancel| ==> !cancel[j]
    ensures Routine(tree, source, target, c, fs0, cancel).1 == Completed
    ensures forall t :: StrictlyBelow(t, target) ==>
              (t in Routine(tree, source, target, c, fs0, cancel).0.fs <==>
               exists q :: q in Kept(tree, source, c) && StartsWith(q, source) && q != source &&
                           t == Resolve(target, Relativize(source, q)))
    ensures forall q :: q in Kept(tree, source, c) ==>
              StartsWith(q, source) &&
              exists v :: v in Walk(tree, source, None) && v.path == q &&
                          Resolve(target, Relativize(source, q)) in Routine(tree, source, target, c, fs0, cancel).0.fs &&
                          Routine(tree, source, target, c, fs0, cancel).0.fs[Resolve(target, Relativize(source, q))] == EntryOf(v.node)
  {
    var filtered := Kept(tree, source, c);
    var walk := Walk(tree, source, None);
    var env := CopyEnv(source, target, filtered, DirsCount(filtered, walk) + FilesCount(filtered, walk), cancel);
    var vs := Walk(tree, source, Some(filtered));
    assert Filtered(tree, source, c) == Success(filtered);
    CopyIntoEmptyTarget(env, tree, fs0, 0, 0);
    var fs := fs0 + Copies(env, vs, 0);
    assert Routine(tree, source, target, c, fs0, cancel) == CopyFrom(env, vs, 0, CopyState(fs0, 0, 0, 0, []));
    assert Routine(tree, source, target, c, fs0, cancel).0.fs == fs;
    KeptUnder(tree, source, c);
    forall t | StrictlyBelow(t, target)
      ensures t in fs <==>
              exists q :: q in filtered && StartsWith(q, source) && q != source && t == Resolve(target, Relativize(source, q))
    {
      if t in fs {
        CopiesKeys(env, vs, 0, t);
        var j :| 0 <= j < |vs| && vs[j].path in filtered && t == Target(env, vs[j].path);
        assert vs[j].path != source;
      }
      if exists q :: q in filtered && StartsWith(q, source) && q != source && t == Resolve(target, Relativize(source, q)) {
        var q :| q in filtered && StartsWith(q, source) && q != source && t == Resolve(target, Relativize(source, q));
        var v := CopiesCoverFiltered(env, tree, c, q);
      }
    }
    forall q | q in filtered
      ensures exists v :: v in walk && v.path == q &&
                          Resolve(target, Relativize(source, q)) in fs &&
                          fs[Resolve(target, Relativize(source, q))] == EntryOf(v.node)
    {
      var v := CopiesCoverFiltered(env, tree, c, q);
      assert Resolve(target, Relativize(source, q)) == Target(env, q);
    }
  }

  /**
   * Running the copy again onto the result of a completed copy (with
   * REPLACE_EXISTING on files and tolerated existing directories) completes
   * and leaves the target as it was.
   */
  lemma CopyAgainChangesNothing(env: CopyEnv, tree: Node, fs0: FileSystem, s: CopyState)
    requires WellFormed(tree) && tree.Dir?
    requires IsDir(fs0, env.target)
    requires AllUnder(Walk(tree, env.source, Some(env.filtered)), env.source)
    requires forall j :: 0 <= j < |Walk(tree, env.source, Some(env.filtered))| ==> !Cancelled(env, j)
    requires s.fs == fs0 + Copies(env, Walk(tree, env.source, Some(env.filtered)), 0)
    ensures var r := CopyFrom(env, Walk(tree, env.source, Some(env.filtered)), 0, s);
            r.1 == Completed && r.0.fs == s.fs
  {
    var vs := Walk(tree, env.source, Some(env.filtered));
    WalkIsShaped(env, tree);
    CopiesCompatible(env, vs, fs0);
    CopiedTargetStaysDir(env, tree, fs0);
    CopyFromCompletes(env, vs, 0, s);
    OverrideTwice(fs0, Copies(env, vs, 0));
  }

  /** Every copy still to be made is compatible with a target that already holds all the copies. */
  lemma CopiesCompatible(env: CopyEnv, vs: seq<Visit>, fs0: FileSystem)
    requires AllUnder(vs, env.source) && DistinctPaths(vs)
    ensures forall j :: 0 <= j < |vs| && vs[j].path in env.filtered ==>
              Compatible(fs0 + Copies(env, vs, 0), Target(env, vs[j].path), vs[j].node)
  {
    forall j | 0 <= j < |vs| && vs[j].path in env.filtered
      ensures Compatible(fs0 + Copies(env, vs, 0), Target(env, vs[j].path), vs[j].node)
    {
      CopiesAt(env, vs, 0, j);
    }
  }

  /** The copies never put a file where the target directory is. */
  lemma CopiedTargetStaysDir(env: CopyEnv, tree: Node, fs0: FileSystem)
    requires WellFormed(tree) && tree.Dir? && IsDir(fs0, env.target)
    requires AllUnder(Walk(tree, env.source, Some(env.filtered)), env.source)
    ensures IsDir(fs0 + Copies(env, Walk(tree, env.source, Some(env.filtered)), 0), env.target)
  {
    var vs := Walk(tree, env.source, Some(env.filtered));
    var c := Copies(env, vs, 0);
    assert Target(env, env.source) == env.target;
    if env.target in c {
      CopiesKeys(env, vs, 0, env.target);
      var j :| 0 <= j < |vs| && vs[j].path in env.filtered && env.target == Target(env, vs[j].path);
      assert vs[j] in vs;
      TargetInjective(env, vs[j].path, env.source);
      WalkUnder(tree, env.source, Some(env.filtered));
      WalkDistinct(tree, env.source, Some(env.filtered));
      assert vs[j] == vs[0];
      CopiesAt(env, vs, 0, j);
    }
  }

  lemma OverrideTwice<K, V>(m: map<K, V>, c: map<K, V>)
    ensures (m + c) + c == m + c
  {
  }
}
