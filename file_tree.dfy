/**
 * The file tree the core walks, and Files.walkFileTree's visiting order.
 *
 * A tree is a value: a regular file carries its name, its modification day
 * (None when the attribute cannot be read, where Java throws IOException)
 * and its bytes; a directory carries its name and its entries in listing
 * order. The path of an entry is its parent's path plus its name.
 */
module FileTree {
  import opened Wrappers
  import opened Paths

  newtype byte = x: int | 0 <= x < 256

  datatype Node =
    | File(name: string, mtimeDay: Option<int>, bytes: seq<byte>)
    | Dir(name: string, children: seq<Node>)

  /** The IOExceptions the core can meet, with the path they name. */
  datatype IOError =
    | AttributesUnreadable(path: Path)   // Files.getLastModifiedTime fails
    | FileAlreadyExists(path: Path)      // a non-directory is in the way of a directory
    | NoSuchFile(path: Path)             // the parent of a copy target does not exist
    | DirectoryNotEmpty(path: Path)      // REPLACE_EXISTING cannot replace a non-empty directory

  /** A directory never lists two entries with the same name. */
  predicate WellFormed(n: Node)
  {
    n.Dir? ==>
      (forall i, j :: 0 <= i < j < |n.children| ==> n.children[i].name != n.children[j].name) &&
      (forall i :: 0 <= i < |n.children| ==> WellFormed(n.children[i]))
  }

  /** One callback of the walk: preVisitDirectory for a directory, visitFile for a file. */
  datatype Visit = Visit(path: Path, node: Node)

  /**
   * The callbacks Files.walkFileTree makes, in order, when the tree `n` sits at
   * path `p`: depth first, a directory before its entries. With `Some(keep)`,
   * a directory outside `keep` is pre-visited and its subtree skipped, which is
   * what a visitor returning SKIP_SUBTREE for it obtains.
   */
  function Walk(n: Node, p: Path, prune: Option<set<Path>>): seq<Visit>
  {
    match n
    case File(_, _, _) => [Visit(p, n)]
    case Dir(_, cs) =>
      if prune.Some? && p !in prune.value then [Visit(p, n)]
      else [Visit(p, n)] + WalkChildren(cs, p, prune)
  }

  /** The walks of the entries `cs` of the directory at `p`, one after the other. */
  function WalkChildren(cs: seq<Node>, p: Path, prune: Option<set<Path>>): seq<Visit>
  {
    if cs == [] then []
    else WalkChildren(cs[..|cs| - 1], p, prune) + Walk(cs[|cs| - 1], p + [cs[|cs| - 1].name], prune)
  }

  /** The walk descends into the directory at `p`. */
  predicate Descends(n: Node, p: Path, prune: Option<set<Path>>)
  {
    n.Dir? && !(prune.Some? && p !in prune.value)
  }

  /** Every directory from `p` down to the parent of `q` is in `s`. */
  predicate EnteredAll(q: Path, p: Path, s: set<Path>)
  {
    forall k :: |p| <= k < |q| ==> q[..k] in s
  }

  /** Every visit of `vs` lies under `p`. */
  predicate AllUnder(vs: seq<Visit>, p: Path)
  {
    forall v :: v in vs ==> StartsWith(v.path, p)
  }

  predicate DistinctPaths(w: seq<Visit>)
  {
    forall i, j :: 0 <= i < j < |w| ==> w[i].path != w[j].path
  }

  /** `q` names a directory of the walked tree (Files.isDirectory on the source). */
  predicate IsDirectoryIn(w: seq<Visit>, q: Path)
  {
    exists v :: v in w && v.path == q && v.node.Dir?
  }

  lemma {:induction false} InWalkChildren(cs: seq<Node>, p: Path, prune: Option<set<Path>>, v: Visit)
    ensures v in WalkChildren(cs, p, prune) <==>
            exists k :: 0 <= k < |cs| && v in Walk(cs[k], p + [cs[k].name], prune)
  {
    if cs != [] {
      var init := cs[..|cs| - 1];
      InWalkChildren(init, p, prune, v);
      if v in WalkChildren(init, p, prune) {
        var k :| 0 <= k < |init| && v in Walk(init[k], p + [init[k].name], prune);
        assert init[k] == cs[k];
      }
      if exists k :: 0 <= k < |cs| && v in Walk(cs[k], p + [cs[k].name], prune) {
        var k :| 0 <= k < |cs| && v in Walk(cs[k], p + [cs[k].name], prune);
        if k < |cs| - 1 {
          assert init[k] == cs[k];
        }
      }
    }
  }

  lemma ChildStartsWith(q: Path, p: Path, name: string)
    requires StartsWith(q, p + [name])
    ensures StartsWith(q, p) && |q| > |p| && q[|p|] == name
  {
    assert q[..|p|] == q[..|p| + 1][..|p|];
  }

  /** Every visit lies under the start path, and only the first visit is the start path itself. */
  lemma {:induction false} WalkUnder(n: Node, p: Path, prune: Option<set<Path>>)
    ensures Walk(n, p, prune)[0] == Visit(p, n)
    ensures forall v :: v in Walk(n, p, prune) ==> StartsWith(v.path, p)
    ensures forall i :: 0 < i < |Walk(n, p, prune)| ==> |Walk(n, p, prune)[i].path| > |p|
    decreases n, 1
  {
    if Descends(n, p, prune) {
      WalkChildrenUnder(n.children, p, prune);
    }
  }

  lemma {:induction false} WalkChildrenUnder(cs: seq<Node>, p: Path, prune: Option<set<Path>>)
    ensures forall v :: v in WalkChildren(cs, p, prune) ==> StartsWith(v.path, p) && |v.path| > |p|
    ensures forall v :: v in WalkChildren(cs, p, prune) ==>
              exists k :: 0 <= k < |cs| && v.path[|p|] == cs[k].name
    decreases cs, 0
  {
    if cs != [] {
      var init, last := cs[..|cs| - 1], cs[|cs| - 1];
      WalkChildrenUnder(init, p, prune);
      WalkUnder(last, p + [last.name], prune);
      forall v | v in WalkChildren(cs, p, prune)
        ensures StartsWith(v.path, p) && |v.path| > |p|
        ensures exists k :: 0 <= k < |cs| && v.path[|p|] == cs[k].name
      {
        if v in WalkChildren(init, p, prune) {
          var k :| 0 <= k < |init| && v.path[|p|] == init[k].name;
          assert cs[k] == init[k];
        } else {
          ChildStartsWith(v.path, p, last.name);
        }
      }
    }
  }

  lemma DistinctConcat(a: seq<Visit>, b: seq<Visit>)
    requires DistinctPaths(a) && DistinctPaths(b)
    requires forall v, u :: v in a && u in b ==> v.path != u.path
    ensures DistinctPaths(a + b)
  {
    forall i, j | 0 <= i < j < |a + b| ensures (a + b)[i].path != (a + b)[j].path {
      if j >= |a| && i < |a| {
        assert (a + b)[i] in a && (a + b)[j] in b;
      }
    }
  }

  /** In a well-formed tree no path is visited twice. */
  lemma {:induction false} WalkDistinct(n: Node, p: Path, prune: Option<set<Path>>)
    requires WellFormed(n)
    ensures DistinctPaths(Walk(n, p, prune))
    decreases n, 1
  {
    if Descends(n, p, prune) {
      WalkChildrenDistinct(n.children, p, prune);
      WalkChildrenUnder(n.children, p, prune);
      DistinctConcat([Visit(p, n)], WalkChildren(n.children, p, prune));
    }
  }

  lemma {:induction false} WalkChildrenDistinct(cs: seq<Node>, p: Path, prune: Option<set<Path>>)
    requires forall i, j :: 0 <= i < j < |cs| ==> cs[i].name != cs[j].name
    requires forall i :: 0 <= i < |cs| ==> WellFormed(cs[i])
    ensures DistinctPaths(WalkChildren(cs, p, prune))
    decreases cs, 0
  {
    if cs != [] {
      var init, last := cs[..|cs| - 1], cs[|cs| - 1];
      WalkChildrenDistinct(init, p, prune);
      WalkDistinct(last, p + [last.name], prune);
      WalkChildrenUnder(init, p, prune);
      WalkUnder(last, p + [last.name], prune);
      forall v, u | v in WalkChildren(init, p, prune) && u in Walk(last, p + [last.name], prune)
        ensures v.path != u.path
      {
        var k :| 0 <= k < |init| && v.path[|p|] == init[k].name;
        ChildStartsWith(u.path, p, last.name);
        assert cs[k] == init[k];
      }
      DistinctConcat(WalkChildren(init, p, prune), Walk(last, p + [last.name], prune));
    }
  }

  /** Every directory strictly below `p` down to the parent of `q` is in `s`. */
  predicate EnteredBelow(q: Path, p: Path, s: set<Path>)
  {
    forall k :: |p| < k < |q| ==> q[..k] in s
  }

  /**
   * The pruned walk visits exactly the entries of the full walk whose
   * enclosing directories, from the start down, all belong to `s`.
   */
  lemma {:induction false} WalkPruned(n: Node, p: Path, s: set<Path>, v: Visit)
    ensures v in Walk(n, p, Some(s)) <==> v in Walk(n, p, None) && EnteredAll(v.path, p, s)
    decreases n, 1
  {
    WalkUnder(n, p, None);
    if n.Dir? && v != Visit(p, n) {
      var cs := n.children;
      WalkChildrenPruned(cs, p, s, v);
      if v in WalkChildren(cs, p, None) {
        WalkChildrenUnder(cs, p, None);
        assert |v.path| > |p| && v.path[..|p|] == p;
      }
    }
  }

  lemma {:induction false} WalkChildrenPruned(cs: seq<Node>, p: Path, s: set<Path>, v: Visit)
    ensures v in WalkChildren(cs, p, Some(s)) <==> v in WalkChildren(cs, p, None) && EnteredBelow(v.path, p, s)
    decreases cs, 0
  {
    if cs != [] {
      var init, last := cs[..|cs| - 1], cs[|cs| - 1];
      WalkChildrenPruned(init, p, s, v);
      WalkPruned(last, p + [last.name], s, v);
    }
  }

  /** `d` is a visit of the directory holding `v`, and the walk entered it. */
  predicate ParentVisit(d: Visit, v: Visit, prune: Option<set<Path>>)
  {
    |v.path| > 0 && d.path == Parent(v.path) && d.node.Dir? &&
    (prune.Some? ==> d.path in prune.value)
  }

  /** Every visit after the first comes after a visit of its parent directory. */
  predicate ParentsFirst(w: seq<Visit>, prune: Option<set<Path>>)
  {
    forall i :: 0 < i < |w| ==>
      |w[i].path| > 0 && exists j :: 0 <= j < i && ParentVisit(w[j], w[i], prune)
  }

  /** Every visit is a child of `p` or comes after a visit of its parent directory. */
  predicate ParentsFirstBelow(w: seq<Visit>, p: Path, prune: Option<set<Path>>)
  {
    forall i :: 0 <= i < |w| ==>
      |w[i].path| > 0 && (Parent(w[i].path) == p || exists j :: 0 <= j < i && ParentVisit(w[j], w[i], prune))
  }

  /** Putting the entered directory `d` before the walk of its children. */
  lemma ConsParentsFirst(d: Visit, wc: seq<Visit>, prune: Option<set<Path>>)
    requires d.node.Dir? && (prune.Some? ==> d.path in prune.value)
    requires ParentsFirstBelow(wc, d.path, prune)
    ensures ParentsFirst([d] + wc, prune)
  {
    var w := [d] + wc;
    forall i | 0 < i < |w|
      ensures |w[i].path| > 0 && exists j :: 0 <= j < i && ParentVisit(w[j], w[i], prune)
    {
      assert w[i] == wc[i - 1];
      if Parent(wc[i - 1].path) == d.path {
        assert ParentVisit(w[0], w[i], prune);
      } else {
        var j :| 0 <= j < i - 1 && ParentVisit(wc[j], wc[i - 1], prune);
        assert w[j + 1] == wc[j];
      }
    }
  }

  /** Appending the walk of one more child `p + [name]` to the walk of the earlier ones. */
  lemma AppendParentsFirst(a: seq<Visit>, b: seq<Visit>, p: Path, name: string, prune: Option<set<Path>>)
    requires ParentsFirstBelow(a, p, prune)
    requires |b| > 0 && b[0].path == p + [name] && ParentsFirst(b, prune)
    ensures ParentsFirstBelow(a + b, p, prune)
  {
    var ab := a + b;
    forall i | 0 <= i < |ab|
      ensures |ab[i].path| > 0 &&
              (Parent(ab[i].path) == p || exists j :: 0 <= j < i && ParentVisit(ab[j], ab[i], prune))
    {
      if i < |a| {
        assert ab[i] == a[i];
        if Parent(a[i].path) != p {
          var j :| 0 <= j < i && ParentVisit(a[j], a[i], prune);
          assert ab[j] == a[j];
        }
      } else if i == |a| {
        assert ab[i] == b[0];
        assert Parent(p + [name]) == p;
      } else {
        assert ab[i] == b[i - |a|];
        var j :| 0 <= j < i - |a| && ParentVisit(b[j], b[i - |a|], prune);
        assert ab[|a| + j] == b[j];
      }
    }
  }

  /**
   * Depth first: every visit after the first comes after a visit of its parent
   * directory, which the walk entered.
   */
  lemma {:induction false} WalkParentFirst(n: Node, p: Path, prune: Option<set<Path>>)
    ensures ParentsFirst(Walk(n, p, prune), prune)
    decreases n, 1
  {
    if Descends(n, p, prune) {
      WalkChildrenParentFirst(n.children, p, prune);
      ConsParentsFirst(Visit(p, n), WalkChildren(n.children, p, prune), prune);
      assert Walk(n, p, prune) == [Visit(p, n)] + WalkChildren(n.children, p, prune);
    } else {
      assert |Walk(n, p, prune)| == 1;
    }
  }

  lemma {:induction false} WalkChildrenParentFirst(cs: seq<Node>, p: Path, prune: Option<set<Path>>)
    ensures ParentsFirstBelow(WalkChildren(cs, p, prune), p, prune)
    decreases cs, 0
  {
    if cs != [] {
      var init, last := cs[..|cs| - 1], cs[|cs| - 1];
      var a, b := WalkChildren(init, p, prune), Walk(last, p + [last.name], prune);
      WalkChildrenParentFirst(init, p, prune);
      WalkParentFirst(last, p + [last.name], prune);
      WalkUnder(last, p + [last.name], prune);
      AppendParentsFirst(a, b, p, last.name, prune);
      assert WalkChildren(cs, p, prune) == a + b;
    } else {
      assert WalkChildren(cs, p, prune) == [];
    }
  }
}
