/**
 * java.nio.file.Path, reduced to what the core uses. An absolute path is the
 * list of its name components; the file-system root "/" is the empty list.
 */
module Paths {

  type Path = seq<string>

  /** Path.startsWith(base): component-wise prefix (a path starts with itself). */
  predicate StartsWith(p: Path, base: Path)
  {
    |base| <= |p| && p[..|base|] == base
  }

  /** `p` lies strictly beneath `dir`: the test of dirHasFiles, `!p.equals(dir) && p.startsWith(dir)`. */
  predicate StrictlyBelow(p: Path, dir: Path)
  {
    p != dir && StartsWith(p, dir)
  }

  /** base.relativize(p) for a `p` under `base`. */
  function Relativize(base: Path, p: Path): Path
    requires StartsWith(p, base)
  {
    p[|base|..]
  }

  /** base.resolve(rel) for a relative `rel`; resolving the empty path gives `base`. */
  function Resolve(base: Path, rel: Path): Path
  {
    base + rel
  }

  /** Path.getParent() of a path that has one. */
  function Parent(p: Path): Path
    requires |p| > 0
  {
    p[..|p| - 1]
  }

  lemma StartsWithTransitive(a: Path, b: Path, c: Path)
    requires StartsWith(a, b) && StartsWith(b, c)
    ensures StartsWith(a, c)
  {
    assert a[..|c|] == a[..|b|][..|c|];
  }

  /** Resolving a relativized path restores it. */
  lemma ResolveRelativize(base: Path, p: Path)
    requires StartsWith(p, base)
    ensures Resolve(base, Relativize(base, p)) == p
  {
    assert p == p[..|base|] + p[|base|..];
  }

  /** Two paths under `base` with the same relative path are the same path. */
  lemma RelativizeInjective(base: Path, p: Path, q: Path)
    requires StartsWith(p, base) && StartsWith(q, base)
    requires Relativize(base, p) == Relativize(base, q)
    ensures p == q
  {
    ResolveRelativize(base, p);
    ResolveRelativize(base, q);
  }
}
