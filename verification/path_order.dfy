/** The order every listing is sorted by: `a.path.localeCompare(b.path)`. On
    paths, which are ASCII digits only, this is ordinal lexicographic order.
    Because segments have a fixed width, this order on paths is the pre-order
    depth-first order of the tree: a node comes right before its subtree. */
module PathOrder {
  import opened PathCodec

  /** `a` sorts before or together with `b`. */
  predicate LexLe(a: string, b: string)
    decreases |a|
  {
    |a| == 0 || (|b| > 0 && (a[0] < b[0] || (a[0] == b[0] && LexLe(a[1..], b[1..]))))
  }

  lemma {:induction false} LexLeReflexive(a: string)
    ensures LexLe(a, a)
    decreases |a|
  {
    if |a| > 0 {
      LexLeReflexive(a[1..]);
    }
  }

  lemma {:induction false} LexLeAntisymmetric(a: string, b: string)
    requires LexLe(a, b) && LexLe(b, a)
    ensures a == b
    decreases |a|
  {
    if |a| > 0 {
      LexLeAntisymmetric(a[1..], b[1..]);
      assert a == [a[0]] + a[1..] && b == [b[0]] + b[1..];
    }
  }

  lemma {:induction false} LexLeTransitive(a: string, b: string, c: string)
    requires LexLe(a, b) && LexLe(b, c)
    ensures LexLe(a, c)
    decreases |a|
  {
    if |a| > 0 && a[0] == b[0] && b[0] == c[0] {
      LexLeTransitive(a[1..], b[1..], c[1..]);
    }
  }

  lemma {:induction false} LexLeTotal(a: string, b: string)
    ensures LexLe(a, b) || LexLe(b, a)
    decreases |a|
  {
    if |a| > 0 && |b| > 0 && a[0] == b[0] {
      LexLeTotal(a[1..], b[1..]);
    }
  }

  /** An ancestor's path sorts before its descendants' paths. */
  lemma {:induction false} PrefixSortsFirst(a: string, b: string)
    requires IsPrefix(a, b)
    ensures LexLe(a, b)
    decreases |a|
  {
    if |a| > 0 {
      assert b[1..][..|a| - 1] == a[1..];
      PrefixSortsFirst(a[1..], b[1..]);
    }
  }

  /** Subtrees are contiguous in path order: whatever sorts between a path and
      one of its extensions extends that path too. */
  lemma {:induction false} BetweenPrefixAndExtension(p: string, r: string, q: string)
    requires IsPrefix(p, q) && LexLe(p, r) && LexLe(r, q)
    ensures IsPrefix(p, r)
    decreases |p|
  {
    if |p| > 0 {
      assert q[0] == p[0];
      assert q[1..][..|p| - 1] == p[1..];
      BetweenPrefixAndExtension(p[1..], r[1..], q[1..]);
      assert r[..|p|] == [r[0]] + r[1..][..|p| - 1];
    }
  }
}
