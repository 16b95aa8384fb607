/** The invariants a store of node records keeps between operations: every
    path well formed, no two records at one path, every non-root record's parent
    present, and (for the stores that keep it) a depth field that agrees with
    the path. */
module TreeShape {
  import opened JsText
  import opened PathCodec
  import opened Nodes
  import opened Outcomes

  predicate ValidStore(nodes: seq<Node>)
  {
    forall n :: n in nodes ==> ValidPath(n.path)
  }

  /** No two records share a path. */
  predicate DistinctPaths(nodes: seq<Node>)
  {
    forall i, j :: 0 <= i < |nodes| && 0 <= j < |nodes| && i != j ==> nodes[i].path != nodes[j].path
  }

  predicate HasPath(nodes: seq<Node>, p: Path)
  {
    exists n :: n in nodes && n.path == p
  }

  /** Every record below the top level has its parent in the store. */
  predicate ParentClosed(nodes: seq<Node>)
  {
    forall n :: n in nodes && |n.path| > Width ==> HasPath(nodes, GetParentPath(n.path))
  }

  /** The stored `depth` of every record is the number of segments of its path. */
  predicate DepthsAgree(nodes: seq<Node>)
  {
    forall n :: n in nodes ==> ValidPath(n.path) && n.depth == GetDepth(n.path)
  }

  /** The records directly under `parent` (the top-level records for an empty
      `parent`). */
  predicate IsSiblingUnder(n: Node, parent: Path)
  {
    |n.path| == |parent| + Width && IsPrefix(parent, n.path)
  }

  /** Every record directly under `parent` has an index below `bound`. */
  predicate SiblingIndicesBelow(nodes: seq<Node>, parent: Path, bound: int)
  {
    forall n :: n in nodes && IsSiblingUnder(n, parent) && ValidPath(n.path) ==> GetPathIndex(n.path) < bound
  }

  lemma AlignedGap(a: int, b: int)
    requires a % Width == 0 && b % Width == 0 && a < b
    ensures a <= b - Width
  {
    assert a == Width * (a / Width) && b == Width * (b / Width);
  }

  lemma AlignedNext(a: int)
    requires a % Width == 0
    ensures (a + Width) % Width == 0
  {
  }

  /** In a parent-closed store every ancestor path of a record, down to the
      top level, belongs to a record. */
  lemma {:induction false} AncestorExists(nodes: seq<Node>, x: Node, len: int)
    requires ValidStore(nodes) && ParentClosed(nodes)
    requires x in nodes && Width <= len <= |x.path| && len % Width == 0
    ensures HasPath(nodes, x.path[..len])
    decreases |x.path| - len
  {
    if len == |x.path| {
      assert x.path[..len] == x.path;
    } else {
      assert |x.path| > Width;
      assert HasPath(nodes, GetParentPath(x.path));
      var p :| p in nodes && p.path == GetParentPath(x.path);
      assert p.path == x.path[..|x.path| - Width];
      AlignedGap(len, |x.path|);
      assert p.path[..len] == x.path[..len];
      AncestorExists(nodes, p, len);
    }
  }

  lemma {:induction false} FilterKeepsDistinctPaths(s: seq<Node>, keep: Node -> bool)
    requires DistinctPaths(s)
    ensures DistinctPaths(Filter(s, keep))
  {
    if s != [] {
      assert DistinctPaths(s[1..]);
      FilterKeepsDistinctPaths(s[1..], keep);
      var rest := Filter(s[1..], keep);
      if keep(s[0]) {
        forall x | x in rest
          ensures x.path != s[0].path
        {
          var j :| 0 <= j < |s[1..]| && s[1..][j] == x;
          assert s[j + 1] == x;
        }
        ConsKeepsDistinctPaths(s[0], rest);
        assert Filter(s, keep) == [s[0]] + rest;
      }
    }
  }

  lemma ConsKeepsDistinctPaths(x: Node, rest: seq<Node>)
    requires DistinctPaths(rest)
    requires forall y :: y in rest ==> y.path != x.path
    ensures DistinctPaths([x] + rest)
  {
    var s := [x] + rest;
    forall i, j | 0 <= i < |s| && 0 <= j < |s| && i != j
      ensures s[i].path != s[j].path
    {
      if i > 0 && j > 0 {
        assert s[i] == rest[i - 1] && s[j] == rest[j - 1];
      } else if i == 0 {
        assert s[j] in rest;
      } else {
        assert s[i] in rest;
      }
    }
  }

  /** A list without two records at one path holds each record at most once. */
  lemma {:induction false} DistinctPathsCountOnce(s: seq<Node>, x: Node)
    requires DistinctPaths(s)
    ensures multiset(s)[x] <= 1
  {
    if s != [] {
      assert s == [s[0]] + s[1..];
      assert DistinctPaths(s[1..]);
      DistinctPathsCountOnce(s[1..], x);
      if x == s[0] {
        forall k | 0 <= k < |s[1..]|
          ensures s[1..][k] != x
        {
          assert s[1..][k] == s[k + 1];
        }
        assert x !in s[1..];
      }
    }
  }

  /** Two lists without a path in common, each without two records at one
      path, joined have no two records at one path. */
  lemma ConcatKeepsDistinctPaths(a: seq<Node>, b: seq<Node>)
    requires DistinctPaths(a) && DistinctPaths(b)
    requires forall x, y :: x in a && y in b ==> x.path != y.path
    ensures DistinctPaths(a + b)
  {
    var s := a + b;
    forall i, j | 0 <= i < |s| && 0 <= j < |s| && i != j
      ensures s[i].path != s[j].path
    {
      if i < |a| && j < |a| {
        assert s[i] == a[i] && s[j] == a[j];
      } else if i >= |a| && j >= |a| {
        assert s[i] == b[i - |a|] && s[j] == b[j - |a|];
      } else if i < |a| {
        assert s[i] in a && s[j] in b;
      } else {
        assert s[j] in a && s[i] in b;
      }
    }
  }

  /** A record at a path nobody holds can join the store. */
  lemma AppendKeepsDistinctPaths(s: seq<Node>, x: Node)
    requires DistinctPaths(s) && !HasPath(s, x.path)
    ensures DistinctPaths(s + [x])
  {
    var t := s + [x];
    forall i, j | 0 <= i < |t| && 0 <= j < |t| && i != j
      ensures t[i].path != t[j].path
    {
      if i < |s| && j < |s| {
        assert t[i] == s[i] && t[j] == s[j];
      } else if i < |s| {
        assert t[i] in s;
      } else {
        assert t[j] in s;
      }
    }
  }

  /** A well-formed record whose parent is present can join the store. */
  lemma AppendKeepsParentClosed(s: seq<Node>, x: Node)
    requires ValidStore(s) && ParentClosed(s) && ValidPath(x.path)
    requires |x.path| > Width ==> HasPath(s, GetParentPath(x.path))
    ensures ValidStore(s + [x]) && ParentClosed(s + [x])
  {
    var t := s + [x];
    forall n | n in t && |n.path| > Width
      ensures HasPath(t, GetParentPath(n.path))
    {
      var m :| m in s && m.path == GetParentPath(n.path);
      assert m in t;
    }
  }

  /** `orderByChild("path").equalTo(p).once("child_added")`: the first record
      found at path `p`. */
  function RecordAt(nodes: seq<Node>, p: Path): (r: Option<Node>)
    ensures r.None? <==> !HasPath(nodes, p)
    ensures r.Some? ==> r.value in nodes && r.value.path == p
  {
    FindFirst(nodes, (n: Node) => n.path == p)
  }

  /** With one record per path, the record found at a path is the one there. */
  lemma RecordAtUnique(nodes: seq<Node>, q: Node)
    requires DistinctPaths(nodes) && q in nodes
    ensures RecordAt(nodes, q.path) == Some(q)
  {
    var f := RecordAt(nodes, q.path).value;
    var i :| 0 <= i < |nodes| && nodes[i] == q;
    var j :| 0 <= j < |nodes| && nodes[j] == f;
    assert nodes[i].path == nodes[j].path;
  }
}
