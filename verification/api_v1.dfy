/** What version 1 of the query API (`src/api/v1/api.js`) adds to the shared
    query logic: a node's index among its siblings, a sibling test, and a
    `getSiblings` that can keep only the siblings on one side of the node. */
module ApiV1 {
  import opened PathCodec
  import opened PathOrder
  import opened Outcomes
  import opened Nodes
  import opened TreeShape
  import opened StoreApi

  /** `_getNodeIndex(node)`: the last segment of the path, parsed. Only
      well-formed paths are interpreted; any other path has no index and
      behaves like `NaN`, which fails every comparison. */
  function NodeIndex(n: Node): (r: Option<int>)
    ensures r.Some? <==> ValidPath(n.path)
    ensures r.Some? ==> 0 <= r.value <= 9999 && n.path == GetParentPath(n.path) + IndexToPath(r.value)
  {
    if ValidPath(n.path) then
      SlotOf(n.path);
      Some(GetPathIndex(n.path))
    else None
  }

  /** The node written into slot `i` under `parent` reports `i` as its index. */
  lemma NodeIndexOfSlot(n: Node, parent: Path, i: int)
    requires ValidPath(parent) && 0 <= i <= 9999
    requires n.path == CalcPathAppend(parent, IndexToPath(i))
    ensures NodeIndex(n) == Some(i)
  {
    AppendThenSplit(parent, i);
  }

  /** `_isSiblingOf(node1, node2)`: the two parent paths agree, `null` for
      both when both are roots. */
  function IsSiblingOf(a: Node, b: Node): (r: bool)
    ensures r ==> (IsRoot(a) <==> IsRoot(b))
    ensures IsRoot(a) && IsRoot(b) ==> r
    ensures r && !IsRoot(a) ==> GetParentPath(a.path) == GetParentPath(b.path)
    ensures !IsRoot(a) && !IsRoot(b) && GetParentPath(a.path) == GetParentPath(b.path) ==> r
  {
    ParentPathOf(a) == ParentPathOf(b)
  }

  /** Every node is its own sibling, and the relation is symmetric: with the
      identical `node` argument both `_isSiblingOf` calls answer alike. */
  lemma IsSiblingOfEquivalence(a: Node, b: Node, c: Node)
    ensures IsSiblingOf(a, a)
    ensures IsSiblingOf(a, b) <==> IsSiblingOf(b, a)
    ensures IsSiblingOf(a, b) && IsSiblingOf(b, c) ==> IsSiblingOf(a, c)
  {
  }

  /** Where stored depths agree with paths, two nodes are siblings exactly
      when they sit at the same depth under the same parent path. */
  lemma IsSiblingOfMatchesPaths(a: Node, b: Node)
    requires ValidPath(a.path) && a.depth == GetDepth(a.path)
    requires ValidPath(b.path) && b.depth == GetDepth(b.path)
    ensures IsSiblingOf(a, b) <==> |a.path| == |b.path| && GetParentPath(a.path) == GetParentPath(b.path)
  {
    assert a.depth * Width == |a.path| && b.depth * Width == |b.path|;
    if IsSiblingOf(a, b) && a.depth != 1 {
      assert |GetParentPath(a.path)| == |GetParentPath(b.path)|;
    }
  }

  /** `nodeIndex++` / `nodeIndex--` on a possibly `NaN` index. */
  function Bump(i: Option<int>, delta: int): (r: Option<int>)
    ensures r.Some? <==> i.Some?
    ensures r.Some? ==> r.value - delta == i.value
  {
    if i.Some? then Some(i.value + delta) else None
  }

  /** `a < b` on possibly `NaN` indices. */
  predicate Below(a: Option<int>, b: Option<int>)
  {
    a.Some? && b.Some? && a.value < b.value
  }

  /** Keeping the elements of a list sorted by path keeps it sorted. */
  lemma {:induction false} FilterKeepsSorted(s: seq<Node>, keep: Node -> bool)
    requires SortedByPath(s)
    ensures SortedByPath(Filter(s, keep))
  {
    if s != [] {
      assert s == [s[0]] + s[1..];
      var rest := Filter(s[1..], keep);
      TailSorted(s);
      FilterKeepsSorted(s[1..], keep);
      if keep(s[0]) {
        forall y | y in rest
          ensures LexLe(s[0].path, y.path)
        {
          HeadSortsFirst(s, y);
        }
        ConsKeepsSorted(s[0], rest);
      }
    }
  }

  /** `getSiblings(node, side, inclSelf)` of version 1: the siblings of the
      node, sorted by path; for `side` "left" only those whose index is below
      the node's (one more when `inclSelf`), for "right" only those whose
      index is above it (one less when `inclSelf`), for any other `side` all of
      them. */
  function GetSidedSiblings(nodes: seq<Node>, node: Node, side: string, inclSelf: bool): (r: seq<Node>)
    ensures SortedByPath(r)
    ensures side != "left" && side != "right" ==> r == GetSiblings(nodes, node)
    ensures side == "left" ==>
              forall x :: x in r <==> x in GetSiblings(nodes, node) && ValidPath(x.path) && ValidPath(node.path)
                                      && (GetPathIndex(x.path) < GetPathIndex(node.path)
                                          || (inclSelf && GetPathIndex(x.path) == GetPathIndex(node.path)))
    ensures side == "right" ==>
              forall x :: x in r <==> x in GetSiblings(nodes, node) && ValidPath(x.path) && ValidPath(node.path)
                                      && (GetPathIndex(x.path) > GetPathIndex(node.path)
                                          || (inclSelf && GetPathIndex(x.path) == GetPathIndex(node.path)))
  {
    var siblings := GetSiblings(nodes, node);
    var nodeIndex := NodeIndex(node);
    if side == "left" then
      var bound := if inclSelf then Bump(nodeIndex, 1) else nodeIndex;
      FilterKeepsSorted(siblings, (s: Node) => Below(NodeIndex(s), bound));
      Filter(siblings, (s: Node) => Below(NodeIndex(s), bound))
    else if side == "right" then
      var bound := if inclSelf then Bump(nodeIndex, -1) else nodeIndex;
      FilterKeepsSorted(siblings, (s: Node) => Below(bound, NodeIndex(s)));
      Filter(siblings, (s: Node) => Below(bound, NodeIndex(s)))
    else siblings
  }

  /** Without `inclSelf` a side never holds the node itself; with it, a node
      of the store with a well-formed path is on both sides. */
  lemma SidesAndSelf(nodes: seq<Node>, node: Node)
    ensures node !in GetSidedSiblings(nodes, node, "left", false)
    ensures node !in GetSidedSiblings(nodes, node, "right", false)
    ensures node in nodes && ValidPath(node.path) ==>
              node in GetSidedSiblings(nodes, node, "left", true) && node in GetSidedSiblings(nodes, node, "right", true)
  {
    QueriesNest(nodes, node);
  }

  /** Where stored depths agree with paths and no two records share a path,
      every sibling other than the node is on exactly one side, and the node
      is on neither: the left side, the node and the right side split the
      sibling list. */
  lemma SidesSplitSiblings(nodes: seq<Node>, node: Node, x: Node)
    requires DepthsAgree(nodes) && DistinctPaths(nodes) && node in nodes
    requires x in GetSiblings(nodes, node)
    ensures x == node <==> x !in GetSidedSiblings(nodes, node, "left", false)
                           && x !in GetSidedSiblings(nodes, node, "right", false)
    ensures !(x in GetSidedSiblings(nodes, node, "left", false) && x in GetSidedSiblings(nodes, node, "right", false))
  {
    var left := GetSidedSiblings(nodes, node, "left", false);
    var right := GetSidedSiblings(nodes, node, "right", false);
    assert x in nodes && x.depth == node.depth && ParentPathOf(x) == ParentPathOf(node);
    IsSiblingOfMatchesPaths(x, node);
    if GetPathIndex(x.path) == GetPathIndex(node.path) {
      SlotOf(x.path);
      SlotOf(node.path);
      RecordAtUnique(nodes, x);
      RecordAtUnique(nodes, node);
      assert x == node;
    }
  }

  /** `inclSelf` moves the node from outside both sides onto each of them and
      changes nothing else. */
  lemma InclSelfAddsOnlySelf(nodes: seq<Node>, node: Node, side: string, x: Node)
    requires DepthsAgree(nodes) && DistinctPaths(nodes) && node in nodes
    requires side == "left" || side == "right"
    ensures x in GetSidedSiblings(nodes, node, side, true) <==> x in GetSidedSiblings(nodes, node, side, false) || x == node
  {
    SidesAndSelf(nodes, node);
    if x in GetSiblings(nodes, node) {
      SidesSplitSiblings(nodes, node, x);
    }
  }
}
