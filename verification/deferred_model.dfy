/** The deferred model of `src/assets/js/model-deferred.js`. It keeps no list:
    every query reads the store through a range query ordered by path and
    resolves with what it found. Its records carry `depth` and `numChild`, and
    the mutations write both. As in the cached model, every write is computed
    from the store as it was when the call began. */
module DeferredModel {
  import opened JsText
  import opened PathCodec
  import opened PathOrder
  import opened Outcomes
  import opened Nodes
  import opened TreeShape
  import opened StoreEdit

  /** The error `addSibling` throws for a position other than "left" or "right". */
  datatype ModelError = InvalidSiblingPosition

  /** `orderByChild("path").startAt(from)`: the records whose path sorts at or
      after `from`. */
  function StartAt(nodes: seq<Node>, from: Path): (r: seq<Node>)
    ensures forall x :: x in r <==> x in nodes && LexLe(from, x.path)
  {
    Filter(nodes, (n: Node) => LexLe(from, n.path))
  }

  // ---------------------------------------------------------------------------
  // Reading by key and listing the tree
  // ---------------------------------------------------------------------------

  /** `getNodeById(id)`: the record stored under the key, without the key. When
      no record has the key the `child_added` listener never fires and the
      promise never settles, which the model writes as `None`. */
  function GetNodeById(nodes: seq<Node>, id: Id): (r: Option<Record>)
    ensures r.None? <==> id !in Ids(nodes)
    ensures r.Some? ==> WithId(id, r.value) in nodes
  {
    var f := FindFirst(nodes, (n: Node) => n.id == id);
    if f.Some? then
      assert WithId(id, RecordOf(f.value)) == f.value;
      Some(RecordOf(f.value))
    else
      assert forall x :: x in nodes ==> x.id != id;
      None
  }

  /** With one record per key, reading a record's key gives that record back. */
  lemma GetNodeByIdFindsRecord(nodes: seq<Node>, n: Node)
    requires DistinctIds(nodes) && n in nodes
    ensures GetNodeById(nodes, n.id) == Some(RecordOf(n))
  {
    var r := GetNodeById(nodes, n.id);
    assert n.id in Ids(nodes);
    var i :| 0 <= i < |nodes| && nodes[i] == WithId(n.id, r.value);
    var j :| 0 <= j < |nodes| && nodes[j] == n;
    SameIdSameIndex(nodes, i, j);
  }

  /** A list with one record per key counts each element once. */
  lemma {:induction false} DistinctIdsCountOnce(s: seq<Node>, x: Node)
    requires DistinctIds(s)
    ensures multiset(s)[x] <= 1
  {
    if s != [] {
      assert s == [s[0]] + s[1..];
      assert DistinctIds(s[1..]) by {
        forall i, j | 0 <= i < j < |s[1..]|
          ensures s[1..][i].id != s[1..][j].id
        {
          assert s[1..][i] == s[i + 1] && s[1..][j] == s[j + 1];
        }
      }
      DistinctIdsCountOnce(s[1..], x);
      if x == s[0] {
        forall k | 0 <= k < |s[1..]|
          ensures s[1..][k] != x
        {
          assert s[1..][k] == s[k + 1];
        }
        assert x !in s[1..];
      }
    }
  }

  /** An element at two indices is counted twice. */
  lemma CountedTwice(s: seq<Node>, i: int, j: int)
    requires 0 <= i < j < |s| && s[i] == s[j]
    ensures multiset(s)[s[i]] >= 2
  {
    assert s == s[..j] + s[j..];
    assert s[i] in s[..j] && s[j] in s[j..];
    assert multiset(s) == multiset(s[..j]) + multiset(s[j..]);
  }

  /** A reordering of a list with one record per key has one record per key. */
  lemma PermutationKeepsDistinctIds(a: seq<Node>, b: seq<Node>)
    requires multiset(a) == multiset(b) && DistinctIds(a)
    ensures DistinctIds(b)
  {
    forall i, j | 0 <= i < j < |b|
      ensures b[i].id != b[j].id
    {
      if b[i] == b[j] {
        CountedTwice(b, i, j);
        DistinctIdsCountOnce(a, b[i]);
      } else {
        assert b[i] in multiset(a) && b[j] in multiset(a);
        var k :| 0 <= k < |a| && a[k] == b[i];
        var l :| 0 <= l < |a| && a[l] == b[j];
        assert k != l;
        assert k < l ==> a[k].id != a[l].id;
        assert l < k ==> a[l].id != a[k].id;
      }
    }
  }

  /** `getTree()`: one node per key of the store, each carrying its key, sorted
      by path. An empty store answers the query with `null` (the empty map
      here), which `parse` hands to `Object.keys` without a guard: the callback
      throws and the promise never settles, written `None`. */
  method GetTree(snapshot: Snapshot) returns (tree: Option<seq<Node>>)
    ensures tree.None? <==> |snapshot| == 0
    ensures tree.Some? ==> SortedByPath(tree.value)
    ensures tree.Some? ==> |tree.value| == |snapshot| && Ids(tree.value) == snapshot.Keys && DistinctIds(tree.value)
    ensures tree.Some? ==> forall n :: n in tree.value ==> n.id in snapshot && snapshot[n.id] == RecordOf(n)
  {
    if |snapshot| == 0 {
      return None;
    }
    var parsed := Parse(snapshot);
    var sorted := SortByPath(parsed);
    SortKeepsMembers(parsed);
    assert |sorted| == |multiset(sorted)| == |multiset(parsed)| == |parsed|;
    PermutationKeepsDistinctIds(parsed, sorted);
    tree := Some(sorted);
  }

  /** A subtree is a contiguous run of the sorted tree: whatever lies between
      two records of the subtree under `p` belongs to it too. */
  lemma SubtreeIsContiguous(tree: seq<Node>, p: Path, i: int, j: int, k: int)
    requires SortedByPath(tree) && 0 <= i <= j <= k < |tree|
    requires IsPrefix(p, tree[i].path) && IsPrefix(p, tree[k].path)
    ensures IsPrefix(p, tree[j].path)
  {
    PrefixSortsFirst(p, tree[i].path);
    if i < j {
      LexLeTransitive(p, tree[i].path, tree[j].path);
    }
    if j < k {
      BetweenPrefixAndExtension(p, tree[j].path, tree[k].path);
    } else {
      assert tree[j] == tree[k];
    }
  }

  // ---------------------------------------------------------------------------
  // Queries
  // ---------------------------------------------------------------------------

  /** `getChildren(node)` as written: the records one level deeper than the node
      among those sorting at or after it, in path order. Nothing ties them to
      the node itself. */
  function GetChildrenAsWritten(nodes: seq<Node>, node: Node): (r: seq<Node>)
    ensures SortedByPath(r)
    ensures forall x :: x in r <==> x in nodes && LexLe(node.path, x.path) && x.depth == node.depth + 1
  {
    var found := Filter(StartAt(nodes, node.path), (n: Node) => n.depth == node.depth + 1);
    SortKeepsMembers(found);
    SortByPath(found)
  }

  /** A record's parent path sorts at or before it. */
  lemma ParentSortsFirst(nodes: seq<Node>, p: Path)
    ensures forall x :: x in nodes && GetParentPath(x.path) == p ==> LexLe(p, x.path)
  {
    forall x | x in nodes && GetParentPath(x.path) == p
      ensures LexLe(p, x.path)
    {
      PrefixSortsFirst(p, x.path);
    }
  }

  /** The children `getChildren` is meant to list: the records one level deeper
      whose parent path is the node's, the test the commented-out `dfs` applies. */
  function GetChildren(nodes: seq<Node>, node: Node): (r: seq<Node>)
    ensures SortedByPath(r)
    ensures forall x :: x in r <==> x in nodes && x.depth == node.depth + 1 && GetParentPath(x.path) == node.path
  {
    var found := Filter(StartAt(nodes, node.path), (n: Node) => n.depth == node.depth + 1 && GetParentPath(n.path) == node.path);
    ParentSortsFirst(nodes, node.path);
    SortKeepsMembers(found);
    SortByPath(found)
  }

  /** Where depths agree with paths, the depth test is implied by the parent
      test: the children are exactly the records whose parent path is the node's. */
  lemma ChildrenByParentPath(nodes: seq<Node>, node: Node)
    requires DepthsAgree(nodes) && ValidPath(node.path) && node.depth == GetDepth(node.path)
    ensures forall x :: x in GetChildren(nodes, node) <==> x in nodes && GetParentPath(x.path) == node.path
  {
    forall x | x in nodes && GetParentPath(x.path) == node.path
      ensures x.depth == node.depth + 1
    {
      assert |x.path| == |node.path| + Width;
      assert x.depth * Width == |node.path| + Width == (node.depth + 1) * Width;
    }
  }

  /** Every true child is listed by `getChildren` as written. */
  lemma AsWrittenListsEveryChild(nodes: seq<Node>, node: Node)
    ensures forall x :: x in GetChildren(nodes, node) ==> x in GetChildrenAsWritten(nodes, node)
  {
    ParentSortsFirst(nodes, node.path);
  }

  /** Two top-level records "0001" and "0002", and "00020001" under the second. */
  function NephewStore(d: Payload): (nodes: seq<Node>)
    ensures |nodes| == 3
    ensures ValidStore(nodes) && DistinctPaths(nodes) && ParentClosed(nodes) && DepthsAgree(nodes)
  {
    var nodes := [Node("a", "0001", 1, 0, d), Node("b", "0002", 1, 1, d), Node("c", "00020001", 2, 0, d)];
    assert GetParentPath("00020001") == "0002";
    assert nodes[1] in nodes;
    nodes
  }

  /** `getChildren` as written lists a later sibling's child among the node's
      own: in `NephewStore`, record "00020001" is reported as a child of "0001". */
  lemma AsWrittenListsNephew(d: Payload)
    ensures var nodes := NephewStore(d);
            nodes[2] in GetChildrenAsWritten(nodes, nodes[0])
            && GetParentPath(nodes[2].path) != nodes[0].path
            && nodes[2] !in GetChildren(nodes, nodes[0])
  {
    var nodes := NephewStore(d);
    assert LexLe("0001", "00020001");
    assert GetParentPath("00020001") == "0002";
  }

  /** `getDescendants(node)`: the records strictly below the node, in path order.
      The range query drops nothing, since a descendant sorts after the node. */
  function GetDescendants(nodes: seq<Node>, node: Node): (r: seq<Node>)
    ensures SortedByPath(r)
    ensures forall x :: x in r <==> x in nodes && IsDescendantPath(x.path, node.path)
  {
    var found := Filter(StartAt(nodes, node.path), (n: Node) => IsDescendantPath(n.path, node.path));
    forall x | x in nodes && IsDescendantPath(x.path, node.path)
      ensures LexLe(node.path, x.path)
    {
      PrefixSortsFirst(node.path, x.path);
    }
    SortKeepsMembers(found);
    SortByPath(found)
  }

  /** Children are descendants, and a descendant's descendants are the node's
      own; the node is never among them. */
  lemma DescendantsNest(nodes: seq<Node>, node: Node, x: Node)
    requires ValidStore(nodes)
    ensures GetChildren(nodes, node) == [] || forall c :: c in GetChildren(nodes, node) ==> c in GetDescendants(nodes, node)
    ensures x in GetDescendants(nodes, node) ==>
              forall y :: y in GetDescendants(nodes, x) ==> y in GetDescendants(nodes, node)
    ensures node !in GetDescendants(nodes, node)
  {
    forall c | c in GetChildren(nodes, node)
      ensures c in GetDescendants(nodes, node)
    {
      assert ValidPath(c.path);
    }
    if x in GetDescendants(nodes, node) {
      forall y | y in GetDescendants(nodes, x)
        ensures y in GetDescendants(nodes, node)
      {
        DescendantTransitive(y.path, x.path, node.path);
      }
    }
    DescendantIrreflexive(node.path);
  }

  /** `getParent(node)`: the record at the node's parent path. A top-level node
      has none; the listener never fires and the promise never settles, `None`. */
  function GetParent(nodes: seq<Node>, node: Node): (r: Option<Record>)
    ensures r.None? <==> !HasPath(nodes, GetParentPath(node.path))
    ensures r.Some? ==> exists n :: n in nodes && n.path == GetParentPath(node.path) && RecordOf(n) == r.value
  {
    var f := RecordAt(nodes, GetParentPath(node.path));
    if f.Some? then Some(RecordOf(f.value)) else None
  }

  /** The parent a child reports is the record it is listed under, and a
      top-level record has none. */
  lemma ParentOfChild(nodes: seq<Node>, p: Node, c: Node)
    requires ValidStore(nodes) && DistinctPaths(nodes) && p in nodes
    ensures c in GetChildren(nodes, p) ==> GetParent(nodes, c) == Some(RecordOf(p))
    ensures |c.path| == Width ==> GetParent(nodes, c) == None
  {
    RecordAtUnique(nodes, p);
    if |c.path| == Width {
      assert GetParentPath(c.path) == [];
      assert forall n :: n in nodes ==> |n.path| >= Width;
    }
  }

  /** `getSiblings(node)`: the records sharing the node's parent path, the node
      included, in path order. The range starts at the parent path, which sorts
      before all of them. */
  function GetSiblings(nodes: seq<Node>, node: Node): (r: seq<Node>)
    ensures SortedByPath(r)
    ensures forall x :: x in r <==> x in nodes && GetParentPath(x.path) == GetParentPath(node.path)
  {
    var parent := GetParentPath(node.path);
    var found := Filter(StartAt(nodes, parent), (n: Node) => GetParentPath(n.path) == parent);
    ParentSortsFirst(nodes, parent);
    SortKeepsMembers(found);
    SortByPath(found)
  }

  /** A node's siblings are its parent's children, itself among them. */
  lemma SiblingsAreParentsChildren(nodes: seq<Node>, p: Node, c: Node)
    requires DepthsAgree(nodes) && ValidPath(p.path) && p.depth == GetDepth(p.path)
    requires c in GetChildren(nodes, p)
    ensures forall x :: x in GetSiblings(nodes, c) <==> x in GetChildren(nodes, p)
    ensures c in GetSiblings(nodes, c)
  {
    ChildrenByParentPath(nodes, p);
  }

  // ---------------------------------------------------------------------------
  // Child counts
  // ---------------------------------------------------------------------------

  /** The number of records directly under `parent`: what a record's `numChild`
      is meant to hold. */
  function ChildCount(nodes: seq<Node>, parent: Path): (c: nat)
    ensures c <= |nodes|
  {
    if nodes == [] then 0
    else (if GetParentPath(nodes[|nodes| - 1].path) == parent then 1 else 0) + ChildCount(nodes[..|nodes| - 1], parent)
  }

  /** Every record's `numChild` is its number of children. */
  predicate CountsChildren(nodes: seq<Node>)
  {
    forall i :: 0 <= i < |nodes| ==> nodes[i].numChild == ChildCount(nodes, nodes[i].path)
  }

  /** Lists with the same paths at every index count the same children. */
  lemma {:induction false} ChildCountSamePaths(a: seq<Node>, b: seq<Node>, parent: Path)
    requires |a| == |b| && forall i :: 0 <= i < |a| ==> a[i].path == b[i].path
    ensures ChildCount(a, parent) == ChildCount(b, parent)
  {
    if a != [] {
      ChildCountSamePaths(a[..|a| - 1], b[..|b| - 1], parent);
    }
  }

  lemma ChildCountAppend(s: seq<Node>, x: Node, parent: Path)
    ensures ChildCount(s + [x], parent) == ChildCount(s, parent) + if GetParentPath(x.path) == parent then 1 else 0
  {
    assert (s + [x])[..|s|] == s;
  }

  /** With nothing under `parent`, the count is zero. */
  lemma {:induction false} ChildCountNone(s: seq<Node>, parent: Path)
    requires forall x :: x in s ==> GetParentPath(x.path) != parent
    ensures ChildCount(s, parent) == 0
  {
    if s != [] {
      assert s[|s| - 1] in s;
      assert forall x :: x in s[..|s| - 1] ==> x in s;
      ChildCountNone(s[..|s| - 1], parent);
    }
  }

  /** The update `snapshot.ref().update({ numChild: count })` on the record under
      key `id`. */
  function SetNumChild(nodes: seq<Node>, id: Id, count: int): (r: seq<Node>)
    ensures |r| == |nodes|
    ensures forall i :: 0 <= i < |nodes| ==> r[i] == if nodes[i].id == id then nodes[i].(numChild := count) else nodes[i]
  {
    seq(|nodes|, i requires 0 <= i < |nodes| => if nodes[i].id == id then nodes[i].(numChild := count) else nodes[i])
  }

  /** Two lists with the same paths and keys at every index have the same
      shape, the same keys and the same child counts. */
  lemma SamePathsKeepShape(a: seq<Node>, b: seq<Node>)
    requires |a| == |b| && forall i :: 0 <= i < |a| ==> a[i].path == b[i].path && a[i].id == b[i].id
    ensures Ids(a) == Ids(b)
    ensures forall p :: ChildCount(a, p) == ChildCount(b, p)
    ensures forall p :: HasPath(a, p) <==> HasPath(b, p)
    ensures ValidStore(a) ==> ValidStore(b)
    ensures DistinctPaths(a) ==> DistinctPaths(b)
    ensures ParentClosed(a) ==> ParentClosed(b)
    ensures DistinctIds(a) ==> DistinctIds(b)
  {
    SameIdsPerIndex(a, b);
    forall p
      ensures ChildCount(a, p) == ChildCount(b, p)
    {
      ChildCountSamePaths(a, b, p);
    }
    forall p
      ensures HasPath(a, p) <==> HasPath(b, p)
    {
      if HasPath(a, p) {
        var x :| x in a && x.path == p;
        var i :| 0 <= i < |a| && a[i] == x;
        assert b[i] in b;
      }
      if HasPath(b, p) {
        var x :| x in b && x.path == p;
        var i :| 0 <= i < |b| && b[i] == x;
        assert a[i] in a;
      }
    }
    assert forall x :: x in b ==> exists i :: 0 <= i < |b| && x == b[i] && x.path == a[i].path && a[i] in a;
  }

  // ---------------------------------------------------------------------------
  // Mutations
  // ---------------------------------------------------------------------------

  /** `addChild(target, data)`: push a record for the new child at the index
      after the target's `numChild`, then write `numChild + 1` into the record
      under the target's key. `id` is the key the push generates, which no
      record holds yet. */
  function AddChild(nodes: seq<Node>, target: Node, data: Payload, id: Id): (r: seq<Node>)
    requires id !in Ids(nodes) && id != target.id
    ensures |r| == |nodes| + 1
    ensures r[|nodes|] == NewRecord(id, target.path + IndexToPath(target.numChild + 1), data)
    ensures forall i :: 0 <= i < |nodes| ==>
              r[i] == if nodes[i].id == target.id then nodes[i].(numChild := target.numChild + 1) else nodes[i]
  {
    SetNumChild(nodes, target.id, target.numChild + 1) + [NewRecord(id, CalcPathAppend(target.path, IndexToPath(target.numChild + 1)), data)]
  }

  /** The new child sits directly under the target, one level deeper, at the
      index after its last counted child, with no children of its own. */
  lemma AddChildPlacesChild(nodes: seq<Node>, target: Node, data: Payload, id: Id)
    requires id !in Ids(nodes) && id != target.id
    requires ValidPath(target.path) && 0 <= target.numChild < 9999
    ensures var c := AddChild(nodes, target, data, id)[|nodes|];
            ValidPath(c.path) && GetParentPath(c.path) == target.path && GetPathIndex(c.path) == target.numChild + 1
            && c.depth == GetDepth(target.path) + 1 && c.numChild == 0
  {
    AppendThenSplit(target.path, target.numChild + 1);
  }

  /** The appended record carries the new key at the target's next slot. */
  lemma AddChildNewRecord(nodes: seq<Node>, target: Node, data: Payload, id: Id)
    requires id !in Ids(nodes) && id != target.id
    ensures var c := AddChild(nodes, target, data, id)[|nodes|];
            c.id == id && c.path == target.path + IndexToPath(target.numChild + 1)
  {
  }

  /** Every record of `a` keeps its path and key at its index in `b`. */
  predicate SameSlots(a: seq<Node>, b: seq<Node>)
  {
    |a| <= |b| && forall i :: 0 <= i < |a| ==> b[i].path == a[i].path && b[i].id == a[i].id
  }

  /** `addChild` writes no path or key of an existing record. */
  lemma AddChildKeepsSlots(nodes: seq<Node>, target: Node, data: Payload, id: Id)
    requires id !in Ids(nodes) && id != target.id
    ensures SameSlots(nodes, AddChild(nodes, target, data, id))
  {
  }

  /** A record appended directly under a record of the store, at a vacant path
      and with a fresh key, keeps the store well formed and keys unique; `s` is
      the store with some fields other than path and key rewritten. */
  lemma AppendUnderKeepsShape(nodes: seq<Node>, r: seq<Node>, target: Node)
    requires ValidStore(nodes) && DistinctPaths(nodes) && ParentClosed(nodes) && DistinctIds(nodes)
    requires |r| == |nodes| + 1 && SameSlots(nodes, r)
    requires target in nodes && ValidPath(r[|nodes|].path) && GetParentPath(r[|nodes|].path) == target.path
    requires !HasPath(nodes, r[|nodes|].path) && r[|nodes|].id !in Ids(nodes)
    ensures ValidStore(r) && DistinctPaths(r) && ParentClosed(r)
    ensures DistinctIds(r) && Ids(r) == Ids(nodes) + {r[|nodes|].id}
  {
    var s, child := r[..|nodes|], r[|nodes|];
    assert r == s + [child];
    SamePathsKeepShape(nodes, s);
    AppendKeepsDistinctPaths(s, child);
    assert HasPath(nodes, target.path);
    AppendKeepsParentClosed(s, child);
    IdsAppend(s, child);
    forall i, j | 0 <= i < j < |r|
      ensures r[i].id != r[j].id
    {
      assert r[i].id == nodes[i].id && nodes[i] in nodes;
      if j < |nodes| {
        assert r[j].id == nodes[j].id;
      }
    }
  }

  /** Adding a child into a vacant slot keeps the store well formed and keys unique. */
  lemma AddChildKeepsShape(nodes: seq<Node>, target: Node, data: Payload, id: Id)
    requires ValidStore(nodes) && DistinctPaths(nodes) && ParentClosed(nodes) && DistinctIds(nodes)
    requires target in nodes && 0 <= target.numChild < 9999
    requires id !in Ids(nodes)
    requires !HasPath(nodes, target.path + IndexToPath(target.numChild + 1))
    ensures var r := AddChild(nodes, target, data, id);
            ValidStore(r) && DistinctPaths(r) && ParentClosed(r) && DistinctIds(r)
            && Ids(r) == Ids(nodes) + {id}
  {
    assert target.id in Ids(nodes);
    var r := AddChild(nodes, target, data, id);
    AddChildPlacesChild(nodes, target, data, id);
    AddChildKeepsSlots(nodes, target, data, id);
    AddChildNewRecord(nodes, target, data, id);
    AppendUnderKeepsShape(nodes, r, target);
  }

  /** A record at a vacant path of a parent-closed store has no children there. */
  lemma VacantPathHasNoChildren(s: seq<Node>, p: Path)
    requires ValidStore(s) && ParentClosed(s) && ValidPath(p) && !HasPath(s, p)
    ensures ChildCount(s, p) == 0
  {
    forall x | x in s
      ensures GetParentPath(x.path) != p
    {
      if |x.path| > Width {
        assert HasPath(s, GetParentPath(x.path));
      }
    }
    ChildCountNone(s, p);
  }

  /** The appended record counts no children: none of the records before it
      sits under its vacant path. */
  lemma NewRecordCount(nodes: seq<Node>, target: Node, child: Node)
    requires ValidStore(nodes) && ParentClosed(nodes)
    requires ValidPath(child.path) && child.numChild == 0 && !HasPath(nodes, child.path)
    ensures var r := SetNumChild(nodes, target.id, target.numChild + 1) + [child];
            r[|nodes|].numChild == ChildCount(r, child.path)
  {
    var s := SetNumChild(nodes, target.id, target.numChild + 1);
    SamePathsKeepShape(nodes, s);
    VacantPathHasNoChildren(s, child.path);
    assert GetParentPath(child.path) != child.path;
    ChildCountAppend(s, child, child.path);
  }

  /** An existing record's count after `addChild`: the target's went up by one,
      and so did its number of children; every other record has as many
      children as before, as `child` is not among them. */
  lemma RaisedCountAt(nodes: seq<Node>, target: Node, child: Node, i: int)
    requires DistinctPaths(nodes) && DistinctIds(nodes) && CountsChildren(nodes) && target in nodes
    requires GetParentPath(child.path) == target.path
    requires 0 <= i < |nodes|
    ensures var r := SetNumChild(nodes, target.id, target.numChild + 1) + [child];
            r[i].numChild == ChildCount(r, r[i].path)
  {
    var s := SetNumChild(nodes, target.id, target.numChild + 1);
    assert (s + [child])[i] == s[i];
    ChildCountAppend(s, child, s[i].path);
    ChildCountSamePaths(s, nodes, s[i].path);
    var k :| 0 <= k < |nodes| && nodes[k] == target;
    if nodes[i].id == target.id {
      SameIdSameIndex(nodes, i, k);
    } else {
      assert nodes[i].path != target.path;
    }
  }

  /** Raising the target's count by one and appending a childless record under
      it, at a vacant path, keeps every count right. */
  lemma AppendUnderKeepsCounts(nodes: seq<Node>, target: Node, child: Node)
    requires ValidStore(nodes) && DistinctPaths(nodes) && ParentClosed(nodes) && DistinctIds(nodes)
    requires CountsChildren(nodes) && target in nodes
    requires ValidPath(child.path) && GetParentPath(child.path) == target.path && child.numChild == 0
    requires !HasPath(nodes, child.path)
    ensures CountsChildren(SetNumChild(nodes, target.id, target.numChild + 1) + [child])
  {
    var r := SetNumChild(nodes, target.id, target.numChild + 1) + [child];
    forall i | 0 <= i < |r|
      ensures r[i].numChild == ChildCount(r, r[i].path)
    {
      if i < |nodes| {
        RaisedCountAt(nodes, target, child, i);
      } else {
        NewRecordCount(nodes, target, child);
      }
    }
  }

  /** Adding a child into the vacant slot after the last counted one keeps
      every `numChild` equal to the number of children. */
  lemma AddChildKeepsCounts(nodes: seq<Node>, target: Node, data: Payload, id: Id)
    requires ValidStore(nodes) && DistinctPaths(nodes) && ParentClosed(nodes) && DistinctIds(nodes)
    requires CountsChildren(nodes)
    requires target in nodes && 0 <= target.numChild < 9999
    requires id !in Ids(nodes)
    requires !HasPath(nodes, target.path + IndexToPath(target.numChild + 1))
    ensures CountsChildren(AddChild(nodes, target, data, id))
  {
    AppendThenSplit(target.path, target.numChild + 1);
    AppendUnderKeepsCounts(nodes, target, NewRecord(id, CalcPathAppend(target.path, IndexToPath(target.numChild + 1)), data));
  }

  /** `addSibling(target, pos, data)` as far as it goes: for "left" or "right"
      it computes the new node's path and selects the target's siblings from
      that index on, the records whose path update is commented out; nothing is
      written. Any other position throws. */
  function AddSibling(nodes: seq<Node>, target: Node, pos: string): (r: Result<(Path, seq<Node>), ModelError>)
    requires ValidPath(target.path)
    ensures r.Err? <==> pos != "left" && pos != "right"
    ensures r.Ok? ==> ValidPath(r.value.0) && GetParentPath(r.value.0) == GetParentPath(target.path)
    ensures r.Ok? ==> forall x :: x in r.value.1 <==>
              x in nodes && GetParentPath(x.path) == GetParentPath(target.path)
              && ValidPath(x.path) && GetPathIndex(x.path) >= GetPathIndex(r.value.0)
  {
    if pos == "left" || pos == "right" then
      var path := BesidePath(target, pos);
      var shifted := Filter(GetSiblings(nodes, target), (s: Node) => ValidPath(s.path) && GetPathIndex(s.path) >= GetPathIndex(path));
      Ok((path, shifted))
    else Err(InvalidSiblingPosition)
  }

  /** On the left, the new node takes the target's own index and the target is
      among the records to shift. */
  lemma AddSiblingLeftShiftsTarget(nodes: seq<Node>, target: Node)
    requires ValidPath(target.path) && target in nodes
    ensures var left := AddSibling(nodes, target, "left");
            left.Ok? && left.value.0 == target.path && target in left.value.1
  {
  }

  /** On the right, the new node takes the next index and only records after
      the target shift. */
  lemma AddSiblingRightSkipsTarget(nodes: seq<Node>, target: Node)
    requires ValidPath(target.path) && GetPathIndex(target.path) < 9999
    ensures var right := AddSibling(nodes, target, "right");
            right.Ok? && GetPathIndex(right.value.0) == GetPathIndex(target.path) + 1
            && target !in right.value.1
            && forall x :: x in right.value.1 ==> GetPathIndex(x.path) > GetPathIndex(target.path)
  {
    var right := AddSibling(nodes, target, "right");
    assert right.value.0 == BesidePath(target, "right");
  }

  /** `remove(node)`: delete the node's subtree, shift its later siblings (with
      their subtrees) one index left, and write the parent's `numChild` less
      one. The parent is the first record found at the parent path; a
      top-level node has none, and then no count is written. */
  function Remove(nodes: seq<Node>, node: Node): (r: seq<Node>)
    requires ValidPath(node.path)
    ensures |r| == |Survivors(nodes, node.path)| && Ids(r) == Ids(Survivors(nodes, node.path))
    ensures forall i :: 0 <= i < |r| ==>
              r[i].id == Survivors(nodes, node.path)[i].id && r[i].path == RemoveSubtree(nodes, node.path)[i].path
  {
    var r := LowerCount(RemoveSubtree(nodes, node.path), RecordAt(nodes, GetParentPath(node.path)));
    SameIdsPerIndex(Survivors(nodes, node.path), r);
    r
  }

  /** `update({ numChild: snapshot.val().numChild - 1 })` on the parent found,
      if any. */
  function LowerCount(nodes: seq<Node>, parent: Option<Node>): (r: seq<Node>)
    ensures |r| == |nodes|
    ensures forall i :: 0 <= i < |nodes| ==> r[i].path == nodes[i].path && r[i].id == nodes[i].id
    ensures forall i :: 0 <= i < |nodes| && parent.Some? && nodes[i].id == parent.value.id ==>
              r[i] == nodes[i].(numChild := parent.value.numChild - 1)
    ensures forall i :: 0 <= i < |nodes| && (parent.None? || nodes[i].id != parent.value.id) ==> r[i] == nodes[i]
  {
    match parent
    case None => nodes
    case Some(q) => SetNumChild(nodes, q.id, q.numChild - 1)
  }

  /** Lowering a count moves no record and drops no key. */
  lemma LowerCountKeepsPaths(rest: seq<Node>, parent: Option<Node>)
    ensures |LowerCount(rest, parent)| == |rest| && Ids(LowerCount(rest, parent)) == Ids(rest)
    ensures forall i :: 0 <= i < |rest| ==> LowerCount(rest, parent)[i].path == rest[i].path
  {
    SameIdsPerIndex(rest, LowerCount(rest, parent));
  }

  /** Removal deletes exactly the node's subtree: the keys left are those of
      the records outside it. */
  lemma RemoveDropsSubtree(nodes: seq<Node>, node: Node)
    requires ValidPath(node.path) && DistinctIds(nodes)
    ensures Ids(Remove(nodes, node)) == Ids(Survivors(nodes, node.path))
    ensures forall x :: x in nodes && IsPrefix(node.path, x.path) ==> x.id !in Ids(Remove(nodes, node))
  {
    RemoveSubtreeDropsSubtree(nodes, node.path);
    LowerCountKeepsPaths(RemoveSubtree(nodes, node.path), RecordAt(nodes, GetParentPath(node.path)));
  }

  /** Lowering the count of the record under `p`'s key, where every record
      with that key is `p`, keeps the keys and changes that record alone. */
  lemma LowerParentCount(rest: seq<Node>, p: Node)
    requires forall i :: 0 <= i < |rest| && rest[i].id == p.id ==> rest[i] == p
    ensures Ids(LowerCount(rest, Some(p))) == Ids(rest)
    ensures forall i :: 0 <= i < |LowerCount(rest, Some(p))| ==>
              LowerCount(rest, Some(p))[i] == if rest[i].id == p.id then p.(numChild := p.numChild - 1) else rest[i]
  {
    SameIdsPerIndex(rest, LowerCount(rest, Some(p)));
  }

  /** The parent of the removed node survives and stays where it is: it is
      neither in the removed subtree nor one of the shifted siblings, and with
      one record per key no other record carries its key. */
  lemma ParentStaysPut(nodes: seq<Node>, path: Path, p: Node)
    requires ValidPath(path) && DistinctIds(nodes)
    requires p in nodes && p.path == GetParentPath(path)
    ensures p.id in Ids(RemoveSubtree(nodes, path))
    ensures forall i :: 0 <= i < |RemoveSubtree(nodes, path)| && RemoveSubtree(nodes, path)[i].id == p.id ==>
              RemoveSubtree(nodes, path)[i] == p
  {
    var s := Survivors(nodes, path);
    var rest := RemoveSubtree(nodes, path);
    var l :| 0 <= l < |nodes| && nodes[l] == p;
    forall i | 0 <= i < |rest| && rest[i].id == p.id
      ensures rest[i] == p
    {
      assert s[i] in s;
      var m :| 0 <= m < |nodes| && nodes[m] == s[i];
      SameIdSameIndex(nodes, m, l);
      assert !InShiftedSubtree(s, s[i], GetParentPath(path), GetPathIndex(path) + 1);
    }
    RemoveSubtreeDropsSubtree(nodes, path);
    assert p in s;
  }

  /** Removal writes one count: the parent's goes down by one and the parent
      stays at its path; every other record is as the subtree removal leaves it. */
  lemma RemoveDecrementsParent(nodes: seq<Node>, node: Node, p: Node)
    requires ValidPath(node.path) && DistinctIds(nodes) && DistinctPaths(nodes)
    requires p in nodes && p.path == GetParentPath(node.path)
    ensures p.id in Ids(Remove(nodes, node))
    ensures forall i :: 0 <= i < |Remove(nodes, node)| ==>
              Remove(nodes, node)[i] == if Remove(nodes, node)[i].id == p.id then p.(numChild := p.numChild - 1)
                                        else RemoveSubtree(nodes, node.path)[i]
  {
    RecordAtUnique(nodes, p);
    var rest := RemoveSubtree(nodes, node.path);
    var r := LowerCount(rest, Some(p));
    assert Remove(nodes, node) == r;
    ParentStaysPut(nodes, node.path, p);
    LowerParentCount(rest, p);
  }

  /** Removing a top-level node writes no count: it is the subtree removal alone. */
  lemma RemoveTopLevel(nodes: seq<Node>, node: Node)
    requires ValidStore(nodes) && ValidPath(node.path) && |node.path| == Width
    ensures Remove(nodes, node) == RemoveSubtree(nodes, node.path)
  {
    assert GetParentPath(node.path) == [];
    assert forall n :: n in nodes ==> n.path != [];
  }
}
