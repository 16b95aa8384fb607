/** The cached model of `src/assets/js/model.js`. Queries read the list of
    records the model loaded from the store. A mutation is the set of record
    writes it issues. Every write is computed from the store as it was when the
    call began, and for a record written twice the later write wins. Records are
    found by key, so each keeps its position in the list. */
module CachedModel {
  import opened JsText
  import opened PathCodec
  import opened PathOrder
  import opened Outcomes
  import opened Nodes
  import opened TreeShape
  import opened StoreEdit

  /** The errors the model throws: `NOT_READY`, `INVALID_MOVE`, and the string
      "Invalid path" that `addSibling` throws for an unknown position. */
  datatype ModelError = NotReady | InvalidMove | InvalidPath

  /** `getNodeById(id)`: the first loaded record with that key. Before the first
      load completes, `checkReady` throws `NOT_READY`. */
  function GetNodeById(nodes: seq<Node>, ready: bool, id: Id): (r: Result<Option<Node>, ModelError>)
    ensures !ready <==> r == Err(NotReady)
    ensures r.Ok? ==> (r.value.Some? <==> id in Ids(nodes))
    ensures r.Ok? && r.value.Some? ==> r.value.value in nodes && r.value.value.id == id
  {
    if !ready then Err(NotReady) else Ok(FindFirst(nodes, (x: Node) => x.id == id))
  }

  /** `getChildren(node)`: the records whose parent path is the node's path, in
      list order. */
  function GetChildren(nodes: seq<Node>, node: Node): (r: seq<Node>)
    ensures forall x :: x in r <==> x in nodes && GetParentPath(x.path) == node.path
    ensures ValidStore(nodes) ==> forall x :: x in r ==> IsSiblingUnder(x, node.path)
  {
    Filter(nodes, (n: Node) => GetParentPath(n.path) == node.path)
  }

  /** `getDescendants(node)`: the records whose prefix at the node's depth is the
      node's path and whose depth is greater. Depths are lengths divided by 4 (a
      real division in the source), so comparing depths compares lengths. The
      result is exactly the records strictly below the node. */
  function GetDescendants(nodes: seq<Node>, node: Node): (r: seq<Node>)
    requires ValidPath(node.path)
    ensures forall x :: x in r <==> x in nodes && IsDescendantPath(x.path, node.path)
    ensures node !in r
  {
    Filter(nodes, (n: Node) => GetPathAtDepth(n.path, GetDepth(node.path)) == node.path && |n.path| > |node.path|)
  }

  /** `getParent(node)`: the first record at the node's parent path. */
  function GetParent(nodes: seq<Node>, node: Node): (r: Option<Node>)
    ensures r.Some? ==> r.value in nodes && r.value.path == GetParentPath(node.path)
    ensures r.None? <==> !HasPath(nodes, GetParentPath(node.path))
  {
    FindFirst(nodes, (x: Node) => x.path == GetParentPath(node.path))
  }

  /** `getSiblings(node)`: the records that share the node's parent path, the
      node among them, sorted by path. */
  function GetSiblings(nodes: seq<Node>, node: Node): (r: seq<Node>)
    ensures SortedByPath(r)
    ensures forall x :: x in r <==> x in nodes && GetParentPath(x.path) == GetParentPath(node.path)
    ensures node in nodes ==> node in r
  {
    var same := Filter(nodes, (n: Node) => GetParentPath(n.path) == GetParentPath(node.path));
    var r := SortByPath(same);
    assert forall x :: x in r <==> x in multiset(same);
    r
  }

  /** A child is a descendant exactly one level down. */
  lemma ChildrenAreDescendantsOneLevelDown(nodes: seq<Node>, node: Node, x: Node)
    requires ValidStore(nodes) && ValidPath(node.path)
    ensures x in GetChildren(nodes, node) <==>
              x in GetDescendants(nodes, node) && GetDepth(x.path) == GetDepth(node.path) + 1
  {
    if x in nodes {
      assert |x.path| % Width == 0;
    }
  }

  /** The parent of a child is the node it was listed under. */
  lemma ParentOfChild(nodes: seq<Node>, p: Node, c: Node)
    requires DistinctPaths(nodes) && p in nodes
    requires c in GetChildren(nodes, p)
    ensures GetParent(nodes, c) == Some(p)
  {
    var q := GetParent(nodes, c).value;
    var i, j :| 0 <= i < |nodes| && 0 <= j < |nodes| && nodes[i] == p && nodes[j] == q;
  }

  /** In a parent-closed store every record below the top level has a parent,
      and a top-level record has none. */
  lemma ParentPresentUnlessTopLevel(nodes: seq<Node>, c: Node)
    requires ValidStore(nodes) && ParentClosed(nodes) && c in nodes
    ensures GetParent(nodes, c).Some? <==> |c.path| > Width
  {
    if |c.path| == Width {
      assert GetParentPath(c.path) == [];
    }
  }

  /** The siblings of a child are its parent's children, sorted. */
  lemma SiblingsAreParentsChildren(nodes: seq<Node>, p: Node, c: Node)
    requires c in GetChildren(nodes, p)
    ensures multiset(GetSiblings(nodes, c)) == multiset(GetChildren(nodes, p))
  {
  }

  /** An upper bound on the path lengths in the list: the measure the
      depth-first walk descends on. */
  function MaxPathLength(nodes: seq<Node>): (m: nat)
    ensures forall n :: n in nodes ==> |n.path| <= m
  {
    if nodes == [] then 0 else Max(|nodes[0].path|, MaxPathLength(nodes[1..]))
  }

  /** `dfs(node, list)`: the node, then the walk of each of its children in
      list order. */
  function Dfs(nodes: seq<Node>, node: Node): (r: seq<Node>)
    requires ValidStore(nodes) && node in nodes
    ensures r != [] && r[0] == node
    ensures forall x :: x in r ==> x in nodes && IsPrefix(node.path, x.path)
    decreases MaxPathLength(nodes) - |node.path|, 1
  {
    [node] + DfsAll(nodes, GetChildren(nodes, node), node.path)
  }

  /** The walks of `kids`, one after another; every kid is a child of `parent`. */
  function DfsAll(nodes: seq<Node>, kids: seq<Node>, parent: Path): (r: seq<Node>)
    requires ValidStore(nodes)
    requires forall k :: k in kids ==> k in nodes && GetParentPath(k.path) == parent
    ensures forall x :: x in r ==> x in nodes && IsPrefix(parent, x.path) && |x.path| > |parent|
    decreases MaxPathLength(nodes) - |parent|, 0, |kids|
  {
    if kids == [] then []
    else
      var k := kids[0];
      assert k in kids && k in nodes && ValidPath(k.path) && GetParentPath(k.path) == parent;
      assert |k.path| == |parent| + Width;
      var head := Dfs(nodes, k);
      assert forall x :: x in head ==> x.path[..|parent|] == x.path[..|k.path|][..|parent|];
      head + DfsAll(nodes, kids[1..], parent)
  }

  /** `getTree()`: the walk from the first top-level record in the list
      (`getDepth(path) === 1`, i.e. a path of one segment), or nothing when there
      is none. Only that record's tree is listed: the loop stops after it. */
  function GetTree(nodes: seq<Node>, ready: bool): (r: Result<seq<Node>, ModelError>)
    requires ValidStore(nodes)
    ensures !ready <==> r == Err(NotReady)
    ensures r.Ok? && r.value != [] ==> |r.value[0].path| == Width
    ensures r.Ok? ==> (r.value == [] <==> forall n :: n in nodes ==> |n.path| != Width)
  {
    if !ready then Err(NotReady)
    else
      match FindFirst(nodes, (n: Node) => |n.path| == Width)
      case None => Ok([])
      case Some(root) => Ok(Dfs(nodes, root))
  }

  /** A walk of the children lists everything the walk of any one child lists. */
  lemma {:induction false} DfsAllContains(nodes: seq<Node>, kids: seq<Node>, parent: Path, k: Node, x: Node)
    requires ValidStore(nodes)
    requires forall k :: k in kids ==> k in nodes && GetParentPath(k.path) == parent
    requires k in kids && x in Dfs(nodes, k)
    ensures x in DfsAll(nodes, kids, parent)
    decreases |kids|
  {
    if kids[0] != k {
      assert k in kids[1..];
      DfsAllContains(nodes, kids[1..], parent, k, x);
    }
  }

  /** In a parent-closed store without two records at one path, the walk from a
      record reaches every record of its subtree. */
  lemma {:induction false} DfsComplete(nodes: seq<Node>, node: Node, d: Node)
    requires ValidStore(nodes) && ParentClosed(nodes) && DistinctPaths(nodes)
    requires node in nodes && d in nodes && IsPrefix(node.path, d.path)
    ensures d in Dfs(nodes, node)
    decreases |d.path| - |node.path|
  {
    if d.path == node.path {
      SamePathSameRecord(nodes, d, node);
    } else {
      var a := ChildOnTheWay(nodes, node, d);
      assert a in GetChildren(nodes, node);
      DfsComplete(nodes, a, d);
      DfsAllContains(nodes, GetChildren(nodes, node), node.path, a, d);
    }
  }

  lemma SamePathSameRecord(nodes: seq<Node>, a: Node, b: Node)
    requires DistinctPaths(nodes) && a in nodes && b in nodes && a.path == b.path
    ensures a == b
  {
    var i :| 0 <= i < |nodes| && nodes[i] == a;
    var j :| 0 <= j < |nodes| && nodes[j] == b;
  }

  /** A record strictly below `node` lies below one of its children. */
  lemma ChildOnTheWay(nodes: seq<Node>, node: Node, d: Node) returns (a: Node)
    requires ValidStore(nodes) && ParentClosed(nodes)
    requires node in nodes && d in nodes && IsPrefix(node.path, d.path) && d.path != node.path
    ensures a in nodes && GetParentPath(a.path) == node.path
    ensures IsPrefix(a.path, d.path) && |a.path| > |node.path|
  {
    assert ValidPath(d.path) && ValidPath(node.path);
    var p := ChildPrefix(node.path, d.path);
    AncestorOfPath(nodes, d, p);
    a :| a in nodes && a.path == p;
  }

  /** The path one segment below `p` on the way to its extension `q`. */
  lemma ChildPrefix(p: Path, q: Path) returns (c: Path)
    requires ValidPath(p) && ValidPath(q) && IsPrefix(p, q) && p != q
    ensures ValidPath(c) && IsPrefix(c, q) && GetParentPath(c) == p && |c| > |p|
  {
    AlignedGap(|p|, |q|);
    AlignedNext(|p|);
    c := q[..|p| + Width];
    assert c[..|p|] == p;
  }

  /** In a parent-closed store every well-formed prefix of a record's path is
      the path of a record. */
  lemma AncestorOfPath(nodes: seq<Node>, x: Node, p: Path)
    requires ValidStore(nodes) && ParentClosed(nodes) && x in nodes
    requires ValidPath(p) && IsPrefix(p, x.path)
    ensures HasPath(nodes, p)
  {
    AncestorExists(nodes, x, |p|);
  }

  /** With a top-level record in the list, `getTree()` lists exactly the first
      such record and the records below it. */
  lemma GetTreeListsFirstTree(nodes: seq<Node>, i: int)
    requires ValidStore(nodes) && ParentClosed(nodes) && DistinctPaths(nodes)
    requires 0 <= i < |nodes| && |nodes[i].path| == Width
    requires forall j :: 0 <= j < i ==> |nodes[j].path| != Width
    ensures GetTree(nodes, true).Ok? && GetTree(nodes, true).value == Dfs(nodes, nodes[i])
    ensures forall x :: x in GetTree(nodes, true).value <==> x in nodes && IsPrefix(nodes[i].path, x.path)
  {
    var found := FindFirst(nodes, (n: Node) => |n.path| == Width);
    assert nodes[i] in nodes;
    var root := found.value;
    var k :| 0 <= k < |nodes| && nodes[k] == root && forall j :: 0 <= j < k ==> |nodes[j].path| != Width;
    assert k == i;
    forall x | x in nodes && IsPrefix(root.path, x.path)
      ensures x in Dfs(nodes, root)
    {
      DfsComplete(nodes, root, x);
    }
  }

  /** A listing keeps subtrees together: whatever it lists between a record
      and a later record below that record is below it too. */
  predicate KeepsSubtreesTogether(s: seq<Node>)
  {
    forall i, j, k :: 0 <= i < j < k < |s| && IsPrefix(s[i].path, s[k].path) ==> IsPrefix(s[i].path, s[j].path)
  }

  /** A listing puts ancestors first: no record is listed after a record
      strictly below it. */
  predicate AncestorsFirst(s: seq<Node>)
  {
    forall i, k :: 0 <= i < k < |s| && IsPrefix(s[k].path, s[i].path) ==> s[k].path == s[i].path
  }

  /** Every record the walk of a list of children lists lies below one of
      the children. */
  lemma {:induction false} DfsAllUnderKid(nodes: seq<Node>, kids: seq<Node>, parent: Path, x: Node)
    requires ValidStore(nodes)
    requires forall k :: k in kids ==> k in nodes && GetParentPath(k.path) == parent
    requires x in DfsAll(nodes, kids, parent)
    ensures exists k :: k in kids && IsPrefix(k.path, x.path)
    decreases |kids|
  {
    var head := Dfs(nodes, kids[0]);
    assert DfsAll(nodes, kids, parent) == head + DfsAll(nodes, kids[1..], parent);
    if x in head {
      assert kids[0] in kids;
    } else {
      DfsAllUnderKid(nodes, kids[1..], parent, x);
      var k :| k in kids[1..] && IsPrefix(k.path, x.path);
      assert k in kids;
    }
  }

  /** Without two records at one path in the store, the walk from a node lists
      no path twice. */
  lemma {:induction false} DfsDistinct(nodes: seq<Node>, node: Node)
    requires ValidStore(nodes) && DistinctPaths(nodes) && node in nodes
    ensures DistinctPaths(Dfs(nodes, node))
    decreases MaxPathLength(nodes) - |node.path|, 1
  {
    var kids := GetChildren(nodes, node);
    FilterKeepsDistinctPaths(nodes, (n: Node) => GetParentPath(n.path) == node.path);
    DfsAllDistinct(nodes, kids, node.path);
    ConsKeepsDistinctPaths(node, DfsAll(nodes, kids, node.path));
  }

  /** The walks of children with distinct paths share no path. */
  lemma {:induction false} DfsAllDistinct(nodes: seq<Node>, kids: seq<Node>, parent: Path)
    requires ValidStore(nodes) && DistinctPaths(nodes) && DistinctPaths(kids)
    requires forall k :: k in kids ==> k in nodes && GetParentPath(k.path) == parent
    ensures DistinctPaths(DfsAll(nodes, kids, parent))
    decreases MaxPathLength(nodes) - |parent|, 0, |kids|
  {
    if kids != [] {
      var k := kids[0];
      assert k in kids && k in nodes && ValidPath(k.path) && GetParentPath(k.path) == parent;
      assert |k.path| == |parent| + Width;
      var head := Dfs(nodes, k);
      var rest := DfsAll(nodes, kids[1..], parent);
      DfsDistinct(nodes, k);
      assert DistinctPaths(kids[1..]);
      DfsAllDistinct(nodes, kids[1..], parent);
      FirstWalkApart(nodes, kids, parent);
      ConcatKeepsDistinctPaths(head, rest);
    }
  }

  /** In a parent-closed store without two records at one path, the walk from
      a node lists every record of its subtree exactly once, and nothing
      else. */
  lemma DfsListsSubtreeOnce(nodes: seq<Node>, node: Node, x: Node)
    requires ValidStore(nodes) && ParentClosed(nodes) && DistinctPaths(nodes) && node in nodes
    ensures multiset(Dfs(nodes, node))[x] == if x in nodes && IsPrefix(node.path, x.path) then 1 else 0
  {
    DfsDistinct(nodes, node);
    DistinctPathsCountOnce(Dfs(nodes, node), x);
    if x in nodes && IsPrefix(node.path, x.path) {
      DfsComplete(nodes, node, x);
    }
  }

  /** Without two records at one path in the store, the walk from a node
      keeps subtrees together: a record listed between a record and a later
      record of its subtree belongs to that subtree too, so once the walk has
      left a subtree it never returns to it. */
  lemma {:induction false} DfsSubtreesContiguous(nodes: seq<Node>, node: Node)
    requires ValidStore(nodes) && DistinctPaths(nodes) && node in nodes
    ensures KeepsSubtreesTogether(Dfs(nodes, node))
    decreases MaxPathLength(nodes) - |node.path|, 1
  {
    var kids := GetChildren(nodes, node);
    FilterKeepsDistinctPaths(nodes, (n: Node) => GetParentPath(n.path) == node.path);
    DfsAllContiguous(nodes, kids, node.path);
    ConsKeepsTogether(node, DfsAll(nodes, kids, node.path));
  }

  /** The same for the walks of children with distinct paths, one after
      another. */
  lemma {:induction false} DfsAllContiguous(nodes: seq<Node>, kids: seq<Node>, parent: Path)
    requires ValidStore(nodes) && DistinctPaths(nodes) && DistinctPaths(kids)
    requires forall k :: k in kids ==> k in nodes && GetParentPath(k.path) == parent
    ensures KeepsSubtreesTogether(DfsAll(nodes, kids, parent))
    decreases MaxPathLength(nodes) - |parent|, 0, |kids|
  {
    if kids != [] {
      var k := kids[0];
      assert k in kids && k in nodes && ValidPath(k.path) && GetParentPath(k.path) == parent;
      assert |k.path| == |parent| + Width;
      var head := Dfs(nodes, k);
      var rest := DfsAll(nodes, kids[1..], parent);
      DfsSubtreesContiguous(nodes, k);
      assert DistinctPaths(kids[1..]);
      DfsAllContiguous(nodes, kids[1..], parent);
      LaterKidsApart(kids);
      forall i, j | 0 <= i < |head| && 0 <= j < |rest|
        ensures !IsPrefix(head[i].path, rest[j].path)
      {
        assert head[i] in head && rest[j] in rest;
        WalksApart(nodes, k, kids[1..], parent, head[i], rest[j]);
      }
      ConcatKeepsTogether(head, rest);
    }
  }

  /** Without two records at one path in the store, the walk from a node
      lists every record before the records below it. With
      `DfsSubtreesContiguous` and `DfsListsSubtreeOnce`, each record is
      followed by exactly its own subtree: the walk is in depth-first
      pre-order. */
  lemma {:induction false} DfsAncestorsFirst(nodes: seq<Node>, node: Node)
    requires ValidStore(nodes) && DistinctPaths(nodes) && node in nodes
    ensures AncestorsFirst(Dfs(nodes, node))
    decreases MaxPathLength(nodes) - |node.path|, 1
  {
    var kids := GetChildren(nodes, node);
    FilterKeepsDistinctPaths(nodes, (n: Node) => GetParentPath(n.path) == node.path);
    DfsAllAncestorsFirst(nodes, kids, node.path);
    ConsKeepsAncestorsFirst(node, DfsAll(nodes, kids, node.path));
  }

  /** The same for the walks of children with distinct paths, one after
      another. */
  lemma {:induction false} DfsAllAncestorsFirst(nodes: seq<Node>, kids: seq<Node>, parent: Path)
    requires ValidStore(nodes) && DistinctPaths(nodes) && DistinctPaths(kids)
    requires forall k :: k in kids ==> k in nodes && GetParentPath(k.path) == parent
    ensures AncestorsFirst(DfsAll(nodes, kids, parent))
    decreases MaxPathLength(nodes) - |parent|, 0, |kids|
  {
    if kids != [] {
      var k := kids[0];
      assert k in kids && k in nodes && ValidPath(k.path) && GetParentPath(k.path) == parent;
      assert |k.path| == |parent| + Width;
      var head := Dfs(nodes, k);
      var rest := DfsAll(nodes, kids[1..], parent);
      DfsAncestorsFirst(nodes, k);
      assert DistinctPaths(kids[1..]);
      DfsAllAncestorsFirst(nodes, kids[1..], parent);
      LaterKidsApart(kids);
      forall i, j | 0 <= i < |head| && 0 <= j < |rest|
        ensures !IsPrefix(rest[j].path, head[i].path)
      {
        assert head[i] in head && rest[j] in rest;
        WalksApart(nodes, k, kids[1..], parent, head[i], rest[j]);
      }
      ConcatKeepsAncestorsFirst(head, rest);
    }
  }

  /** The walk of the first child shares no path with the walks of the
      others. */
  lemma FirstWalkApart(nodes: seq<Node>, kids: seq<Node>, parent: Path)
    requires ValidStore(nodes) && DistinctPaths(kids) && kids != []
    requires forall k :: k in kids ==> k in nodes && GetParentPath(k.path) == parent
    ensures forall x, y :: x in Dfs(nodes, kids[0]) && y in DfsAll(nodes, kids[1..], parent) ==> x.path != y.path
  {
    LaterKidsApart(kids);
    assert kids[0] in kids;
    forall x, y | x in Dfs(nodes, kids[0]) && y in DfsAll(nodes, kids[1..], parent)
      ensures x.path != y.path
    {
      WalksApart(nodes, kids[0], kids[1..], parent, x, y);
      assert y.path[..|y.path|] == y.path;
    }
  }

  /** In a list of children with distinct paths, the later children are at
      other paths than the first. */
  lemma LaterKidsApart(kids: seq<Node>)
    requires DistinctPaths(kids) && kids != []
    ensures forall m :: m in kids[1..] ==> m.path != kids[0].path
  {
    forall m | m in kids[1..]
      ensures m.path != kids[0].path
    {
      var j :| 0 <= j < |kids[1..]| && kids[1..][j] == m;
      assert kids[j + 1] == m;
    }
  }

  /** Nothing the walk of one child lists leads to anything the walks of its
      siblings at other paths list. */
  lemma WalksApart(nodes: seq<Node>, k: Node, more: seq<Node>, parent: Path, x: Node, y: Node)
    requires ValidStore(nodes) && k in nodes && GetParentPath(k.path) == parent
    requires forall m :: m in more ==> m in nodes && GetParentPath(m.path) == parent
    requires forall m :: m in more ==> m.path != k.path
    requires x in Dfs(nodes, k) && y in DfsAll(nodes, more, parent)
    ensures !IsPrefix(x.path, y.path) && !IsPrefix(y.path, x.path)
  {
    DfsAllUnderKid(nodes, more, parent, y);
    var m :| m in more && IsPrefix(m.path, y.path);
    assert ValidPath(k.path) && ValidPath(m.path);
    assert |m.path| == |k.path|;
    ApartBelowSiblings(k.path, m.path, x.path, y.path);
    ApartBelowSiblings(m.path, k.path, y.path, x.path);
  }

  /** A record followed by records below it keeps subtrees together when they
      do. */
  lemma ConsKeepsTogether(x: Node, r: seq<Node>)
    requires KeepsSubtreesTogether(r)
    requires forall y :: y in r ==> IsPrefix(x.path, y.path)
    ensures KeepsSubtreesTogether([x] + r)
  {
    var s := [x] + r;
    forall i, j, k | 0 <= i < j < k < |s| && IsPrefix(s[i].path, s[k].path)
      ensures IsPrefix(s[i].path, s[j].path)
    {
      assert s[j] == r[j - 1] && s[k] == r[k - 1];
      if i == 0 {
        assert s[j] in r;
      } else {
        assert s[i] == r[i - 1];
      }
    }
  }

  /** Two listings that keep subtrees together, joined, keep them together
      when nothing in the first leads to anything in the second. */
  lemma ConcatKeepsTogether(a: seq<Node>, b: seq<Node>)
    requires KeepsSubtreesTogether(a) && KeepsSubtreesTogether(b)
    requires forall i, j :: 0 <= i < |a| && 0 <= j < |b| ==> !IsPrefix(a[i].path, b[j].path)
    ensures KeepsSubtreesTogether(a + b)
  {
    var s := a + b;
    forall i, j, k | 0 <= i < j < k < |s| && IsPrefix(s[i].path, s[k].path)
      ensures IsPrefix(s[i].path, s[j].path)
    {
      if k < |a| {
        assert s[i] == a[i] && s[j] == a[j] && s[k] == a[k];
      } else if |a| <= i {
        assert s[i] == b[i - |a|] && s[j] == b[j - |a|] && s[k] == b[k - |a|];
      } else {
        assert false;
      }
    }
  }

  /** A record followed by records strictly below it puts ancestors first
      when they do. */
  lemma ConsKeepsAncestorsFirst(x: Node, r: seq<Node>)
    requires AncestorsFirst(r)
    requires forall y :: y in r ==> IsPrefix(x.path, y.path) && |y.path| > |x.path|
    ensures AncestorsFirst([x] + r)
  {
    var s := [x] + r;
    forall i, k | 0 <= i < k < |s|
      ensures IsPrefix(s[k].path, s[i].path) ==> s[k].path == s[i].path
    {
      assert s[k] == r[k - 1];
      if i == 0 {
        assert s[k] in r;
      } else {
        assert s[i] == r[i - 1];
      }
    }
  }

  /** Two listings that put ancestors first, joined, do so when nothing in
      the second leads to anything in the first. */
  lemma ConcatKeepsAncestorsFirst(a: seq<Node>, b: seq<Node>)
    requires AncestorsFirst(a) && AncestorsFirst(b)
    requires forall i, j :: 0 <= i < |a| && 0 <= j < |b| ==> !IsPrefix(b[j].path, a[i].path)
    ensures AncestorsFirst(a + b)
  {
    var s := a + b;
    forall i, k | 0 <= i < k < |s|
      ensures IsPrefix(s[k].path, s[i].path) ==> s[k].path == s[i].path
    {
      if k < |a| {
        assert s[i] == a[i] && s[k] == a[k];
      } else if |a| <= i {
        assert s[i] == b[i - |a|] && s[k] == b[k - |a|];
      } else {
        assert s[i] == a[i] && s[k] == b[k - |a|];
      }
    }
  }

  /** `getTree()` lists the first top-level record's tree in depth-first
      pre-order: every record of that tree exactly once and nothing else,
      each record before the records below it, and each subtree as one
      unbroken run, so each record is followed by exactly its own subtree. */
  lemma GetTreeIsDepthFirst(nodes: seq<Node>, i: int, x: Node)
    requires ValidStore(nodes) && ParentClosed(nodes) && DistinctPaths(nodes)
    requires 0 <= i < |nodes| && |nodes[i].path| == Width
    requires forall j :: 0 <= j < i ==> |nodes[j].path| != Width
    ensures GetTree(nodes, true).Ok?
    ensures multiset(GetTree(nodes, true).value)[x] == if x in nodes && IsPrefix(nodes[i].path, x.path) then 1 else 0
    ensures KeepsSubtreesTogether(GetTree(nodes, true).value)
    ensures AncestorsFirst(GetTree(nodes, true).value)
  {
    GetTreeListsFirstTree(nodes, i);
    DfsListsSubtreeOnce(nodes, nodes[i], x);
    DfsSubtreesContiguous(nodes, nodes[i]);
    DfsAncestorsFirst(nodes, nodes[i]);
  }

  /** `addChild(target, data)`: a new record one level below the target, at the
      index after the target's current children. `newId` is the key the store
      generates for it. */
  function AddChild(nodes: seq<Node>, target: Node, data: Payload, newId: Id): (r: seq<Node>)
    requires ValidPath(target.path)
    ensures |r| == |nodes| + 1 && r[..|nodes|] == nodes
    ensures r[|nodes|].id == newId && r[|nodes|].data == data
    ensures |GetChildren(nodes, target)| < 9999 ==>
              ValidPath(r[|nodes|].path) && GetParentPath(r[|nodes|].path) == target.path
              && GetPathIndex(r[|nodes|].path) == |GetChildren(nodes, target)| + 1
  {
    var count := |GetChildren(nodes, target)|;
    var p := CalcPathAppend(target.path, IndexToPath(count + 1));
    if count < 9999 then
      AppendThenSplit(target.path, count + 1);
      nodes + [NewRecord(newId, p, data)]
    else nodes + [NewRecord(newId, p, data)]
  }

  /** The new record is listed last among the target's children. */
  lemma AddChildListsNewChild(nodes: seq<Node>, target: Node, data: Payload, newId: Id)
    requires ValidPath(target.path) && |GetChildren(nodes, target)| < 9999
    ensures GetChildren(AddChild(nodes, target, data, newId), target)
            == GetChildren(nodes, target) + [AddChild(nodes, target, data, newId)[|nodes|]]
  {
    var r := AddChild(nodes, target, data, newId);
    assert r == nodes + [r[|nodes|]];
    FilterAppend(nodes, r[|nodes|], (n: Node) => GetParentPath(n.path) == target.path);
  }

  /** When the target's children hold indices up to their count, the new
      child's slot is free. */
  lemma AddChildSlotFree(nodes: seq<Node>, target: Node, data: Payload, newId: Id)
    requires ValidStore(nodes) && ValidPath(target.path)
    requires |GetChildren(nodes, target)| < 9999
    requires SiblingIndicesBelow(nodes, target.path, |GetChildren(nodes, target)| + 1)
    ensures !HasPath(nodes, AddChild(nodes, target, data, newId)[|nodes|].path)
  {
    var p := AddChild(nodes, target, data, newId)[|nodes|].path;
    forall m | m in nodes
      ensures m.path != p
    {
      if IsSiblingUnder(m, target.path) {
        assert GetPathIndex(m.path) < |GetChildren(nodes, target)| + 1;
      }
    }
  }

  /** Adding a child keeps the store's invariants, and the target's children
      again hold indices up to their count. */
  lemma AddChildKeepsShape(nodes: seq<Node>, target: Node, data: Payload, newId: Id)
    requires ValidStore(nodes) && DistinctPaths(nodes) && ParentClosed(nodes)
    requires target in nodes && ValidPath(target.path)
    requires |GetChildren(nodes, target)| < 9999
    requires SiblingIndicesBelow(nodes, target.path, |GetChildren(nodes, target)| + 1)
    ensures ValidStore(AddChild(nodes, target, data, newId))
    ensures DistinctPaths(AddChild(nodes, target, data, newId))
    ensures ParentClosed(AddChild(nodes, target, data, newId))
    ensures SiblingIndicesBelow(AddChild(nodes, target, data, newId), target.path,
                                |GetChildren(AddChild(nodes, target, data, newId), target)| + 1)
  {
    var r := AddChild(nodes, target, data, newId);
    var x := r[|nodes|];
    var count := |GetChildren(nodes, target)|;
    assert r == nodes + [x];
    AddChildSlotFree(nodes, target, data, newId);
    AppendKeepsDistinctPaths(nodes, x);
    assert HasPath(nodes, GetParentPath(x.path));
    AppendKeepsParentClosed(nodes, x);
    AddChildListsNewChild(nodes, target, data, newId);
    assert |GetChildren(r, target)| == count + 1;
  }

  /** The positions `addSibling` accepts. */
  predicate IsSiblingPosition(pos: string)
  {
    pos == "first" || pos == "last" || pos == "left" || pos == "right"
  }

  /** `r` is `nodes`, with paths possibly rewritten, followed by one new record
      with the given key and payload. */
  predicate AddsOneRecord(nodes: seq<Node>, r: seq<Node>, newId: Id, data: Payload)
  {
    && |r| == |nodes| + 1
    && r[|nodes|].id == newId && r[|nodes|].data == data
    && forall i :: 0 <= i < |nodes| ==>
         r[i].id == nodes[i].id && r[i].numChild == nodes[i].numChild && r[i].data == nodes[i].data
  }

  /** "left" and "right": make room at the new index, then add the record there. */
  function AddBeside(nodes: seq<Node>, target: Node, pos: string, data: Payload, newId: Id): (r: seq<Node>)
    requires ValidPath(target.path)
    ensures AddsOneRecord(nodes, r, newId, data)
    ensures r[|nodes|].path == BesidePath(target, pos)
  {
    var p := BesidePath(target, pos);
    ShiftSiblings(nodes, GetParentPath(target.path), GetPathIndex(p), 1) + [NewRecord(newId, p, data)]
  }

  /** "first": every sibling moves one index up and the new record takes index 1. */
  function AddFirst(nodes: seq<Node>, target: Node, data: Payload, newId: Id): (r: seq<Node>)
    requires ValidPath(target.path)
    ensures AddsOneRecord(nodes, r, newId, data)
    ensures ValidPath(r[|nodes|].path) && GetParentPath(r[|nodes|].path) == GetParentPath(target.path)
    ensures GetPathIndex(r[|nodes|].path) == 1
  {
    var parent := GetParentPath(target.path);
    ParentAligned(target.path);
    SlotPath(parent, 1);
    ShiftSiblings(nodes, parent, 0, 1) + [NewRecord(newId, CalcPathAppend(parent, IndexToPath(1)), data)]
  }

  /** "last": the new record takes the index after the siblings' count. */
  function AddLast(nodes: seq<Node>, target: Node, data: Payload, newId: Id): (r: seq<Node>)
    requires ValidPath(target.path)
    ensures AddsOneRecord(nodes, r, newId, data) && r[..|nodes|] == nodes
    ensures |GetSiblings(nodes, target)| < 9999 ==>
              ValidPath(r[|nodes|].path) && GetParentPath(r[|nodes|].path) == GetParentPath(target.path)
              && GetPathIndex(r[|nodes|].path) == |GetSiblings(nodes, target)| + 1
  {
    var parent := GetParentPath(target.path);
    ParentAligned(target.path);
    var count := |GetSiblings(nodes, target)|;
    var r := nodes + [NewRecord(newId, CalcPathAppend(parent, IndexToPath(count + 1)), data)];
    if count < 9999 then
      SlotPath(parent, count + 1);
      r
    else r
  }

  /** `addSibling(target, pos, data)`. Any position other than "first", "last",
      "left" and "right" throws "Invalid path" before anything is written. */
  function AddSibling(nodes: seq<Node>, target: Node, pos: string, data: Payload, newId: Id): (r: Result<seq<Node>, ModelError>)
    requires ValidPath(target.path)
    ensures r.Err? <==> !IsSiblingPosition(pos)
    ensures r.Err? ==> r.error == InvalidPath
    ensures r.Ok? ==> AddsOneRecord(nodes, r.value, newId, data)
  {
    if pos == "first" then Ok(AddFirst(nodes, target, data, newId))
    else if pos == "last" then Ok(AddLast(nodes, target, data, newId))
    else if pos == "left" || pos == "right" then Ok(AddBeside(nodes, target, pos, data, newId))
    else Err(InvalidPath)
  }

  /** "left" and "right": the siblings at or after the new index move one index
      up, each with its subtree; the siblings before it and every record outside
      the parent's subtree are untouched. */
  lemma AddBesideShiftsSiblings(nodes: seq<Node>, target: Node, pos: string, data: Payload, newId: Id, i: int)
    requires ValidPath(target.path) && 0 <= i < |nodes|
    ensures IsSiblingUnder(nodes[i], GetParentPath(target.path)) && ValidPath(nodes[i].path) ==>
              if GetPathIndex(nodes[i].path) >= GetPathIndex(BesidePath(target, pos))
              then AddBeside(nodes, target, pos, data, newId)[i].path == CalcPathShift(nodes[i].path, 1)
              else AddBeside(nodes, target, pos, data, newId)[i] == nodes[i]
    ensures !IsPrefix(GetParentPath(target.path), nodes[i].path) ==> AddBeside(nodes, target, pos, data, newId)[i] == nodes[i]
  {
    var parent, k := GetParentPath(target.path), GetPathIndex(BesidePath(target, pos));
    var r := AddBeside(nodes, target, pos, data, newId);
    assert r[i] == ShiftSiblings(nodes, parent, k, 1)[i];
    if IsSiblingUnder(nodes[i], parent) && ValidPath(nodes[i].path) {
      if GetPathIndex(nodes[i].path) >= k {
        ShiftMovesLaterSiblings(nodes, parent, k, 1, i);
      } else {
        ShiftKeepsEarlierSiblings(nodes, parent, k, 1, i);
      }
    }
    if !IsPrefix(parent, nodes[i].path) {
      ShiftKeepsOutside(nodes, parent, k, 1, i);
    }
  }

  /** "left" and "right" never put two records at one path, as long as the
      target's siblings leave room for one more index. */
  lemma AddBesideKeepsPathsDistinct(nodes: seq<Node>, target: Node, pos: string, data: Payload, newId: Id)
    requires ValidStore(nodes) && DistinctPaths(nodes) && ParentClosed(nodes)
    requires target in nodes && ValidPath(target.path)
    requires SiblingIndicesBelow(nodes, GetParentPath(target.path), 9999)
    ensures DistinctPaths(AddBeside(nodes, target, pos, data, newId))
  {
    var parent, p := GetParentPath(target.path), BesidePath(target, pos);
    var k := GetPathIndex(p);
    assert IsSiblingUnder(target, parent);
    SlotOf(p);
    var shifted, x := ShiftSiblings(nodes, parent, k, 1), NewRecord(newId, p, data);
    assert AddBeside(nodes, target, pos, data, newId) == shifted + [x];
    ShiftKeepsPathsDistinct(nodes, parent, k, 1);
    ShiftVacatesSlot(nodes, parent, k);
    AppendKeepsDistinctPaths(shifted, x);
  }

  /** "first" never puts two records at one path when index 0 is free and the
      siblings leave room for one more index. */
  lemma AddFirstKeepsPathsDistinct(nodes: seq<Node>, target: Node, data: Payload, newId: Id)
    requires ValidStore(nodes) && DistinctPaths(nodes) && ParentClosed(nodes)
    requires ValidPath(target.path)
    requires SiblingIndicesBelow(nodes, GetParentPath(target.path), 9999)
    requires !HasPath(nodes, GetParentPath(target.path) + IndexToPath(0))
    ensures DistinctPaths(AddFirst(nodes, target, data, newId))
  {
    var parent := GetParentPath(target.path);
    var r := AddFirst(nodes, target, data, newId);
    var x := r[|nodes|];
    ParentAligned(target.path);
    ShiftFromZero(nodes, parent, 1);
    var shifted := ShiftSiblings(nodes, parent, 1, 1);
    assert r == shifted + [x];
    assert x.path == parent + IndexToPath(1);
    ShiftKeepsPathsDistinct(nodes, parent, 1, 1);
    ShiftVacatesSlot(nodes, parent, 1);
    AppendKeepsDistinctPaths(shifted, x);
  }

  /** "last" never puts two records at one path when the siblings hold indices
      up to their count. */
  lemma AddLastKeepsPathsDistinct(nodes: seq<Node>, target: Node, data: Payload, newId: Id)
    requires ValidStore(nodes) && DistinctPaths(nodes) && ValidPath(target.path)
    requires |GetSiblings(nodes, target)| < 9999
    requires SiblingIndicesBelow(nodes, GetParentPath(target.path), |GetSiblings(nodes, target)| + 1)
    ensures DistinctPaths(AddLast(nodes, target, data, newId))
  {
    var r := AddLast(nodes, target, data, newId);
    var x := r[|nodes|];
    var parent := GetParentPath(target.path);
    assert r == nodes + [x];
    forall m | m in nodes
      ensures m.path != x.path
    {
      if IsSiblingUnder(m, parent) {
        assert GetPathIndex(m.path) < |GetSiblings(nodes, target)| + 1;
      }
    }
    AppendKeepsDistinctPaths(nodes, x);
  }

  /** The records `remove(node)` keeps: it deletes by key, so every record
      whose key is the node's or one of its descendants' goes. */
  function Kept(nodes: seq<Node>, node: Node): (r: seq<Node>)
    requires ValidPath(node.path)
    ensures forall x :: x in r <==> x in nodes && x.id != node.id && x.id !in Ids(GetDescendants(nodes, node))
  {
    var gone := Ids(GetDescendants(nodes, node));
    Filter(nodes, (n: Node) => n.id != node.id && n.id !in gone)
  }

  /** `remove(node)`: delete the node's descendants and the node itself by key,
      then move every sibling with a greater index one index down, each with
      its subtree. The shifts read the store as it was before the call. */
  function Remove(nodes: seq<Node>, node: Node): (r: seq<Node>)
    requires ValidPath(node.path)
    ensures Ids(r) == Ids(Kept(nodes, node))
    ensures node.id !in Ids(r)
    ensures forall d :: d in GetDescendants(nodes, node) ==> d.id !in Ids(r)
  {
    var kept := Kept(nodes, node);
    var r := ShiftEach(nodes, kept, GetParentPath(node.path), GetPathIndex(node.path) + 1, -1);
    SameIdsPerIndex(kept, r);
    r
  }

  /** In a store with one record per key and per path, `remove(node)` is the
      removal of the subtree at the node's path followed by the left shift. */
  lemma RemoveIsRemoveSubtree(nodes: seq<Node>, node: Node)
    requires DistinctIds(nodes) && DistinctPaths(nodes) && node in nodes && ValidPath(node.path)
    ensures Remove(nodes, node) == RemoveSubtree(nodes, node.path)
  {
    KeptAreSurvivors(nodes, node);
    SurvivorsShiftAlike(nodes, node);
  }

  /** Shifting the survivors reads the same sibling records from the store
      before the deletion as from the survivors. */
  lemma SurvivorsShiftAlike(nodes: seq<Node>, node: Node)
    requires ValidPath(node.path)
    ensures ShiftEach(nodes, Survivors(nodes, node.path), GetParentPath(node.path), GetPathIndex(node.path) + 1, -1)
         == ShiftSiblings(Survivors(nodes, node.path), GetParentPath(node.path), GetPathIndex(node.path) + 1, -1)
  {
    var parent, from := GetParentPath(node.path), GetPathIndex(node.path) + 1;
    var s := Survivors(nodes, node.path);
    var a, b := ShiftEach(nodes, s, parent, from, -1), ShiftSiblings(s, parent, from, -1);
    forall i | 0 <= i < |s|
      ensures a[i] == b[i]
    {
      assert a[i] == ShiftNode(nodes, s[i], parent, from, -1);
      assert b[i] == ShiftNode(s, s[i], parent, from, -1);
      assert s[i] in s;
      SurvivorShiftsAlike(nodes, node, s[i]);
    }
  }

  /** With one record per key and per path, the records kept by key are the
      records outside the node's subtree. */
  lemma KeptAreSurvivors(nodes: seq<Node>, node: Node)
    requires DistinctIds(nodes) && DistinctPaths(nodes) && ValidPath(node.path) && node in nodes
    ensures Kept(nodes, node) == Survivors(nodes, node.path)
  {
    var gone := Ids(GetDescendants(nodes, node));
    forall x | x in nodes
      ensures (x.id != node.id && x.id !in gone) == !IsPrefix(node.path, x.path)
    {
      KeyGoneIffBelow(nodes, node, x);
    }
    FilterCongruent(nodes, (n: Node) => n.id != node.id && n.id !in gone,
                    (n: Node) => !IsPrefix(node.path, n.path));
  }

  /** With one record per key and per path, a record's key is deleted by
      `remove(node)` exactly when the record lies in the node's subtree. */
  lemma KeyGoneIffBelow(nodes: seq<Node>, node: Node, x: Node)
    requires DistinctIds(nodes) && DistinctPaths(nodes) && ValidPath(node.path) && node in nodes && x in nodes
    ensures (x.id == node.id || x.id in Ids(GetDescendants(nodes, node))) <==> IsPrefix(node.path, x.path)
  {
    if IsPrefix(node.path, x.path) {
      if x.path == node.path {
        SamePathSameRecord(nodes, x, node);
      } else {
        assert x in GetDescendants(nodes, node);
      }
    }
    if x.id == node.id {
      SameKeySameRecord(nodes, x, node);
    } else if x.id in Ids(GetDescendants(nodes, node)) {
      var d :| d in GetDescendants(nodes, node) && d.id == x.id;
      SameKeySameRecord(nodes, x, d);
    }
  }

  lemma SameKeySameRecord(nodes: seq<Node>, a: Node, b: Node)
    requires DistinctIds(nodes) && a in nodes && b in nodes && a.id == b.id
    ensures a == b
  {
    var i :| 0 <= i < |nodes| && nodes[i] == a;
    var k :| 0 <= k < |nodes| && nodes[k] == b;
    SameIdSameIndex(nodes, i, k);
  }

  /** A survivor shifts the same whether the shift reads the store before or
      after the deletion: the sibling heading its subtree is not deleted. */
  lemma SurvivorShiftsAlike(nodes: seq<Node>, node: Node, n: Node)
    requires ValidPath(node.path) && n in nodes && !IsPrefix(node.path, n.path)
    ensures ShiftNode(nodes, n, GetParentPath(node.path), GetPathIndex(node.path) + 1, -1)
         == ShiftNode(Survivors(nodes, node.path), n, GetParentPath(node.path), GetPathIndex(node.path) + 1, -1)
  {
    var parent, from := GetParentPath(node.path), GetPathIndex(node.path) + 1;
    var s := Survivors(nodes, node.path);
    if InShiftedSubtree(nodes, n, parent, from) {
      var head := HeadUnder(n, parent);
      var m :| m in nodes && m.path == head;
      assert |head| == |node.path|;
      assert head != node.path;
      assert m in s;
    }
  }
}
