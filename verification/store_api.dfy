/** The query API the front end reads the tree through. It appears three times
    in the repository, with the same logic: `src/api/v1/api.js`,
    `src/assets/libs/gcci-model/api.js` and `src/assets/js/api.js`. Unlike the
    two model classes, it selects records by their stored `depth` (an
    `orderByChild("depth")` query) and then by a path prefix, and it treats a
    record of depth 1 as a root whose parent path is `null`. */
module StoreApi {
  import opened JsText
  import opened PathCodec
  import opened Outcomes
  import opened Nodes
  import opened TreeShape

  /** How a `getParent` promise ends: resolved with `null` for a root,
      resolved with the parent's record, or never settled because no record is
      at the parent path. */
  datatype ParentReply = RootNull | Parent(record: Record) | NeverResolves

  /** `_isRoot(node)`: the stored depth is 1. Where that depth agrees with
      the path, the roots are exactly the one-segment paths. */
  function IsRoot(n: Node): (b: bool)
    ensures ValidPath(n.path) && n.depth == GetDepth(n.path) ==> (b <==> |n.path| == Width)
  {
    n.depth == 1
  }

  /** `_calcParentPath(node)` (`_getParentPath` in version 1): `null` for a
      root, otherwise the path without its last segment. */
  function ParentPathOf(n: Node): (r: Option<Path>)
    ensures r.None? <==> IsRoot(n)
    ensures r.Some? ==> r.value == GetParentPath(n.path)
  {
    if IsRoot(n) then None else Some(Substr(n.path, 0, |n.path| - 4))
  }

  /** `item.path.substr(0, node.path.length) === node.path`. */
  predicate StartsWith(path: Path, prefix: Path)
  {
    Substr(path, 0, |prefix|) == prefix
  }

  lemma StartsWithIsPrefix(path: Path, prefix: Path)
    ensures StartsWith(path, prefix) <==> IsPrefix(prefix, path)
  {
  }

  /** `_parse(snapshot.val())` with the guard of version 1 and of the library
      copy: an empty snapshot value (`null`) parses to no nodes. */
  method ParseGuarded(val: Option<Snapshot>) returns (nodes: seq<Node>)
    ensures val.None? ==> nodes == []
    ensures val.Some? ==> |nodes| == |val.value| && Ids(nodes) == val.value.Keys && DistinctIds(nodes)
    ensures val.Some? ==> forall n :: n in nodes ==> n.id in val.value && val.value[n.id] == RecordOf(n)
  {
    if val.Some? {
      nodes := Parse(val.value);
    } else {
      nodes := [];
    }
  }

  /** `getChildren(node)`: among the records of depth `node.depth + 1`, those
      whose path starts with the node's, sorted by path. */
  function GetChildren(nodes: seq<Node>, node: Node): (r: seq<Node>)
    ensures SortedByPath(r)
    ensures forall x :: x in r <==> x in nodes && x.depth == node.depth + 1 && IsPrefix(node.path, x.path)
  {
    var level := Filter(nodes, (n: Node) => n.depth == node.depth + 1);
    var found := Filter(level, (n: Node) => StartsWith(n.path, node.path));
    SortKeepsMembers(found);
    SortByPath(found)
  }

  /** `getDescendants(node)`: among the records of depth above the node's,
      those whose path starts with the node's, sorted by path. */
  function GetDescendants(nodes: seq<Node>, node: Node): (r: seq<Node>)
    ensures SortedByPath(r)
    ensures forall x :: x in r <==> x in nodes && x.depth >= node.depth + 1 && IsPrefix(node.path, x.path)
  {
    var deeper := Filter(nodes, (n: Node) => n.depth >= node.depth + 1);
    var found := Filter(deeper, (n: Node) => StartsWith(n.path, node.path));
    SortKeepsMembers(found);
    SortByPath(found)
  }

  /** `getSiblings(node)`: among the records of the node's depth, those with
      the node's parent path (all roots share the `null` one), sorted by path. */
  function GetSiblings(nodes: seq<Node>, node: Node): (r: seq<Node>)
    ensures SortedByPath(r)
    ensures forall x :: x in r <==> x in nodes && x.depth == node.depth && ParentPathOf(x) == ParentPathOf(node)
  {
    var level := Filter(nodes, (n: Node) => n.depth == node.depth);
    var found := Filter(level, (n: Node) => ParentPathOf(n) == ParentPathOf(node));
    SortKeepsMembers(found);
    SortByPath(found)
  }

  /** How a list query of `src/assets/js/api.js` ends. That copy's `_parse`
      has no guard: when the depth query matches no record, `snapshot.val()`
      is `null`, `Object.keys(null)` throws inside the callback, and the
      promise never settles. */
  datatype ListReply = Listed(nodes: seq<Node>) | NeverSettles

  /** The reply built from a depth query that matched `level`: the parsed and
      filtered `answer`, or no reply at all when nothing matched. */
  function ReplyUnguarded(level: seq<Node>, answer: seq<Node>): (r: ListReply)
    ensures r == NeverSettles <==> level == []
    ensures r.Listed? ==> r.nodes == answer
  {
    if level == [] then NeverSettles else Listed(answer)
  }

  /** `getChildren(node)` of `src/assets/js/api.js`: the guarded copy's
      children, unless no record at all has depth `node.depth + 1`. */
  function GetChildrenUnguarded(nodes: seq<Node>, node: Node): (r: ListReply)
    ensures r == NeverSettles <==> forall x :: x in nodes ==> x.depth != node.depth + 1
    ensures r.Listed? ==> r.nodes == GetChildren(nodes, node)
  {
    ReplyUnguarded(Filter(nodes, (n: Node) => n.depth == node.depth + 1), GetChildren(nodes, node))
  }

  /** `getDescendants(node)` of `src/assets/js/api.js`: the guarded copy's
      descendants, unless no record at all is deeper than the node. */
  function GetDescendantsUnguarded(nodes: seq<Node>, node: Node): (r: ListReply)
    ensures r == NeverSettles <==> forall x :: x in nodes ==> x.depth < node.depth + 1
    ensures r.Listed? ==> r.nodes == GetDescendants(nodes, node)
  {
    ReplyUnguarded(Filter(nodes, (n: Node) => n.depth >= node.depth + 1), GetDescendants(nodes, node))
  }

  /** `getSiblings(node)` of `src/assets/js/api.js`: the guarded copy's
      siblings, unless no record at all has the node's depth. */
  function GetSiblingsUnguarded(nodes: seq<Node>, node: Node): (r: ListReply)
    ensures r == NeverSettles <==> forall x :: x in nodes ==> x.depth != node.depth
    ensures r.Listed? ==> r.nodes == GetSiblings(nodes, node)
  {
    ReplyUnguarded(Filter(nodes, (n: Node) => n.depth == node.depth), GetSiblings(nodes, node))
  }

  /** Where stored depths agree with paths, the unguarded copy answers the
      children query exactly when some record sits one level below the node's
      level anywhere in the store, and the descendants query exactly when some
      record is deeper than the node; a stored node always gets its siblings.
      So a leaf gets no descendants answer when it is among the deepest
      records, where the guarded copies answer with no nodes. */
  lemma UnguardedRepliesMatchPaths(nodes: seq<Node>, node: Node)
    requires DepthsAgree(nodes) && ValidPath(node.path) && node.depth == GetDepth(node.path)
    ensures GetChildrenUnguarded(nodes, node).Listed? <==> exists x :: x in nodes && |x.path| == |node.path| + Width
    ensures GetDescendantsUnguarded(nodes, node).Listed? <==> exists x :: x in nodes && |x.path| > |node.path|
    ensures node in nodes ==> GetSiblingsUnguarded(nodes, node).Listed?
    ensures GetChildrenUnguarded(nodes, node).Listed? ==>
              forall x :: x in GetChildrenUnguarded(nodes, node).nodes <==> x in nodes && GetParentPath(x.path) == node.path
  {
    forall x | x in nodes
      ensures x.depth == node.depth + 1 <==> |x.path| == |node.path| + Width
      ensures x.depth >= node.depth + 1 <==> |x.path| > |node.path|
    {
      assert x.depth * Width == |x.path| && node.depth * Width == |node.path|;
    }
    ChildrenMatchPaths(nodes, node);
  }

  /** `getParent(node)`: `null` for a root; otherwise the first record at the
      parent path, or no answer at all when there is none. */
  function GetParent(nodes: seq<Node>, node: Node): (r: ParentReply)
    ensures r == RootNull <==> IsRoot(node)
    ensures r == NeverResolves <==> !IsRoot(node) && !HasPath(nodes, GetParentPath(node.path))
    ensures r.Parent? ==> exists n :: n in nodes && n.path == GetParentPath(node.path) && RecordOf(n) == r.record
  {
    if IsRoot(node) then RootNull
    else
      var f := RecordAt(nodes, GetParentPath(node.path));
      if f.Some? then Parent(RecordOf(f.value)) else NeverResolves
  }

  /** Children are descendants, a node is never its own descendant, and a node
      of the store is among its own siblings. */
  lemma QueriesNest(nodes: seq<Node>, node: Node)
    ensures forall x :: x in GetChildren(nodes, node) ==> x in GetDescendants(nodes, node)
    ensures node !in GetDescendants(nodes, node)
    ensures node in nodes ==> node in GetSiblings(nodes, node)
  {
  }

  /** Where stored depths agree with paths, the depth-indexed queries find
      exactly what the path structure says: the children are the records one
      segment below, and the descendants the records strictly below. */
  lemma ChildrenMatchPaths(nodes: seq<Node>, node: Node)
    requires DepthsAgree(nodes) && ValidPath(node.path) && node.depth == GetDepth(node.path)
    ensures forall x :: x in GetChildren(nodes, node) <==> x in nodes && GetParentPath(x.path) == node.path
    ensures forall x :: x in GetDescendants(nodes, node) <==> x in nodes && IsDescendantPath(x.path, node.path)
  {
    forall x | x in nodes
      ensures x in GetChildren(nodes, node) <==> GetParentPath(x.path) == node.path
      ensures x in GetDescendants(nodes, node) <==> IsDescendantPath(x.path, node.path)
    {
      assert x.depth * Width == |x.path| && node.depth * Width == |node.path|;
    }
  }

  /** Where stored depths agree with paths, the siblings are the records with
      the node's parent path, roots included. */
  lemma SiblingsMatchPaths(nodes: seq<Node>, node: Node)
    requires DepthsAgree(nodes) && ValidPath(node.path) && node.depth == GetDepth(node.path)
    ensures forall x :: x in GetSiblings(nodes, node) <==> x in nodes && GetParentPath(x.path) == GetParentPath(node.path)
  {
    forall x | x in nodes
      ensures x in GetSiblings(nodes, node) <==> GetParentPath(x.path) == GetParentPath(node.path)
    {
      assert x.depth * Width == |x.path| && node.depth * Width == |node.path|;
      if GetParentPath(x.path) == GetParentPath(node.path) {
        assert |x.path| == |node.path|;
      }
    }
  }

  /** The parent a child reports is the record it was listed under. */
  lemma ParentOfChild(nodes: seq<Node>, p: Node, c: Node)
    requires DepthsAgree(nodes) && DistinctPaths(nodes) && p in nodes
    requires c in GetChildren(nodes, p)
    ensures GetParent(nodes, c) == Parent(RecordOf(p))
  {
    ChildrenMatchPaths(nodes, p);
    assert c.depth == p.depth + 1 && p.depth >= 1;
    RecordAtUnique(nodes, p);
  }
}
