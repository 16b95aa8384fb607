/** Where the writes of `src/assets/js/model.js` land. Every deletion and
    every path update of the cached model goes through `getRefById(id)`, which
    builds the query `rootRef.orderByKey().equalTo(id)` and returns its
    `ref()`. The `ref()` of a query is the location the query was built on,
    the store root, not the record the query selects. This module sets the
    written reference beside the intended one on `remove(node)`, the one
    mutation whose effect on the records it changes outright. */
module CachedRefs {
  import opened PathCodec
  import opened Nodes
  import opened CachedModel

  /** A location a write can be sent to. */
  datatype Location = StoreRoot | RecordKey(id: Id)

  /** `getRefById(id)` as written: the query's own location, the root, for
      every key. */
  function RefByIdAsWritten(id: Id): Location
  {
    StoreRoot
  }

  /** `getRefById(id)` as its comment describes it: the record under the key. */
  function RefById(id: Id): Location
  {
    RecordKey(id)
  }

  /** `ref.remove()` on the records: removing the root removes every record,
      removing a key removes the records stored under it. */
  function RemoveAt(nodes: seq<Node>, loc: Location): (r: seq<Node>)
    ensures loc == StoreRoot ==> r == []
    ensures loc.RecordKey? ==> forall x :: x in r <==> x in nodes && x.id != loc.id
  {
    if loc == StoreRoot then [] else Filter(nodes, (n: Node) => n.id != loc.id)
  }

  /** The keys of a list of records, in list order. */
  function KeysOf(s: seq<Node>): (ks: seq<Id>)
    ensures |ks| == |s|
    ensures forall k :: k in ks <==> k in Ids(s)
  {
    if s == [] then []
    else
      assert forall n :: n in s <==> n == s[0] || n in s[1..];
      [s[0].id] + KeysOf(s[1..])
  }

  /** The keys `remove(node)` deletes, in the order it deletes them: the
      descendants as listed, then the node. */
  function DeletedKeys(nodes: seq<Node>, node: Node): (ks: seq<Id>)
    requires ValidPath(node.path)
    ensures forall k :: k in ks <==> k == node.id || k in Ids(GetDescendants(nodes, node))
  {
    KeysOf(GetDescendants(nodes, node)) + [node.id]
  }

  /** One `getRefById(k).remove()` per key, in order, each reference made by
      `ref`. */
  function RemoveKeys(nodes: seq<Node>, ks: seq<Id>, ref: Id -> Location): seq<Node>
    decreases |ks|
  {
    if ks == [] then nodes else RemoveKeys(RemoveAt(nodes, ref(ks[0])), ks[1..], ref)
  }

  /** Sent to the records' own keys, the deletions remove exactly the records
      whose key is among the deleted ones. */
  lemma {:induction false} RemoveKeysByKey(nodes: seq<Node>, ks: seq<Id>)
    ensures forall x :: x in RemoveKeys(nodes, ks, RefById) <==> x in nodes && x.id !in ks
    decreases |ks|
  {
    if ks != [] {
      var next := RemoveAt(nodes, RefById(ks[0]));
      RemoveKeysByKey(next, ks[1..]);
      assert forall k :: k in ks <==> k == ks[0] || k in ks[1..];
    }
  }

  /** Sent to the root, the first deletion already removes every record, and
      the later ones find nothing left. */
  lemma {:induction false} RemoveKeysAtRoot(nodes: seq<Node>, ks: seq<Id>)
    requires ks != []
    ensures RemoveKeys(nodes, ks, RefByIdAsWritten) == []
    decreases |ks|
  {
    if ks[1..] != [] {
      RemoveKeysAtRoot([], ks[1..]);
    }
  }

  /** The deletions of `remove(node)` with every reference made by `ref`. The
      path updates that follow them are left out here: sent to the root they
      set a `path` field on the root and rewrite no record. */
  function RemoveDeletes(nodes: seq<Node>, node: Node, ref: Id -> Location): seq<Node>
    requires ValidPath(node.path)
  {
    RemoveKeys(nodes, DeletedKeys(nodes, node), ref)
  }

  /** With the intended references, the deletions leave exactly the records
      `CachedModel.Kept` describes, which `CachedModel.Remove` then re-indexes. */
  lemma DeletesByKeyAreKept(nodes: seq<Node>, node: Node)
    requires ValidPath(node.path)
    ensures forall x :: x in RemoveDeletes(nodes, node, RefById) <==> x in Kept(nodes, node)
  {
    RemoveKeysByKey(nodes, DeletedKeys(nodes, node));
  }

  /** With the references as written, removing any node empties the store:
      a record the intended removal keeps, because it lies outside the node's
      subtree, is gone as well. */
  lemma DeletesAtRootLoseKeptRecord(nodes: seq<Node>, node: Node, x: Node)
    requires ValidPath(node.path) && x in Kept(nodes, node)
    ensures RemoveDeletes(nodes, node, RefByIdAsWritten) == []
    ensures x !in RemoveDeletes(nodes, node, RefByIdAsWritten) && x in RemoveDeletes(nodes, node, RefById)
  {
    RemoveKeysAtRoot(nodes, DeletedKeys(nodes, node));
    DeletesByKeyAreKept(nodes, node);
  }
}
