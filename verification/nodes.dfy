/** Node records, the snapshot they are read from, and the list helpers every
    query is assembled from: filtering (a `for … of` loop that pushes matches),
    `Array.prototype.find` and sorting by path. */
module Nodes {
  import opened JsText
  import opened PathCodec
  import opened PathOrder
  import opened Outcomes

  /** The store's key for a record. */
  type Id = string

  /** Fields the engine copies but never interprets. */
  datatype Payload = Payload(title: string, uid: string)

  /** A stored record as the store returns it, without its key. */
  datatype Record = Record(path: Path, depth: int, numChild: int, data: Payload)

  /** A record together with its key, as the parse step builds it. */
  datatype Node = Node(id: Id, path: Path, depth: int, numChild: int, data: Payload)

  /** `snapshot.val()`: the records under the queried location, by key. */
  type Snapshot = map<Id, Record>

  function WithId(id: Id, rec: Record): Node
  {
    Node(id, rec.path, rec.depth, rec.numChild, rec.data)
  }

  function RecordOf(n: Node): Record
  {
    Record(n.path, n.depth, n.numChild, n.data)
  }

  /** The keys present in a node list. */
  function Ids(nodes: seq<Node>): set<Id>
  {
    set n | n in nodes :: n.id
  }

  predicate DistinctIds(nodes: seq<Node>)
  {
    forall i, j :: 0 <= i < j < |nodes| ==> nodes[i].id != nodes[j].id
  }

  /** The elements of `s` that `keep` accepts, in their original order. */
  function Filter(s: seq<Node>, keep: Node -> bool): (r: seq<Node>)
    ensures |r| <= |s|
    ensures forall x :: x in r <==> x in s && keep(x)
    ensures forall x :: multiset(r)[x] == if keep(x) then multiset(s)[x] else 0
  {
    if s == [] then []
    else
      assert s == [s[0]] + s[1..];
      (if keep(s[0]) then [s[0]] else []) + Filter(s[1..], keep)
  }

  /** Filtering a list with one more element at its end. */
  lemma {:induction false} FilterAppend(s: seq<Node>, x: Node, keep: Node -> bool)
    ensures Filter(s + [x], keep) == Filter(s, keep) + (if keep(x) then [x] else [])
  {
    var t := s + [x];
    if s == [] {
      assert t[1..] == [];
    } else {
      assert t[0] == s[0] && t[1..] == s[1..] + [x];
      FilterAppend(s[1..], x, keep);
      var head := if keep(s[0]) then [s[0]] else [];
      assert Filter(t, keep) == head + Filter(t[1..], keep);
      assert Filter(s, keep) == head + Filter(s[1..], keep);
      var mid, tail := Filter(s[1..], keep), if keep(x) then [x] else [];
      ConcatAssociative(head, mid, tail);
    }
  }

  lemma ConcatAssociative(a: seq<Node>, b: seq<Node>, c: seq<Node>)
    ensures a + (b + c) == (a + b) + c
  {
  }

  /** Two tests that agree on every element filter alike. */
  lemma {:induction false} FilterCongruent(s: seq<Node>, f: Node -> bool, g: Node -> bool)
    requires forall x :: x in s ==> f(x) == g(x)
    ensures Filter(s, f) == Filter(s, g)
  {
    if s != [] {
      assert forall x :: x in s[1..] ==> x in s;
      FilterCongruent(s[1..], f, g);
    }
  }

  /** `Array.prototype.find`: the first element `keep` accepts, if any. */
  function FindFirst(s: seq<Node>, keep: Node -> bool): (r: Option<Node>)
    ensures r.Some? ==> r.value in s && keep(r.value)
    ensures r.None? <==> forall x :: x in s ==> !keep(x)
    ensures r.Some? ==> exists i :: 0 <= i < |s| && s[i] == r.value && forall j :: 0 <= j < i ==> !keep(s[j])
  {
    if s == [] then None
    else if keep(s[0]) then Some(s[0])
    else
      var r := FindFirst(s[1..], keep);
      assert forall x :: x in s ==> x == s[0] || x in s[1..];
      if r.Some? then
        var i :| 0 <= i < |s[1..]| && s[1..][i] == r.value && forall j :: 0 <= j < i ==> !keep(s[1..][j]);
        assert s[i + 1] == r.value;
        r
      else r
  }

  predicate SortedByPath(s: seq<Node>)
  {
    forall i, j :: 0 <= i < j < |s| ==> LexLe(s[i].path, s[j].path)
  }

  /** A sorted list stays sorted behind a node whose path sorts before all
      of it. */
  lemma ConsKeepsSorted(x: Node, rest: seq<Node>)
    requires SortedByPath(rest)
    requires forall y :: y in rest ==> LexLe(x.path, y.path)
    ensures SortedByPath([x] + rest)
  {
    var r := [x] + rest;
    forall i, j | 0 <= i < j < |r|
      ensures LexLe(r[i].path, r[j].path)
    {
      assert r[j] == rest[j - 1];
      if i > 0 {
        assert r[i] == rest[i - 1];
      }
    }
  }

  /** The tail of a sorted list is sorted. */
  lemma TailSorted(s: seq<Node>)
    requires SortedByPath(s) && s != []
    ensures SortedByPath(s[1..])
  {
    forall i, j | 0 <= i < j < |s[1..]|
      ensures LexLe(s[1..][i].path, s[1..][j].path)
    {
      assert s[1..][i] == s[i + 1] && s[1..][j] == s[j + 1];
    }
  }

  /** Every element of a sorted list sorts after its head. */
  lemma HeadSortsFirst(s: seq<Node>, y: Node)
    requires SortedByPath(s) && y in s
    ensures LexLe(s[0].path, y.path)
  {
    var j :| 0 <= j < |s| && s[j] == y;
    if j == 0 {
      LexLeReflexive(y.path);
    }
  }

  function InsertByPath(x: Node, s: seq<Node>): (r: seq<Node>)
    requires SortedByPath(s)
    ensures SortedByPath(r)
    ensures multiset(r) == multiset(s) + multiset{x}
  {
    if s == [] then [x]
    else if LexLe(x.path, s[0].path) then
      forall y | y in s
        ensures LexLe(x.path, y.path)
      {
        HeadSortsFirst(s, y);
        LexLeTransitive(x.path, s[0].path, y.path);
      }
      ConsKeepsSorted(x, s);
      [x] + s
    else
      LexLeTotal(x.path, s[0].path);
      TailSorted(s);
      var rest := InsertByPath(x, s[1..]);
      assert s == [s[0]] + s[1..];
      forall y | y in rest
        ensures LexLe(s[0].path, y.path)
      {
        assert y in multiset(rest);
        if y != x {
          assert y in s;
          HeadSortsFirst(s, y);
        }
      }
      ConsKeepsSorted(s[0], rest);
      [s[0]] + rest
  }

  /** `nodes.sort((a, b) => a.path.localeCompare(b.path))`: the same nodes,
      reordered so that paths ascend. */
  function SortByPath(s: seq<Node>): (r: seq<Node>)
    ensures SortedByPath(r)
    ensures multiset(r) == multiset(s)
  {
    if s == [] then []
    else
      assert s == [s[0]] + s[1..];
      InsertByPath(s[0], SortByPath(s[1..]))
  }

  /** Sorting keeps exactly the elements it was given. */
  lemma SortKeepsMembers(s: seq<Node>)
    ensures forall x :: x in SortByPath(s) <==> x in s
  {
    var r := SortByPath(s);
    forall x
      ensures x in r <==> x in s
    {
      assert x in r <==> x in multiset(r);
      assert x in s <==> x in multiset(s);
    }
  }

  /** Sorting gives a reordering of the nodes in which paths ascend. */
  lemma SortIsSortedPermutation(s: seq<Node>)
    ensures SortedByPath(SortByPath(s)) && multiset(SortByPath(s)) == multiset(s)
    ensures |SortByPath(s)| == |s|
  {
    assert |SortByPath(s)| == |multiset(SortByPath(s))| == |multiset(s)| == |s|;
  }

  lemma IdsAppend(nodes: seq<Node>, n: Node)
    ensures Ids(nodes + [n]) == Ids(nodes) + {n.id}
  {
    assert forall m :: m in nodes + [n] <==> m in nodes || m == n;
  }

  /** With one record per key, two indices holding the same key are one index. */
  lemma SameIdSameIndex(nodes: seq<Node>, i: int, k: int)
    requires DistinctIds(nodes) && 0 <= i < |nodes| && 0 <= k < |nodes|
    requires nodes[i].id == nodes[k].id
    ensures i == k
  {
  }

  /** Two lists with the same key at every index hold the same keys. */
  lemma SameIdsPerIndex(a: seq<Node>, b: seq<Node>)
    requires |a| == |b| && forall i :: 0 <= i < |a| ==> a[i].id == b[i].id
    ensures Ids(a) == Ids(b)
  {
    forall x | x in a
      ensures x.id in Ids(b)
    {
      var i :| 0 <= i < |a| && a[i] == x;
      assert b[i] in b;
    }
    forall x | x in b
      ensures x.id in Ids(a)
    {
      var i :| 0 <= i < |b| && b[i] == x;
      assert a[i] in a;
    }
  }

  /** One step of `Parse`: appending the node of a key not yet taken keeps the
      loop's invariant. */
  lemma ParseStep(snapshot: Snapshot, nodes: seq<Node>, rest: set<Id>, key: Id)
    requires rest <= snapshot.Keys && key in rest
    requires Ids(nodes) == snapshot.Keys - rest
    requires DistinctIds(nodes)
    ensures Ids(nodes + [WithId(key, snapshot[key])]) == snapshot.Keys - (rest - {key})
    ensures DistinctIds(nodes + [WithId(key, snapshot[key])])
  {
    var n := WithId(key, snapshot[key]);
    IdsAppend(nodes, n);
    forall i | 0 <= i < |nodes|
      ensures nodes[i].id != key
    {
      assert nodes[i] in nodes;
    }
  }

  /** `parse(snapshotVal)`: one node per key of the snapshot, its `id` set to the
      key. The order is whatever order `Object.keys` lists the keys in, which
      this model leaves open. */
  method Parse(snapshot: Snapshot) returns (nodes: seq<Node>)
    ensures |nodes| == |snapshot|
    ensures Ids(nodes) == snapshot.Keys
    ensures DistinctIds(nodes)
    ensures forall n :: n in nodes ==> n.id in snapshot && snapshot[n.id] == RecordOf(n)
  {
    nodes := [];
    var rest := snapshot.Keys;
    while rest != {}
      invariant rest <= snapshot.Keys
      invariant Ids(nodes) == snapshot.Keys - rest
      invariant |nodes| + |rest| == |snapshot.Keys|
      invariant DistinctIds(nodes)
      invariant forall n :: n in nodes ==> n.id in snapshot && snapshot[n.id] == RecordOf(n)
      decreases |rest|
    {
      var key :| key in rest;
      var n := WithId(key, snapshot[key]);
      ParseStep(snapshot, nodes, rest, key);
      nodes := nodes + [n];
      rest := rest - {key};
    }
  }
}
