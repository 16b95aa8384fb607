/** The record rewrites every mutation is built from, as pure transformations
    of the store: re-pathing a subtree (`updatePath`), shifting the siblings at
    or after an index together with their subtrees, and removing a subtree.
    All reads come from the store as it was before the operation; every record
    keeps its position in the list, its key and its payload. */
module StoreEdit {
  import opened JsText
  import opened PathCodec
  import opened Nodes
  import opened TreeShape

  /** One record's share of `updatePath(node, newPath)` with `node.path == from`:
      a record at `from` or below it is moved under `to`, keeping the part of its
      path below `from`, and its depth is recomputed from the new path. */
  function Rebase(n: Node, from: Path, to: Path): (r: Node)
    ensures r.id == n.id && r.numChild == n.numChild && r.data == n.data
    ensures !IsPrefix(from, n.path) ==> r == n
    ensures IsPrefix(from, n.path) ==>
              IsPrefix(to, r.path) && |r.path| - |to| == |n.path| - |from| && r.path[|to|..] == n.path[|from|..]
    ensures IsPrefix(from, n.path) && |r.path| % Width == 0 ==> r.depth * Width == |r.path|
  {
    if IsPrefix(from, n.path) then
      var p := CalcPathAppend(to, SubstrFrom(n.path, |from|));
      n.(path := p, depth := SegmentCount(p))
    else n
  }

  /** The record `addChild` and `addSibling` push. It has the depth its path
      implies and no children. */
  function NewRecord(id: Id, path: Path, data: Payload): (n: Node)
    ensures n.id == id && n.path == path && n.data == data
    ensures |path| % Width == 0 ==> n.depth * Width == |path|
    ensures n.numChild == 0
  {
    Node(id, path, SegmentCount(path), 0, data)
  }

  /** The path "left" or "right" gives the new sibling: the target's own, or the
      target's with its index moved one up. */
  function BesidePath(target: Node, pos: string): (p: Path)
    requires ValidPath(target.path)
    ensures ValidPath(p) && GetParentPath(p) == GetParentPath(target.path)
    ensures pos == "left" ==> GetPathIndex(p) == GetPathIndex(target.path)
    ensures pos != "left" && GetPathIndex(target.path) < 9999 ==> GetPathIndex(p) == GetPathIndex(target.path) + 1
  {
    ShiftRightStaysValid(target.path);
    if pos == "left" then target.path else CalcPathShift(target.path, 1)
  }

  /** `updatePath(node, newPath)` applied to the whole store, `from` being the
      node's path. */
  function UpdatePath(nodes: seq<Node>, from: Path, to: Path): (r: seq<Node>)
    ensures |r| == |nodes|
    ensures forall i :: 0 <= i < |nodes| ==>
              r[i].id == nodes[i].id && r[i].numChild == nodes[i].numChild && r[i].data == nodes[i].data
    ensures forall i :: 0 <= i < |nodes| && IsPrefix(from, nodes[i].path) ==>
              r[i].path == to + nodes[i].path[|from|..] && r[i].depth == SegmentCount(r[i].path)
    ensures forall i :: 0 <= i < |nodes| && !IsPrefix(from, nodes[i].path) ==> r[i] == nodes[i]
  {
    seq(|nodes|, i requires 0 <= i < |nodes| => Rebase(nodes[i], from, to))
  }

  /** Re-pathing keeps the shape of the moved subtree: one moved record lies
      below another after the move exactly when it did before, and each record
      keeps its distance below the subtree's top. */
  lemma RebaseKeepsNesting(x: Node, y: Node, from: Path, to: Path)
    requires IsPrefix(from, x.path) && IsPrefix(from, y.path)
    ensures IsDescendantPath(Rebase(x, from, to).path, Rebase(y, from, to).path) <==> IsDescendantPath(x.path, y.path)
    ensures |Rebase(x, from, to).path| - |to| == |x.path| - |from|
  {
    var xr, yr := x.path[|from|..], y.path[|from|..];
    assert x.path == from + xr && y.path == from + yr;
    PrefixCancel(to, yr, xr);
    PrefixCancel(from, yr, xr);
  }

  /** A common leading part does not change whether one string starts another. */
  lemma PrefixCancel(c: string, u: string, v: string)
    ensures IsPrefix(c + u, c + v) <==> IsPrefix(u, v)
  {
    if IsPrefix(c + u, c + v) {
      assert (c + v)[..|c + u|] == c + v[..|u|];
      assert v[..|u|] == (c + v[..|u|])[|c|..];
    }
    if IsPrefix(u, v) {
      assert (c + v)[..|c + u|] == c + v[..|u|];
    }
  }

  /** Moving a subtree to a place no other record occupies and moving it back
      restores the store, provided depths agreed with paths. */
  lemma UpdatePathRoundTrip(nodes: seq<Node>, from: Path, to: Path)
    requires forall n :: n in nodes && !IsPrefix(from, n.path) ==> !IsPrefix(to, n.path)
    requires forall n :: n in nodes && IsPrefix(from, n.path) ==> n.depth == SegmentCount(n.path)
    ensures UpdatePath(UpdatePath(nodes, from, to), to, from) == nodes
  {
    var moved := UpdatePath(nodes, from, to);
    var back := UpdatePath(moved, to, from);
    forall i | 0 <= i < |nodes|
      ensures back[i] == nodes[i]
    {
      var n := nodes[i];
      if IsPrefix(from, n.path) {
        ReattachTail(from, to, n.path);
        assert back[i].path == n.path;
      } else {
        assert nodes[i] in nodes;
      }
    }
  }

  /** Moving the part of `p` below `from` under `to` and back gives `p`. */
  lemma ReattachTail(from: Path, to: Path, p: Path)
    requires IsPrefix(from, p)
    ensures IsPrefix(to, to + p[|from|..]) && (to + p[|from|..])[|to|..] == p[|from|..]
    ensures from + p[|from|..] == p
  {
    assert p == p[..|from|] + p[|from|..];
  }

  /** The path of the record one level below `parent` whose subtree holds `n`. */
  function HeadUnder(n: Node, parent: Path): Path
    requires |n.path| >= |parent| + Width
  {
    n.path[..|parent| + Width]
  }

  /** `n` is a record of the subtree of a sibling under `parent` whose index is
      at least `from`; the sibling itself must be a record of the store, since
      the source finds siblings among the records and their subtrees below them. */
  predicate InShiftedSubtree(nodes: seq<Node>, n: Node, parent: Path, from: int)
  {
    && |n.path| >= |parent| + Width
    && IsPrefix(parent, n.path)
    && ValidPath(HeadUnder(n, parent))
    && GetPathIndex(HeadUnder(n, parent)) >= from
    && HasPath(nodes, HeadUnder(n, parent))
  }

  /** One record's share of "for each sibling with index >= from:
      `updatePath(s, calcPathShift(s.path, delta))`": the record's head segment
      under `parent` is replaced by the moved index's segment. The stored depth
      is kept: a shift within 0..9999 keeps the path's length, so this is the
      source's `updatePath` with `calcPathShift` whenever the depth agreed with
      the path (`ShiftNodeIsUpdatePath`). */
  function ShiftNode(nodes: seq<Node>, n: Node, parent: Path, from: int, delta: int): Node
  {
    if InShiftedSubtree(nodes, n, parent, from) then
      n.(path := parent + IndexToPath(GetPathIndex(HeadUnder(n, parent)) + delta) + n.path[|parent| + Width..])
    else n
  }

  /** Every sibling under `parent` with index at least `from` moves by `delta`,
      carrying its subtree along; all other records stay as they are. */
  function ShiftSiblings(nodes: seq<Node>, parent: Path, from: int, delta: int): (r: seq<Node>)
    ensures |r| == |nodes|
    ensures forall i :: 0 <= i < |nodes| ==>
              r[i].id == nodes[i].id && r[i].numChild == nodes[i].numChild && r[i].data == nodes[i].data
    ensures forall i :: 0 <= i < |nodes| && !InShiftedSubtree(nodes, nodes[i], parent, from) ==> r[i] == nodes[i]
  {
    seq(|nodes|, i requires 0 <= i < |nodes| => ShiftNode(nodes, nodes[i], parent, from, delta))
  }

  /** The same shift applied to the records of `list`, reading sibling records
      from `ctx`: what a shift issues when the list it writes to is not the
      store it read. */
  function ShiftEach(ctx: seq<Node>, list: seq<Node>, parent: Path, from: int, delta: int): (r: seq<Node>)
    ensures |r| == |list|
    ensures forall i :: 0 <= i < |list| ==>
              r[i].id == list[i].id && r[i].numChild == list[i].numChild && r[i].data == list[i].data
  {
    seq(|list|, i requires 0 <= i < |list| => ShiftNode(ctx, list[i], parent, from, delta))
  }

  /** Records outside `parent` are not touched by a shift under it. */
  lemma ShiftKeepsOutside(nodes: seq<Node>, parent: Path, from: int, delta: int, i: int)
    requires 0 <= i < |nodes| && !IsPrefix(parent, nodes[i].path)
    ensures ShiftSiblings(nodes, parent, from, delta)[i] == nodes[i]
  {
  }

  /** Siblings before `from` keep their place. */
  lemma ShiftKeepsEarlierSiblings(nodes: seq<Node>, parent: Path, from: int, delta: int, i: int)
    requires 0 <= i < |nodes| && ValidPath(nodes[i].path) && IsSiblingUnder(nodes[i], parent)
    requires GetPathIndex(nodes[i].path) < from
    ensures ShiftSiblings(nodes, parent, from, delta)[i] == nodes[i]
  {
    assert HeadUnder(nodes[i], parent) == nodes[i].path;
  }

  /** A sibling at or after `from` gets `calcPathShift(s.path, delta)`. */
  lemma ShiftMovesLaterSiblings(nodes: seq<Node>, parent: Path, from: int, delta: int, i: int)
    requires 0 <= i < |nodes| && ValidPath(nodes[i].path) && IsSiblingUnder(nodes[i], parent)
    requires GetPathIndex(nodes[i].path) >= from
    ensures ShiftSiblings(nodes, parent, from, delta)[i].path == CalcPathShift(nodes[i].path, delta)
  {
    assert ShiftSiblings(nodes, parent, from, delta)[i] == ShiftNode(nodes, nodes[i], parent, from, delta);
    SiblingShiftsBy(nodes, nodes[i], parent, from, delta);
  }

  /** The record rewrite of a shift on a sibling itself. */
  lemma SiblingShiftsBy(nodes: seq<Node>, n: Node, parent: Path, from: int, delta: int)
    requires n in nodes && ValidPath(n.path) && IsSiblingUnder(n, parent)
    requires GetPathIndex(n.path) >= from
    ensures ShiftNode(nodes, n, parent, from, delta).path == CalcPathShift(n.path, delta)
  {
    assert HeadUnder(n, parent) == n.path;
    assert InShiftedSubtree(nodes, n, parent, from);
    assert n.path[|parent| + Width..] == [];
    assert GetParentPath(n.path) == parent;
    CalcPathShiftJoin(n.path, delta);
  }

  /** The record rewrite of a shift is the source's `updatePath(s, calcPathShift(s.path, delta))`
      applied with `s` the record's head. */
  lemma ShiftNodeIsUpdatePath(nodes: seq<Node>, n: Node, parent: Path, from: int, delta: int)
    requires InShiftedSubtree(nodes, n, parent, from)
    requires 0 <= GetPathIndex(HeadUnder(n, parent)) + delta <= 9999
    requires n.depth == SegmentCount(n.path)
    ensures ShiftNode(nodes, n, parent, from, delta) ==
            Rebase(n, HeadUnder(n, parent), CalcPathShift(HeadUnder(n, parent), delta))
  {
    var head := HeadUnder(n, parent);
    assert GetParentPath(head) == parent;
    assert IsPrefix(head, n.path);
    var m := ShiftNode(nodes, n, parent, from, delta);
    SegmentCountOfLength(m.path, n.path);
  }

  lemma {:induction false} SegmentCountOfLength(p: string, q: string)
    requires |p| == |q|
    ensures SegmentCount(p) == SegmentCount(q)
    decreases |p|
  {
    if |p| >= Width {
      SegmentCountOfLength(p[Width..], q[Width..]);
    }
  }

  /** Two joins with a common start and middles of one length agree only part by part. */
  lemma SplitJoin(p: string, s1: string, r1: string, s2: string, r2: string)
    requires |s1| == |s2| && p + s1 + r1 == p + s2 + r2
    ensures s1 == s2 && r1 == r2
  {
    var w := p + s1 + r1;
    assert s1 == w[|p|..|p| + |s1|] && r1 == w[|p| + |s1|..];
    var w' := p + s2 + r2;
    assert s2 == w'[|p|..|p| + |s2|] && r2 == w'[|p| + |s2|..];
  }

  lemma SegmentAfter(parent: Path, seg: string, rest: string)
    requires |seg| == Width && AllDigits(seg) && |parent| % Width == 0 && AllDigits(parent)
    ensures ValidPath(parent + seg)
    ensures GetPathIndex(parent + seg) == ParseInt(seg)
    ensures (parent + seg + rest)[..|parent| + Width] == parent + seg
  {
    var p := parent + seg;
    assert p[|p| - 4..] == seg;
  }

  /** A sibling that is a record of the store heads its own subtree: it moves
      by `calcPathShift` exactly when its index is at least `from`. */
  lemma ShiftOwnHead(nodes: seq<Node>, t: Node, from: int, delta: int)
    requires ValidPath(t.path) && HasPath(nodes, t.path)
    ensures InShiftedSubtree(nodes, t, GetParentPath(t.path), from) <==> GetPathIndex(t.path) >= from
    ensures ShiftNode(nodes, t, GetParentPath(t.path), from, delta)
         == if GetPathIndex(t.path) >= from then t.(path := CalcPathShift(t.path, delta)) else t
  {
    var tp := GetParentPath(t.path);
    assert HeadUnder(t, tp) == t.path;
    assert t.path[|tp| + Width..] == [];
    CalcPathShiftJoin(t.path, delta);
  }

  /** A shift that keeps the head's index within 0..9999 keeps a well-formed
      path well formed and of the same length. */
  lemma ShiftNodeStaysValid(nodes: seq<Node>, n: Node, parent: Path, from: int, delta: int)
    requires ValidPath(n.path) && |parent| % Width == 0
    requires InShiftedSubtree(nodes, n, parent, from) ==> 0 <= GetPathIndex(HeadUnder(n, parent)) + delta <= 9999
    ensures ValidPath(ShiftNode(nodes, n, parent, from, delta).path)
    ensures |ShiftNode(nodes, n, parent, from, delta).path| == |n.path|
  {
    if InShiftedSubtree(nodes, n, parent, from) {
      var seg := IndexToPath(GetPathIndex(HeadUnder(n, parent)) + delta);
      ShiftedPath(nodes, n, parent, from, delta);
      DigitsJoin(n.path, |parent|, seg);
    }
  }

  /** Replacing the segment after the first `k` characters of a digit string by
      another segment of digits leaves a digit string of the same length. */
  lemma DigitsJoin(path: string, k: int, seg: string)
    requires AllDigits(path) && 0 <= k && k + Width <= |path|
    requires |seg| == Width && AllDigits(seg)
    ensures var p := path[..k] + seg + path[k + Width..];
            |p| == |path| && AllDigits(p)
  {
    var p := path[..k] + seg + path[k + Width..];
    forall j | 0 <= j < |p|
      ensures IsDigit(p[j])
    {
      if j < k {
        assert p[j] == path[j];
      } else if j >= k + Width {
        assert p[j] == path[j];
      } else {
        assert p[j] == seg[j - k];
      }
    }
  }

  /** The slot of index `i` under `parent` is a well-formed path that reads back
      as that parent and that index. */
  lemma SlotPath(parent: Path, i: int)
    requires |parent| % Width == 0 && AllDigits(parent) && 0 <= i <= 9999
    ensures ValidPath(parent + IndexToPath(i))
    ensures GetParentPath(parent + IndexToPath(i)) == parent
    ensures GetPathIndex(parent + IndexToPath(i)) == i
  {
    SegmentAfter(parent, IndexToPath(i), []);
    assert (parent + IndexToPath(i))[..|parent|] == parent;
  }

  /** With no sibling at index 0, shifting from index 0 is shifting from
      index 1. */
  lemma ShiftFromZero(nodes: seq<Node>, parent: Path, delta: int)
    requires !HasPath(nodes, parent + IndexToPath(0))
    ensures ShiftSiblings(nodes, parent, 0, delta) == ShiftSiblings(nodes, parent, 1, delta)
  {
    var a, b := ShiftSiblings(nodes, parent, 0, delta), ShiftSiblings(nodes, parent, 1, delta);
    forall i | 0 <= i < |nodes|
      ensures a[i] == b[i]
    {
      ShiftFromZeroNode(nodes, nodes[i], parent);
      assert a[i] == ShiftNode(nodes, nodes[i], parent, 0, delta);
      assert b[i] == ShiftNode(nodes, nodes[i], parent, 1, delta);
    }
  }

  lemma ShiftFromZeroNode(nodes: seq<Node>, n: Node, parent: Path)
    requires !HasPath(nodes, parent + IndexToPath(0))
    ensures InShiftedSubtree(nodes, n, parent, 0) == InShiftedSubtree(nodes, n, parent, 1)
  {
    if InShiftedSubtree(nodes, n, parent, 0) {
      var head := HeadUnder(n, parent);
      assert GetParentPath(head) == parent by {
        assert head[..|parent|] == n.path[..|parent|];
      }
      SlotOf(head);
      assert head != parent + IndexToPath(0);
      assert GetPathIndex(head) != 0;
    }
  }

  /** A sibling index in range, read back from the sibling's path. */
  lemma HeadIndexInRange(nodes: seq<Node>, n: Node, parent: Path, from: int, bound: int)
    requires InShiftedSubtree(nodes, n, parent, from)
    requires SiblingIndicesBelow(nodes, parent, bound)
    ensures GetPathIndex(HeadUnder(n, parent)) < bound
  {
    var s :| s in nodes && s.path == HeadUnder(n, parent);
    assert IsSiblingUnder(s, parent);
  }

  /** Shifting siblings right, or shifting them left into a vacant slot, never
      puts two records at one path. */
  lemma ShiftKeepsPathsDistinct(nodes: seq<Node>, parent: Path, from: int, delta: int)
    requires ValidStore(nodes) && DistinctPaths(nodes) && ParentClosed(nodes)
    requires |parent| % Width == 0
    requires delta == 1 || delta == -1
    requires delta == 1 ==> SiblingIndicesBelow(nodes, parent, 9999)
    requires delta == -1 ==> from >= 1 && !HasPath(nodes, parent + IndexToPath(from - 1))
    ensures DistinctPaths(ShiftSiblings(nodes, parent, from, delta))
  {
    var r := ShiftSiblings(nodes, parent, from, delta);
    forall i, j | 0 <= i < |r| && 0 <= j < |r| && i != j
      ensures r[i].path != r[j].path
    {
      ShiftPairDistinct(nodes, parent, from, delta, i, j);
    }
  }

  lemma ShiftPairDistinct(nodes: seq<Node>, parent: Path, from: int, delta: int, i: int, j: int)
    requires ValidStore(nodes) && DistinctPaths(nodes) && ParentClosed(nodes)
    requires |parent| % Width == 0
    requires delta == 1 || delta == -1
    requires delta == 1 ==> SiblingIndicesBelow(nodes, parent, 9999)
    requires delta == -1 ==> from >= 1 && !HasPath(nodes, parent + IndexToPath(from - 1))
    requires 0 <= i < |nodes| && 0 <= j < |nodes| && i != j
    ensures ShiftSiblings(nodes, parent, from, delta)[i].path != ShiftSiblings(nodes, parent, from, delta)[j].path
  {
    var r := ShiftSiblings(nodes, parent, from, delta);
    var a, b := nodes[i], nodes[j];
    assert r[i] == ShiftNode(nodes, a, parent, from, delta);
    assert r[j] == ShiftNode(nodes, b, parent, from, delta);
    assert a in nodes && b in nodes && a.path != b.path;
    ShiftNodesDistinct(nodes, parent, from, delta, a, b);
  }

  lemma ShiftNodesDistinct(nodes: seq<Node>, parent: Path, from: int, delta: int, a: Node, b: Node)
    requires ValidStore(nodes) && ParentClosed(nodes)
    requires |parent| % Width == 0
    requires delta == 1 || delta == -1
    requires delta == 1 ==> SiblingIndicesBelow(nodes, parent, 9999)
    requires delta == -1 ==> from >= 1 && !HasPath(nodes, parent + IndexToPath(from - 1))
    requires a in nodes && b in nodes && a.path != b.path
    ensures ShiftNode(nodes, a, parent, from, delta).path != ShiftNode(nodes, b, parent, from, delta).path
  {
    var sa, sb := InShiftedSubtree(nodes, a, parent, from), InShiftedSubtree(nodes, b, parent, from);
    if sa && sb {
      ShiftedBothDistinct(nodes, parent, from, delta, a, b);
    } else if sa {
      ShiftedOneDistinct(nodes, parent, from, delta, a, b);
    } else if sb {
      ShiftedOneDistinct(nodes, parent, from, delta, b, a);
    }
  }

  lemma ShiftedBothDistinct(nodes: seq<Node>, parent: Path, from: int, delta: int, a: Node, b: Node)
    requires ValidStore(nodes) && |parent| % Width == 0
    requires delta == 1 || delta == -1
    requires delta == 1 ==> SiblingIndicesBelow(nodes, parent, 9999)
    requires delta == -1 ==> from >= 1
    requires InShiftedSubtree(nodes, a, parent, from) && InShiftedSubtree(nodes, b, parent, from)
    requires a.path != b.path
    ensures ShiftNode(nodes, a, parent, from, delta).path != ShiftNode(nodes, b, parent, from, delta).path
  {
    if delta == 1 {
      HeadIndexInRange(nodes, a, parent, from, 9999);
      HeadIndexInRange(nodes, b, parent, from, 9999);
    }
    BothMovedDistinct(nodes, parent, from, delta, a, b);
  }

  lemma BothMovedDistinct(nodes: seq<Node>, parent: Path, from: int, delta: int, a: Node, b: Node)
    requires InShiftedSubtree(nodes, a, parent, from) && InShiftedSubtree(nodes, b, parent, from)
    requires 0 <= GetPathIndex(HeadUnder(a, parent)) + delta <= 9999
    requires 0 <= GetPathIndex(HeadUnder(b, parent)) + delta <= 9999
    requires a.path != b.path
    ensures ShiftNode(nodes, a, parent, from, delta).path != ShiftNode(nodes, b, parent, from, delta).path
  {
    var L := |parent| + Width;
    var ia, ib := GetPathIndex(HeadUnder(a, parent)), GetPathIndex(HeadUnder(b, parent));
    var ra, rb := a.path[L..], b.path[L..];
    ShiftedPath(nodes, a, parent, from, delta);
    ShiftedPath(nodes, b, parent, from, delta);
    if ia == ib && ra == rb {
      SameHeadSamePath(nodes, parent, from, a, b);
    }
    MovedSegmentsDistinct(parent, ia, ib, ra, rb, delta);
  }

  /** A shifted record's path: the parent, the moved head index, and the rest
      of its old path. */
  lemma ShiftedPath(nodes: seq<Node>, n: Node, parent: Path, from: int, delta: int)
    requires InShiftedSubtree(nodes, n, parent, from)
    ensures ShiftNode(nodes, n, parent, from, delta).path
         == parent + IndexToPath(GetPathIndex(HeadUnder(n, parent)) + delta) + n.path[|parent| + Width..]
  {
  }

  /** Two shifted records with the same head index and the same path below
      their heads are at one path. */
  lemma SameHeadSamePath(nodes: seq<Node>, parent: Path, from: int, a: Node, b: Node)
    requires InShiftedSubtree(nodes, a, parent, from) && InShiftedSubtree(nodes, b, parent, from)
    requires GetPathIndex(HeadUnder(a, parent)) == GetPathIndex(HeadUnder(b, parent))
    requires a.path[|parent| + Width..] == b.path[|parent| + Width..]
    ensures a.path == b.path
  {
    var ha, hb := HeadUnder(a, parent), HeadUnder(b, parent);
    ParentJoin(ha);
    ParentJoin(hb);
    assert GetParentPath(ha) == parent == GetParentPath(hb);
    EqualByParts(a.path, b.path, |parent| + Width);
  }

  lemma EqualByParts(s: string, t: string, k: int)
    requires 0 <= k <= |s| && k <= |t| && s[..k] == t[..k] && s[k..] == t[k..]
    ensures s == t
  {
    assert s == s[..k] + s[k..];
    assert t == t[..k] + t[k..];
  }

  /** Moving two distinct paths' segments under one parent by the same amount
      keeps them distinct. */
  lemma MovedSegmentsDistinct(parent: Path, ia: int, ib: int, ra: string, rb: string, delta: int)
    requires 0 <= ia + delta <= 9999 && 0 <= ib + delta <= 9999
    requires ia != ib || ra != rb
    ensures parent + IndexToPath(ia + delta) + ra != parent + IndexToPath(ib + delta) + rb
  {
    if ia != ib {
      SegmentsDifferPathsDiffer(parent, ia + delta, ib + delta, ra, rb);
    } else if parent + IndexToPath(ia + delta) + ra == parent + IndexToPath(ib + delta) + rb {
      SplitJoin(parent, IndexToPath(ia + delta), ra, IndexToPath(ib + delta), rb);
      assert false;
    }
  }

  /** Paths that part at a segment under one parent are different paths. */
  lemma SegmentsDifferPathsDiffer(parent: Path, i: int, j: int, ri: string, rj: string)
    requires 0 <= i <= 9999 && 0 <= j <= 9999 && i != j
    ensures parent + IndexToPath(i) + ri != parent + IndexToPath(j) + rj
  {
    if parent + IndexToPath(i) + ri == parent + IndexToPath(j) + rj {
      SplitJoin(parent, IndexToPath(i), ri, IndexToPath(j), rj);
      IndexToPathInjective(i, j);
      assert false;
    }
  }

  lemma ShiftedOneDistinct(nodes: seq<Node>, parent: Path, from: int, delta: int, a: Node, b: Node)
    requires ValidStore(nodes) && ParentClosed(nodes) && |parent| % Width == 0
    requires delta == 1 || delta == -1
    requires delta == 1 ==> SiblingIndicesBelow(nodes, parent, 9999)
    requires delta == -1 ==> from >= 1 && !HasPath(nodes, parent + IndexToPath(from - 1))
    requires InShiftedSubtree(nodes, a, parent, from) && !InShiftedSubtree(nodes, b, parent, from)
    requires b in nodes
    ensures ShiftNode(nodes, a, parent, from, delta).path != b.path
  {
    if delta == 1 {
      ShiftedRightOntoUnshifted(nodes, parent, from, a, b);
    } else {
      ShiftedLeftOntoUnshifted(nodes, parent, from, a, b);
    }
  }

  lemma ShiftedRightOntoUnshifted(nodes: seq<Node>, parent: Path, from: int, a: Node, b: Node)
    requires ValidStore(nodes) && ParentClosed(nodes) && |parent| % Width == 0
    requires SiblingIndicesBelow(nodes, parent, 9999)
    requires InShiftedSubtree(nodes, a, parent, from) && !InShiftedSubtree(nodes, b, parent, from)
    requires b in nodes
    ensures ShiftNode(nodes, a, parent, from, 1).path != b.path
  {
    HeadIndexInRange(nodes, a, parent, from, 9999);
    var j, rest := GetPathIndex(HeadUnder(a, parent)) + 1, a.path[|parent| + Width..];
    assert ShiftNode(nodes, a, parent, from, 1).path == parent + IndexToPath(j) + rest;
    UnshiftedAvoidsSlot(nodes, b, parent, from, j, rest);
  }

  lemma ShiftedLeftOntoUnshifted(nodes: seq<Node>, parent: Path, from: int, a: Node, b: Node)
    requires ValidStore(nodes) && ParentClosed(nodes) && |parent| % Width == 0
    requires from >= 1 && !HasPath(nodes, parent + IndexToPath(from - 1))
    requires InShiftedSubtree(nodes, a, parent, from) && !InShiftedSubtree(nodes, b, parent, from)
    requires b in nodes
    ensures ShiftNode(nodes, a, parent, from, -1).path != b.path
  {
    var j, rest := GetPathIndex(HeadUnder(a, parent)) - 1, a.path[|parent| + Width..];
    assert ShiftNode(nodes, a, parent, from, -1).path == parent + IndexToPath(j) + rest;
    if j < from {
      assert j == from - 1;
    }
    UnshiftedAvoidsSlot(nodes, b, parent, from, j, rest);
  }

  /** A record left in place is not at a slot the shift moves records into:
      one at or after `from` (whose head would have been shifted) or a vacant one. */
  lemma UnshiftedAvoidsSlot(nodes: seq<Node>, b: Node, parent: Path, from: int, j: int, rest: string)
    requires ValidStore(nodes) && ParentClosed(nodes) && b in nodes
    requires |parent| % Width == 0 && 0 <= j <= 9999
    requires !InShiftedSubtree(nodes, b, parent, from)
    requires j >= from || (j == from - 1 && !HasPath(nodes, parent + IndexToPath(from - 1)))
    ensures b.path != parent + IndexToPath(j) + rest
  {
    if b.path == parent + IndexToPath(j) + rest {
      RecordAtSlot(nodes, b, parent, from, j, rest);
      assert false;
    }
  }

  /** A record at slot `j` under `parent` (or below it) is in the shifted part
      when `j` is at or after `from`, and the slot itself holds a record. */
  lemma RecordAtSlot(nodes: seq<Node>, b: Node, parent: Path, from: int, j: int, rest: string)
    requires ValidStore(nodes) && ParentClosed(nodes) && b in nodes
    requires |parent| % Width == 0 && 0 <= j <= 9999
    requires b.path == parent + IndexToPath(j) + rest
    ensures j >= from ==> InShiftedSubtree(nodes, b, parent, from)
    ensures HasPath(nodes, parent + IndexToPath(j))
  {
    HeadOfRecord(nodes, b, parent, IndexToPath(j), rest);
  }

  /** A record at `parent + seg + rest` in a parent-closed store lies below the
      record at `parent + seg`. */
  lemma HeadOfRecord(nodes: seq<Node>, b: Node, parent: Path, seg: string, rest: string)
    requires ValidStore(nodes) && ParentClosed(nodes) && b in nodes
    requires b.path == parent + seg + rest
    requires |seg| == Width && AllDigits(seg) && |parent| % Width == 0
    ensures |b.path| >= |parent| + Width && IsPrefix(parent, b.path)
    ensures HeadUnder(b, parent) == parent + seg
    ensures ValidPath(HeadUnder(b, parent)) && GetPathIndex(HeadUnder(b, parent)) == ParseInt(seg)
    ensures HasPath(nodes, HeadUnder(b, parent))
  {
    assert AllDigits(parent) by {
      assert parent == b.path[..|parent|];
    }
    HeadOfJoin(b, parent, seg, rest);
    AncestorExists(nodes, b, |parent| + Width);
  }

  /** The head of a record whose path starts with a parent and a segment. */
  lemma HeadOfJoin(b: Node, parent: Path, seg: string, rest: string)
    requires b.path == parent + seg + rest
    requires |seg| == Width && AllDigits(seg) && |parent| % Width == 0 && AllDigits(parent)
    ensures |b.path| >= |parent| + Width && IsPrefix(parent, b.path)
    ensures HeadUnder(b, parent) == parent + seg
    ensures ValidPath(HeadUnder(b, parent)) && GetPathIndex(HeadUnder(b, parent)) == ParseInt(seg)
  {
    SegmentAfter(parent, seg, rest);
  }

  /** After shifting the siblings at or after `k` right by one, no record is at
      the slot `k` under `parent`. */
  lemma ShiftVacatesSlot(nodes: seq<Node>, parent: Path, k: int)
    requires ValidStore(nodes) && ParentClosed(nodes) && |parent| % Width == 0
    requires 0 <= k <= 9999
    requires SiblingIndicesBelow(nodes, parent, 9999)
    ensures !HasPath(ShiftSiblings(nodes, parent, k, 1), parent + IndexToPath(k))
  {
    var r := ShiftSiblings(nodes, parent, k, 1);
    forall i | 0 <= i < |r|
      ensures r[i].path != parent + IndexToPath(k)
    {
      ShiftedRecordLeavesSlot(nodes, parent, k, i);
    }
  }

  /** One record of `ShiftVacatesSlot`: after the right shift from `k` it is
      not at slot `k`. */
  lemma ShiftedRecordLeavesSlot(nodes: seq<Node>, parent: Path, k: int, i: int)
    requires ValidStore(nodes) && ParentClosed(nodes) && |parent| % Width == 0
    requires 0 <= k <= 9999 && 0 <= i < |nodes|
    requires SiblingIndicesBelow(nodes, parent, 9999)
    ensures ShiftNode(nodes, nodes[i], parent, k, 1).path != parent + IndexToPath(k)
  {
    var n := nodes[i];
    assert n in nodes;
    var slot := parent + IndexToPath(k);
    assert slot == parent + IndexToPath(k) + [];
    if InShiftedSubtree(nodes, n, parent, k) {
      HeadIndexInRange(nodes, n, parent, k, 9999);
      SegmentsDifferPathsDiffer(parent, GetPathIndex(HeadUnder(n, parent)) + 1, k, n.path[|parent| + Width..], []);
    } else {
      UnshiftedAvoidsSlot(nodes, n, parent, k, k, []);
    }
  }

  /** The records that survive removing the subtree at `path`. */
  function Survivors(nodes: seq<Node>, path: Path): (r: seq<Node>)
    ensures forall x :: x in r <==> x in nodes && !IsPrefix(path, x.path)
  {
    Filter(nodes, (n: Node) => !IsPrefix(path, n.path))
  }

  /** Removing a subtree leaves the rest parent-closed: a survivor's parent is
      not inside the removed subtree, or the survivor would be too. */
  lemma SurvivorsParentClosed(nodes: seq<Node>, path: Path)
    requires ValidStore(nodes) && ParentClosed(nodes)
    ensures ValidStore(Survivors(nodes, path)) && ParentClosed(Survivors(nodes, path))
  {
    var s := Survivors(nodes, path);
    forall n | n in s && |n.path| > Width
      ensures HasPath(s, GetParentPath(n.path))
    {
      var q := GetParentPath(n.path);
      var m :| m in nodes && m.path == q;
      assert m in s;
    }
  }

  /** The shared core of `remove(node)`: drop the node's subtree, then move every
      right sibling (index greater than the node's) one slot left, each with its
      subtree. */
  function RemoveSubtree(nodes: seq<Node>, path: Path): (r: seq<Node>)
    requires ValidPath(path)
    ensures |r| == |Survivors(nodes, path)| <= |nodes|
    ensures forall i :: 0 <= i < |r| ==>
              r[i].id == Survivors(nodes, path)[i].id && r[i].numChild == Survivors(nodes, path)[i].numChild
              && r[i].data == Survivors(nodes, path)[i].data
  {
    ShiftSiblings(Survivors(nodes, path), GetParentPath(path), GetPathIndex(path) + 1, -1)
  }

  /** Removal keeps exactly the keys outside the subtree: with one record per
      key, no record of the subtree survives under its key. */
  lemma RemoveSubtreeDropsSubtree(nodes: seq<Node>, path: Path)
    requires ValidPath(path) && DistinctIds(nodes)
    ensures Ids(RemoveSubtree(nodes, path)) == Ids(Survivors(nodes, path))
    ensures forall x :: x in nodes && IsPrefix(path, x.path) ==> x.id !in Ids(RemoveSubtree(nodes, path))
  {
    var s := Survivors(nodes, path);
    var r := RemoveSubtree(nodes, path);
    SameIdsPerIndex(s, r);
    forall x, y | x in nodes && IsPrefix(path, x.path) && y in s
      ensures y.id != x.id
    {
      var i :| 0 <= i < |nodes| && nodes[i] == x;
      var j :| 0 <= j < |nodes| && nodes[j] == y;
      assert i != j ==> nodes[i].id != nodes[j].id;
    }
  }

  /** Removal moves each later sibling of the removed record one index down
      and leaves the earlier siblings as they were. */
  lemma RemoveSubtreeShiftsSiblings(nodes: seq<Node>, path: Path, i: int)
    requires ValidPath(path) && 0 <= i < |Survivors(nodes, path)|
    requires IsSiblingUnder(Survivors(nodes, path)[i], GetParentPath(path))
    requires ValidPath(Survivors(nodes, path)[i].path)
    ensures var x := Survivors(nodes, path)[i];
            if GetPathIndex(x.path) > GetPathIndex(path)
            then RemoveSubtree(nodes, path)[i].path == CalcPathShift(x.path, -1)
            else RemoveSubtree(nodes, path)[i] == x
  {
    var s, parent, from := Survivors(nodes, path), GetParentPath(path), GetPathIndex(path) + 1;
    if GetPathIndex(s[i].path) >= from {
      ShiftMovesLaterSiblings(s, parent, from, -1, i);
    } else {
      ShiftKeepsEarlierSiblings(s, parent, from, -1, i);
    }
  }

  /** Removal leaves every record outside the parent's subtree as it was. */
  lemma RemoveSubtreeKeepsOutside(nodes: seq<Node>, path: Path, i: int)
    requires ValidPath(path) && 0 <= i < |Survivors(nodes, path)|
    requires !IsPrefix(GetParentPath(path), Survivors(nodes, path)[i].path)
    ensures RemoveSubtree(nodes, path)[i] == Survivors(nodes, path)[i]
  {
    ShiftKeepsOutside(Survivors(nodes, path), GetParentPath(path), GetPathIndex(path) + 1, -1, i);
  }

  /** Removal closes the gap without ever putting two records at one path. */
  lemma RemoveKeepsPathsDistinct(nodes: seq<Node>, path: Path)
    requires ValidStore(nodes) && DistinctPaths(nodes) && ParentClosed(nodes)
    requires ValidPath(path)
    ensures DistinctPaths(RemoveSubtree(nodes, path))
  {
    var s, parent, from := Survivors(nodes, path), GetParentPath(path), GetPathIndex(path) + 1;
    assert RemoveSubtree(nodes, path) == ShiftSiblings(s, parent, from, -1);
    SurvivorsShape(nodes, path);
    RemovedSlotVacant(nodes, path);
    ShiftKeepsPathsDistinct(s, parent, from, -1);
  }

  /** The slot the left shift fills is the removed node's own, which no survivor holds. */
  lemma RemovedSlotVacant(nodes: seq<Node>, path: Path)
    requires ValidPath(path)
    ensures |GetParentPath(path)| % Width == 0
    ensures !HasPath(Survivors(nodes, path), GetParentPath(path) + IndexToPath(GetPathIndex(path) + 1 - 1))
  {
    ParentJoin(path);
    SurvivorsVacate(nodes, path);
  }

  /** No survivor sits at the removed path. */
  lemma SurvivorsVacate(nodes: seq<Node>, path: Path)
    ensures !HasPath(Survivors(nodes, path), path)
  {
    forall n | n in Survivors(nodes, path)
      ensures n.path != path
    {
      assert !IsPrefix(path, n.path);
    }
  }

  /** The survivors of a removal keep the store's invariants. */
  lemma SurvivorsShape(nodes: seq<Node>, path: Path)
    requires ValidStore(nodes) && DistinctPaths(nodes) && ParentClosed(nodes)
    ensures ValidStore(Survivors(nodes, path)) && ParentClosed(Survivors(nodes, path))
    ensures DistinctPaths(Survivors(nodes, path))
  {
    FilterKeepsDistinctPaths(nodes, (n: Node) => !IsPrefix(path, n.path));
    SurvivorsParentClosed(nodes, path);
  }
}
