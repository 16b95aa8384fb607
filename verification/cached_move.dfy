/** `move(node, target, pos)` of `src/assets/js/model.js`: the subtree at the
    node goes next to, or below, the target, and the node's former siblings
    close the gap. Two versions are modelled. `MoveAsWritten` issues the
    source's writes with lines 305 and 335 read as repaired: the undefined
    `newNodePath` as `newPath`, and the unqualified `getDescendants` as
    `this.getDescendants` (as written, `updatePath` throws a `ReferenceError`
    at line 335 before its first write, so `move` writes nothing). The
    destination is computed from the target as listed before the call, the writes go out in the source's order, and for a record
    written twice the later write wins. `Move` is the move the method's
    documentation describes, and the counterexample lemmas below show where
    the two part. */
module CachedMove {
  import opened JsText
  import opened PathCodec
  import opened Outcomes
  import opened Nodes
  import opened TreeShape
  import opened StoreEdit
  import opened CachedModel

  /** The positions `move` acts on. */
  predicate IsMovePosition(pos: string)
  {
    pos == "child" || pos == "left" || pos == "right"
  }

  /** `b` is `a` with its path and depth possibly rewritten. */
  predicate SameRecord(a: Node, b: Node)
  {
    b.id == a.id && b.numChild == a.numChild && b.data == a.data
  }

  /** `r` is `nodes` with paths and depths possibly rewritten: every record
      keeps its place in the list, its key, its child count and its payload. */
  predicate RewritesPaths(nodes: seq<Node>, r: seq<Node>)
  {
    |r| == |nodes| && forall i :: 0 <= i < |nodes| ==> SameRecord(nodes[i], r[i])
  }

  /** The path `move` gives the node: for "child" the slot after the target's
      children, for "left" the target's own slot, for "right" the next one. */
  function MoveDestination(nodes: seq<Node>, target: Node, pos: string): (p: Path)
    requires ValidPath(target.path)
    ensures pos == "child" && |GetChildren(nodes, target)| < 9999 ==>
              ValidPath(p) && GetParentPath(p) == target.path
              && GetPathIndex(p) == |GetChildren(nodes, target)| + 1
    ensures pos != "child" ==> ValidPath(p) && GetParentPath(p) == GetParentPath(target.path)
    ensures pos == "left" ==> GetPathIndex(p) == GetPathIndex(target.path)
    ensures pos == "right" && GetPathIndex(target.path) < 9999 ==> GetPathIndex(p) == GetPathIndex(target.path) + 1
  {
    if pos == "child" then
      var count := |GetChildren(nodes, target)|;
      if count < 9999 then
        AppendThenSplit(target.path, count + 1);
        CalcPathAppend(target.path, IndexToPath(count + 1))
      else CalcPathAppend(target.path, IndexToPath(count + 1))
    else BesidePath(target, pos)
  }

  /** The node, or a record below it: the records the move carries along. */
  predicate IsMoved(node: Node, n: Node)
  {
    n.id == node.id || IsDescendantPath(n.path, node.path)
  }

  /** The target check of the source: the target is one of the node's
      descendants. */
  predicate TargetBelowNode(nodes: seq<Node>, node: Node, target: Node)
    requires ValidPath(node.path)
  {
    target.id in Ids(GetDescendants(nodes, node))
  }

  // ---------------------------------------------------------------------------
  // As written
  // ---------------------------------------------------------------------------

  /** One record's final state under `move` as written. Three groups of writes
      go out in order, each computed from the records as listed before the
      call: the node's subtree is re-pathed to `dest`; for "left" and "right"
      the target's siblings at or after the new index move one index up, with
      their subtrees; then the node's former siblings after it move one index
      down, with their subtrees. A record in several groups ends with the last
      group's write. An unknown position skips the first two groups. */
  function MoveRecordAsWritten(nodes: seq<Node>, node: Node, target: Node, pos: string, dest: Path, n: Node): (r: Node)
    requires ValidPath(node.path) && ValidPath(target.path)
    ensures SameRecord(n, r)
  {
    var oparent, ofrom := GetParentPath(node.path), GetPathIndex(node.path) + 1;
    if InShiftedSubtree(nodes, n, oparent, ofrom) then ShiftNode(nodes, n, oparent, ofrom, -1)
    else if (pos == "left" || pos == "right")
         && InShiftedSubtree(nodes, n, GetParentPath(target.path), GetPathIndex(BesidePath(target, pos))) then
      ShiftNode(nodes, n, GetParentPath(target.path), GetPathIndex(BesidePath(target, pos)), 1)
    else if IsMovePosition(pos) then Rebase(n, node.path, dest)
    else n
  }

  /** `move(node, target, pos)` as written, with lines 305 and 335 read as
      repaired (as written, `updatePath` throws at line 335 before its first
      write, so `move` writes nothing): a target among the node's descendants throws `INVALID_MOVE` before
      anything is written; otherwise every record gets its final state from
      `MoveRecordAsWritten`. */
  function MoveAsWritten(nodes: seq<Node>, node: Node, target: Node, pos: string): (r: Result<seq<Node>, ModelError>)
    requires ValidPath(node.path) && ValidPath(target.path)
    ensures r.Err? <==> TargetBelowNode(nodes, node, target)
    ensures r.Err? ==> r.error == InvalidMove
    ensures r.Ok? ==> RewritesPaths(nodes, r.value)
  {
    if TargetBelowNode(nodes, node, target) then Err(InvalidMove)
    else
      var dest := MoveDestination(nodes, target, pos);
      Ok(seq(|nodes|, i requires 0 <= i < |nodes| => MoveRecordAsWritten(nodes, node, target, pos, dest, nodes[i])))
  }

  // ---------------------------------------------------------------------------
  // As intended
  // ---------------------------------------------------------------------------

  /** The target as it stands once the node's subtree has left its place and
      the node's later siblings have moved down: the left shift may have
      carried the target along. */
  function DetachedTarget(nodes: seq<Node>, node: Node, target: Node): (t: Node)
    requires ValidPath(node.path) && ValidPath(target.path)
    ensures ValidPath(t.path) && |t.path| == |target.path| && t.id == target.id
    ensures !IsPrefix(GetParentPath(node.path), target.path) ==> t == target
  {
    var oparent, ofrom := GetParentPath(node.path), GetPathIndex(node.path) + 1;
    ParentAligned(node.path);
    ShiftNodeStaysValid(nodes, target, oparent, ofrom, -1);
    ShiftNode(nodes, target, oparent, ofrom, -1)
  }

  /** One record's final state under the intended move: the node and its
      descendants go to `dest`; every other record first takes part in the left
      shift that closes the node's old slot, and then, for "left" and "right",
      in the right shift that opens the new slot among the detached target's
      siblings. */
  function MoveRecord(nodes: seq<Node>, node: Node, pos: string, det: seq<Node>, t: Node, dest: Path, n: Node): (r: Node)
    requires ValidPath(node.path) && ValidPath(t.path)
    requires pos != "child" ==> ValidPath(dest)
    ensures SameRecord(n, r)
  {
    if IsMoved(node, n) then Rebase(n, node.path, dest)
    else
      var m := ShiftNode(nodes, n, GetParentPath(node.path), GetPathIndex(node.path) + 1, -1);
      if pos == "child" then m else ShiftNode(det, m, GetParentPath(t.path), GetPathIndex(dest), 1)
  }

  /** The records after the intended move of a valid node to a valid
      position. */
  function Relocate(nodes: seq<Node>, node: Node, target: Node, pos: string): (r: seq<Node>)
    requires ValidPath(node.path) && ValidPath(target.path)
    ensures RewritesPaths(nodes, r)
  {
    var det := Remove(nodes, node);
    var t := DetachedTarget(nodes, node, target);
    var dest := MoveDestination(det, t, pos);
    seq(|nodes|, i requires 0 <= i < |nodes| => MoveRecord(nodes, node, pos, det, t, dest, nodes[i]))
  }

  /** One record of `Relocate`. */
  lemma RelocateAt(nodes: seq<Node>, node: Node, target: Node, pos: string, i: int)
    requires ValidPath(node.path) && ValidPath(target.path) && 0 <= i < |nodes|
    ensures var det, t := Remove(nodes, node), DetachedTarget(nodes, node, target);
            Relocate(nodes, node, target, pos)[i] == MoveRecord(nodes, node, pos, det, t, MoveDestination(det, t, pos), nodes[i])
  {
  }

  /** `move(node, target, pos)` as intended: the node itself is no valid target
      either, an unknown position is rejected like `addSibling` rejects one,
      and the destination is computed in the store the node has left. */
  function Move(nodes: seq<Node>, node: Node, target: Node, pos: string): (r: Result<seq<Node>, ModelError>)
    requires ValidPath(node.path) && ValidPath(target.path)
    ensures r.Err? <==> target.id == node.id || TargetBelowNode(nodes, node, target) || !IsMovePosition(pos)
    ensures r.Err? && (target.id == node.id || TargetBelowNode(nodes, node, target)) ==> r.error == InvalidMove
    ensures r.Ok? ==> RewritesPaths(nodes, r.value)
  {
    if target.id == node.id || TargetBelowNode(nodes, node, target) then Err(InvalidMove)
    else if !IsMovePosition(pos) then Err(InvalidPath)
    else Ok(Relocate(nodes, node, target, pos))
  }

  /** A valid target stays in the store the node leaves, at its detached path. */
  lemma TargetStays(nodes: seq<Node>, node: Node, target: Node, b: int)
    requires ValidPath(node.path) && ValidPath(target.path)
    requires 0 <= b < |nodes| && nodes[b] == target
    requires target.id != node.id && !TargetBelowNode(nodes, node, target)
    ensures !IsMoved(node, target)
    ensures HasPath(Remove(nodes, node), DetachedTarget(nodes, node, target).path)
  {
    assert target in nodes;
    assert forall x :: x in GetDescendants(nodes, node) ==> x.id in Ids(GetDescendants(nodes, node));
    var kept := Kept(nodes, node);
    assert target in kept;
    var j :| 0 <= j < |kept| && kept[j] == target;
    assert Remove(nodes, node)[j] == DetachedTarget(nodes, node, target);
  }

  /** The moved node itself lands exactly at the destination. */
  lemma NodeLandsAtDestination(nodes: seq<Node>, node: Node, target: Node, pos: string, a: int)
    requires ValidPath(node.path) && ValidPath(target.path)
    requires 0 <= a < |nodes| && nodes[a] == node
    ensures Relocate(nodes, node, target, pos)[a].path
         == MoveDestination(Remove(nodes, node), DetachedTarget(nodes, node, target), pos)
  {
    RelocateAt(nodes, node, target, pos, a);
    var det, t := Remove(nodes, node), DetachedTarget(nodes, node, target);
    var dest := MoveDestination(det, t, pos);
    assert IsMoved(node, node);
    assert SubstrFrom(node.path, |node.path|) == [];
  }

  /** Under "child" the target itself is not shifted again. */
  lemma TargetKeepsDetachedPath(nodes: seq<Node>, node: Node, target: Node, b: int)
    requires ValidPath(node.path) && ValidPath(target.path)
    requires 0 <= b < |nodes| && nodes[b] == target
    requires !IsMoved(node, target)
    ensures Relocate(nodes, node, target, "child")[b] == DetachedTarget(nodes, node, target)
  {
    RelocateAt(nodes, node, target, "child", b);
  }

  /** "child": the node lands below the target, in the slot after the
      target's children, and the target is where the node's departure left it. */
  lemma MoveChildLandsUnderTarget(nodes: seq<Node>, node: Node, target: Node, a: int, b: int)
    requires ValidPath(node.path) && ValidPath(target.path)
    requires 0 <= a < |nodes| && nodes[a] == node && 0 <= b < |nodes| && nodes[b] == target
    requires target.id != node.id && !TargetBelowNode(nodes, node, target)
    requires |GetChildren(Remove(nodes, node), DetachedTarget(nodes, node, target))| < 9999
    ensures var r := Relocate(nodes, node, target, "child");
            && r[b].path == DetachedTarget(nodes, node, target).path
            && ValidPath(r[a].path) && GetParentPath(r[a].path) == r[b].path
            && GetPathIndex(r[a].path) == |GetChildren(Remove(nodes, node), DetachedTarget(nodes, node, target))| + 1
  {
    TargetStays(nodes, node, target, b);
    NodeLandsAtDestination(nodes, node, target, "child", a);
    TargetKeepsDetachedPath(nodes, node, target, b);
  }

  /** The target's final state under "left" and "right": the detached target
      takes part in the right shift that opens the new slot. */
  lemma TargetRecordMoves(nodes: seq<Node>, node: Node, target: Node, pos: string, b: int)
    requires ValidPath(node.path) && ValidPath(target.path)
    requires 0 <= b < |nodes| && nodes[b] == target && !IsMoved(node, target) && pos != "child"
    ensures var det, t := Remove(nodes, node), DetachedTarget(nodes, node, target);
            Relocate(nodes, node, target, pos)[b]
            == ShiftNode(det, t, GetParentPath(t.path), GetPathIndex(MoveDestination(det, t, pos)), 1)
  {
    RelocateAt(nodes, node, target, pos, b);
  }

  /** Under "left" the target moves one index up to make room. */
  lemma TargetShiftsRight(nodes: seq<Node>, node: Node, target: Node, b: int)
    requires ValidPath(node.path) && ValidPath(target.path)
    requires 0 <= b < |nodes| && nodes[b] == target
    requires !IsMoved(node, target) && HasPath(Remove(nodes, node), DetachedTarget(nodes, node, target).path)
    ensures Relocate(nodes, node, target, "left")[b].path == CalcPathShift(DetachedTarget(nodes, node, target).path, 1)
  {
    TargetRecordMoves(nodes, node, target, "left", b);
    var det, t := Remove(nodes, node), DetachedTarget(nodes, node, target);
    ShiftOwnHead(det, t, GetPathIndex(MoveDestination(det, t, "left")), 1);
  }

  /** Under "right" the target stays where the node's departure left it. */
  lemma TargetStaysPut(nodes: seq<Node>, node: Node, target: Node, b: int)
    requires ValidPath(node.path) && ValidPath(target.path)
    requires 0 <= b < |nodes| && nodes[b] == target
    requires !IsMoved(node, target) && HasPath(Remove(nodes, node), DetachedTarget(nodes, node, target).path)
    requires GetPathIndex(DetachedTarget(nodes, node, target).path) < 9999
    ensures Relocate(nodes, node, target, "right")[b] == DetachedTarget(nodes, node, target)
  {
    TargetRecordMoves(nodes, node, target, "right", b);
    var det, t := Remove(nodes, node), DetachedTarget(nodes, node, target);
    var k := GetPathIndex(MoveDestination(det, t, "right"));
    assert k == GetPathIndex(t.path) + 1;
    ShiftOwnHead(det, t, k, 1);
  }

  /** "left": the node takes the target's detached slot and the target sits
      right after it, under the same parent. */
  lemma MoveLeftLandsBeforeTarget(nodes: seq<Node>, node: Node, target: Node, a: int, b: int)
    requires ValidPath(node.path) && ValidPath(target.path)
    requires 0 <= a < |nodes| && nodes[a] == node && 0 <= b < |nodes| && nodes[b] == target
    requires target.id != node.id && !TargetBelowNode(nodes, node, target)
    requires GetPathIndex(DetachedTarget(nodes, node, target).path) < 9999
    ensures var r := Relocate(nodes, node, target, "left");
            && r[a].path == DetachedTarget(nodes, node, target).path
            && ValidPath(r[b].path) && GetParentPath(r[b].path) == GetParentPath(r[a].path)
            && GetPathIndex(r[b].path) == GetPathIndex(r[a].path) + 1
  {
    TargetStays(nodes, node, target, b);
    NodeLandsAtDestination(nodes, node, target, "left", a);
    TargetShiftsRight(nodes, node, target, b);
  }

  /** "right": the target keeps its detached slot and the node sits right
      after it, under the same parent. */
  lemma MoveRightLandsAfterTarget(nodes: seq<Node>, node: Node, target: Node, a: int, b: int)
    requires ValidPath(node.path) && ValidPath(target.path)
    requires 0 <= a < |nodes| && nodes[a] == node && 0 <= b < |nodes| && nodes[b] == target
    requires target.id != node.id && !TargetBelowNode(nodes, node, target)
    requires GetPathIndex(DetachedTarget(nodes, node, target).path) < 9999
    ensures var r := Relocate(nodes, node, target, "right");
            && r[b] == DetachedTarget(nodes, node, target)
            && ValidPath(r[a].path) && GetParentPath(r[a].path) == GetParentPath(r[b].path)
            && GetPathIndex(r[a].path) == GetPathIndex(r[b].path) + 1
  {
    TargetStays(nodes, node, target, b);
    NodeLandsAtDestination(nodes, node, target, "right", a);
    TargetStaysPut(nodes, node, target, b);
  }

  /** The node's descendants come along: each keeps its path below the node,
      now below the node's new path. */
  lemma MoveCarriesSubtree(nodes: seq<Node>, node: Node, target: Node, pos: string, a: int, k: int)
    requires ValidPath(node.path) && ValidPath(target.path)
    requires 0 <= a < |nodes| && nodes[a] == node && 0 <= k < |nodes|
    requires IsDescendantPath(nodes[k].path, node.path)
    ensures Relocate(nodes, node, target, pos)[k].path
         == Relocate(nodes, node, target, pos)[a].path + nodes[k].path[|node.path|..]
  {
    NodeLandsAtDestination(nodes, node, target, pos, a);
    RelocateAt(nodes, node, target, pos, k);
  }

  /** A record outside the moved subtree, outside the subtree of the node's
      old parent and outside the subtree of the target's parent keeps its
      record. */
  lemma MoveKeepsOthers(nodes: seq<Node>, node: Node, target: Node, pos: string, k: int)
    requires ValidPath(node.path) && ValidPath(target.path) && 0 <= k < |nodes|
    requires !IsMoved(node, nodes[k])
    requires !IsPrefix(GetParentPath(node.path), nodes[k].path)
    requires !IsPrefix(GetParentPath(DetachedTarget(nodes, node, target).path), nodes[k].path)
    ensures Relocate(nodes, node, target, pos)[k] == nodes[k]
  {
    RelocateAt(nodes, node, target, pos, k);
  }

  // ---------------------------------------------------------------------------
  // Where the two part
  // ---------------------------------------------------------------------------

  /** A record with no children and an empty payload, for the examples. */
  function Leaf(id: Id, path: Path): (n: Node)
    ensures n.id == id && n.path == path
  {
    Node(id, path, SegmentCount(path), 0, Payload("", ""))
  }

  /** A record at `top` with children at indices `i` and `i + 1`. */
  function TwoChildren(top: Path, i: int): (nodes: seq<Node>)
    requires ValidPath(top) && 0 <= i < 9999
    ensures |nodes| == 3
    ensures nodes[0].path == top
    ensures ValidPath(nodes[1].path) && GetParentPath(nodes[1].path) == top && GetPathIndex(nodes[1].path) == i
    ensures ValidPath(nodes[2].path) && GetParentPath(nodes[2].path) == top && GetPathIndex(nodes[2].path) == i + 1
  {
    SlotPath(top, i);
    SlotPath(top, i + 1);
    [Leaf("r", top), Leaf("a", top + IndexToPath(i)), Leaf("b", top + IndexToPath(i + 1))]
  }

  /** The later child heads a subtree that the left shift after the first
      child moves onto the first child's path; nothing else is shifted. */
  lemma TwoChildrenShift(top: Path, i: int)
    requires ValidPath(top) && 0 <= i < 9999
    ensures var nodes := TwoChildren(top, i);
            && !InShiftedSubtree(nodes, nodes[0], top, i + 1)
            && !InShiftedSubtree(nodes, nodes[1], top, i + 1)
            && InShiftedSubtree(nodes, nodes[2], top, i + 1)
            && ShiftNode(nodes, nodes[2], top, i + 1, -1).path == nodes[1].path
  {
    var nodes := TwoChildren(top, i);
    var a, b := nodes[1], nodes[2];
    assert HeadUnder(a, top) == a.path && HeadUnder(b, top) == b.path;
    assert b in nodes;
    assert b.path[|top| + Width..] == [];
    SlotOf(a.path);
  }

  /** One record of `MoveAsWritten`. */
  lemma MoveAsWrittenAt(nodes: seq<Node>, node: Node, target: Node, pos: string, i: int)
    requires ValidPath(node.path) && ValidPath(target.path) && 0 <= i < |nodes|
    requires !TargetBelowNode(nodes, node, target)
    ensures MoveAsWritten(nodes, node, target, pos).value[i]
         == MoveRecordAsWritten(nodes, node, target, pos, MoveDestination(nodes, target, pos), nodes[i])
  {
  }

  /** In the example the target is no descendant of the node. */
  lemma TwoChildrenAccepted(top: Path, i: int)
    requires ValidPath(top) && 0 <= i < 9999
    ensures var nodes := TwoChildren(top, i);
            !TargetBelowNode(nodes, nodes[1], nodes[2])
  {
    var nodes := TwoChildren(top, i);
    NoLongerPathNotBelow(nodes, nodes[1], nodes[2]);
  }

  /** With no record longer than the node's path, no target is below it. */
  lemma NoLongerPathNotBelow(nodes: seq<Node>, node: Node, target: Node)
    requires ValidPath(node.path) && forall x :: x in nodes ==> |x.path| <= |node.path|
    ensures !TargetBelowNode(nodes, node, target)
  {
    assert |GetDescendants(nodes, node)| == 0;
  }

  /** In the example the top record is written by none of the groups. */
  lemma TwoChildrenTopKept(top: Path, i: int)
    requires ValidPath(top) && 0 <= i < 9999
    ensures var nodes := TwoChildren(top, i);
            var dest := MoveDestination(nodes, nodes[2], "child");
            MoveRecordAsWritten(nodes, nodes[1], nodes[2], "child", dest, nodes[0]) == nodes[0]
  {
    TwoChildrenShift(top, i);
  }

  /** In the example the node goes to the destination. */
  lemma TwoChildrenNodeMoved(top: Path, i: int)
    requires ValidPath(top) && 0 <= i < 9999
    ensures var nodes := TwoChildren(top, i);
            var dest := MoveDestination(nodes, nodes[2], "child");
            MoveRecordAsWritten(nodes, nodes[1], nodes[2], "child", dest, nodes[1]).path == dest
  {
    TwoChildrenShift(top, i);
    var a := TwoChildren(top, i)[1];
    assert a.path[|a.path|..] == [];
  }

  /** In the example the later child ends at the node's old path. */
  lemma TwoChildrenSiblingShifted(top: Path, i: int)
    requires ValidPath(top) && 0 <= i < 9999
    ensures var nodes := TwoChildren(top, i);
            var dest := MoveDestination(nodes, nodes[2], "child");
            MoveRecordAsWritten(nodes, nodes[1], nodes[2], "child", dest, nodes[2]).path == nodes[1].path
  {
    TwoChildrenShift(top, i);
    var nodes := TwoChildren(top, i);
    ShiftedFirst(nodes, nodes[1], nodes[2], "child", MoveDestination(nodes, nodes[2], "child"), nodes[2], top, i + 1);
  }

  /** A record in the shift after the node gets that shift's write, whatever
      the position and the destination. */
  lemma ShiftedFirst(nodes: seq<Node>, node: Node, target: Node, pos: string, dest: Path, n: Node, parent: Path, from: int)
    requires ValidPath(node.path) && ValidPath(target.path)
    requires parent == GetParentPath(node.path) && from == GetPathIndex(node.path) + 1
    requires InShiftedSubtree(nodes, n, parent, from)
    ensures MoveRecordAsWritten(nodes, node, target, pos, dest, n) == ShiftNode(nodes, n, parent, from, -1)
  {
  }

  lemma NoneOfThreeAt(r: seq<Node>, p: Path)
    requires |r| == 3 && r[0].path != p && r[1].path != p && r[2].path != p
    ensures !HasPath(r, p)
  {
    assert r == [r[0], r[1], r[2]];
  }

  /** Moving a record into its next sibling, as written: the node is filed
      under the sibling's old path, then the left shift gives the sibling the
      node's old path, so no record holds the moved node's parent path. With
      `top` "0001" and `i` 1: the node "00010001" goes to "000100020001" and
      the sibling "00010002" becomes "00010001". */
  lemma MoveIntoLaterSiblingOrphans(top: Path, i: int)
    requires ValidPath(top) && 0 <= i < 9999
    ensures var nodes := TwoChildren(top, i);
            var r := MoveAsWritten(nodes, nodes[1], nodes[2], "child");
            && r.Ok?
            && ValidPath(r.value[1].path) && GetParentPath(r.value[1].path) == nodes[2].path
            && r.value[2].path == nodes[1].path
            && !HasPath(r.value, GetParentPath(r.value[1].path))
  {
    var nodes := TwoChildren(top, i);
    TwoChildrenAccepted(top, i);
    TwoChildrenTopKept(top, i);
    TwoChildrenNodeMoved(top, i);
    TwoChildrenSiblingShifted(top, i);
    MoveAsWrittenAt(nodes, nodes[1], nodes[2], "child", 0);
    MoveAsWrittenAt(nodes, nodes[1], nodes[2], "child", 1);
    MoveAsWrittenAt(nodes, nodes[1], nodes[2], "child", 2);
    var r := MoveAsWritten(nodes, nodes[1], nodes[2], "child").value;
    var bp := nodes[2].path;
    assert r[0].path != bp && r[1].path != bp && r[2].path != bp;
    NoneOfThreeAt(r, bp);
  }

  /** "left" of the previous sibling in the example: the left shift after the
      moved child catches nothing, and the right shift skips the top record. */
  lemma TwoChildrenUnshifted(top: Path, i: int)
    requires ValidPath(top) && 0 <= i < 9998
    ensures var nodes := TwoChildren(top, i);
            && !InShiftedSubtree(nodes, nodes[0], top, i)
            && !InShiftedSubtree(nodes, nodes[0], top, i + 2)
            && !InShiftedSubtree(nodes, nodes[1], top, i + 2)
            && !InShiftedSubtree(nodes, nodes[2], top, i + 2)
  {
    var nodes := TwoChildren(top, i);
    var a, b := nodes[1], nodes[2];
    assert HeadUnder(a, top) == a.path && HeadUnder(b, top) == b.path;
  }

  /** The right shift from the previous sibling's index moves the previous
      sibling onto the moved child's old path. */
  lemma TwoChildrenFirstShiftsRight(top: Path, i: int)
    requires ValidPath(top) && 0 <= i < 9998
    ensures var nodes := TwoChildren(top, i);
            && InShiftedSubtree(nodes, nodes[1], top, i)
            && ShiftNode(nodes, nodes[1], top, i, 1).path == nodes[2].path
  {
    var nodes := TwoChildren(top, i);
    var a, b := nodes[1], nodes[2];
    assert a in nodes;
    ShiftOwnHead(nodes, a, i, 1);
    var c := CalcPathShift(a.path, 1);
    assert ValidPath(c) && GetParentPath(c) == top && GetPathIndex(c) == i + 1;
    SlotOf(b.path);
    SlotOf(c);
  }

  /** The same right shift moves the moved child one index up as well. */
  lemma TwoChildrenSecondShiftsRight(top: Path, i: int)
    requires ValidPath(top) && 0 <= i < 9998
    ensures var nodes := TwoChildren(top, i);
            && InShiftedSubtree(nodes, nodes[2], top, i)
            && ShiftNode(nodes, nodes[2], top, i, 1).path == CalcPathShift(nodes[2].path, 1)
  {
    var nodes := TwoChildren(top, i);
    assert nodes[2] in nodes;
    ShiftOwnHead(nodes, nodes[2], i, 1);
  }

  lemma TwoChildrenLeftAccepted(top: Path, i: int)
    requires ValidPath(top) && 0 <= i < 9999
    ensures var nodes := TwoChildren(top, i);
            !TargetBelowNode(nodes, nodes[2], nodes[1])
  {
    var nodes := TwoChildren(top, i);
    NoLongerPathNotBelow(nodes, nodes[2], nodes[1]);
  }

  /** In the left-move example the top record is written by none of the groups. */
  lemma TwoChildrenLeftTopKept(top: Path, i: int)
    requires ValidPath(top) && 0 <= i < 9998
    ensures var nodes := TwoChildren(top, i);
            var dest := MoveDestination(nodes, nodes[1], "left");
            MoveRecordAsWritten(nodes, nodes[2], nodes[1], "left", dest, nodes[0]) == nodes[0]
  {
    TwoChildrenUnshifted(top, i);
  }

  /** In the left-move example both children end with the right shift's write. */
  lemma TwoChildrenLeftShifted(top: Path, i: int)
    requires ValidPath(top) && 0 <= i < 9998
    ensures var nodes := TwoChildren(top, i);
            var dest := MoveDestination(nodes, nodes[1], "left");
            && MoveRecordAsWritten(nodes, nodes[2], nodes[1], "left", dest, nodes[1]).path == nodes[2].path
            && MoveRecordAsWritten(nodes, nodes[2], nodes[1], "left", dest, nodes[2]).path == CalcPathShift(nodes[2].path, 1)
  {
    TwoChildrenUnshifted(top, i);
    TwoChildrenFirstShiftsRight(top, i);
    TwoChildrenSecondShiftsRight(top, i);
  }

  /** Moving a record to the left of its previous sibling, as written: the
      node is re-pathed to the sibling's slot, but the right shift that follows
      moves the sibling and the node itself one index up, and the node's
      write comes last. The sibling ends at the node's old path, the node one
      index further, and the sibling's old slot stays empty. With `top`
      "0001" and `i` 1: "00010001" and "00010002" become "00010002" and
      "00010003". */
  lemma MoveLeftOfPreviousSiblingLeavesGap(top: Path, i: int)
    requires ValidPath(top) && 0 <= i < 9998
    ensures var nodes := TwoChildren(top, i);
            var r := MoveAsWritten(nodes, nodes[2], nodes[1], "left");
            && r.Ok?
            && r.value[1].path == nodes[2].path
            && ValidPath(r.value[2].path) && GetParentPath(r.value[2].path) == top
            && GetPathIndex(r.value[2].path) == i + 2
            && !HasPath(r.value, nodes[1].path)
  {
    var nodes := TwoChildren(top, i);
    TwoChildrenLeftAccepted(top, i);
    TwoChildrenLeftTopKept(top, i);
    TwoChildrenLeftShifted(top, i);
    MoveAsWrittenAt(nodes, nodes[2], nodes[1], "left", 0);
    MoveAsWrittenAt(nodes, nodes[2], nodes[1], "left", 1);
    MoveAsWrittenAt(nodes, nodes[2], nodes[1], "left", 2);
    var r := MoveAsWritten(nodes, nodes[2], nodes[1], "left").value;
    var ap := nodes[1].path;
    assert r[0].path != ap && r[1].path != ap && r[2].path != ap;
    NoneOfThreeAt(r, ap);
  }

  /** An unknown position in the example: the node keeps its record and the
      next sibling takes the node's path. */
  lemma TwoChildrenUnknownPosition(top: Path, i: int)
    requires ValidPath(top) && 0 <= i < 9999
    ensures var nodes := TwoChildren(top, i);
            var dest := MoveDestination(nodes, nodes[2], "up");
            && MoveRecordAsWritten(nodes, nodes[1], nodes[2], "up", dest, nodes[1]) == nodes[1]
            && MoveRecordAsWritten(nodes, nodes[1], nodes[2], "up", dest, nodes[2]).path == nodes[1].path
  {
    TwoChildrenShift(top, i);
    var nodes := TwoChildren(top, i);
    var dest := MoveDestination(nodes, nodes[2], "up");
    UnknownPositionKeeps(nodes, nodes[1], nodes[2], "up", dest, nodes[1], top, i + 1);
    ShiftedFirst(nodes, nodes[1], nodes[2], "up", dest, nodes[2], top, i + 1);
  }

  /** Under an unknown position a record outside the shift after the node is
      not written. */
  lemma UnknownPositionKeeps(nodes: seq<Node>, node: Node, target: Node, pos: string, dest: Path, n: Node, parent: Path, from: int)
    requires ValidPath(node.path) && ValidPath(target.path) && !IsMovePosition(pos)
    requires parent == GetParentPath(node.path) && from == GetPathIndex(node.path) + 1
    requires !InShiftedSubtree(nodes, n, parent, from)
    ensures MoveRecordAsWritten(nodes, node, target, pos, dest, n) == n
  {
  }

  /** Two records at one path break `DistinctPaths`. */
  lemma SharedPathNotDistinct(r: seq<Node>, i: int, j: int)
    requires 0 <= i < j < |r| && r[i].path == r[j].path
    ensures !DistinctPaths(r)
  {
  }

  /** An unknown position, as written: nothing is written for the node, but
      its later siblings still move one index down, so the next sibling lands
      on the node's path and two records share it. */
  lemma MoveUnknownPositionCollides(top: Path, i: int)
    requires ValidPath(top) && 0 <= i < 9999
    ensures var nodes := TwoChildren(top, i);
            var r := MoveAsWritten(nodes, nodes[1], nodes[2], "up");
            && r.Ok?
            && r.value[1].path == nodes[1].path && r.value[2].path == nodes[1].path
            && !DistinctPaths(r.value)
  {
    var nodes := TwoChildren(top, i);
    TwoChildrenAccepted(top, i);
    TwoChildrenUnknownPosition(top, i);
    MoveAsWrittenAt(nodes, nodes[1], nodes[2], "up", 1);
    MoveAsWrittenAt(nodes, nodes[1], nodes[2], "up", 2);
    SharedPathNotDistinct(MoveAsWritten(nodes, nodes[1], nodes[2], "up").value, 1, 2);
  }

  /** A store of one record at `p`. */
  function Single(p: Path): (nodes: seq<Node>)
    ensures |nodes| == 1 && nodes[0].path == p
  {
    [Leaf("a", p)]
  }

  /** The record moved into itself is accepted and goes to the destination. */
  lemma SingleMovedIntoItself(p: Path)
    requires ValidPath(p)
    ensures var nodes := Single(p);
            var dest := MoveDestination(nodes, nodes[0], "child");
            && !TargetBelowNode(nodes, nodes[0], nodes[0])
            && MoveRecordAsWritten(nodes, nodes[0], nodes[0], "child", dest, nodes[0]).path == dest
  {
    var nodes := Single(p);
    var a := nodes[0];
    assert !IsDescendantPath(p, p);
    assert HeadUnder(a, GetParentPath(p)) == p;
    assert p[|p|..] == [];
  }

  /** Moving a record into itself, as written: the source checks only the
      node's descendants, so the node is filed under its own old path, which
      no record holds any more. */
  lemma MoveOntoItselfOrphans(p: Path)
    requires ValidPath(p)
    ensures var nodes := Single(p);
            var r := MoveAsWritten(nodes, nodes[0], nodes[0], "child");
            && r.Ok?
            && ValidPath(r.value[0].path) && GetParentPath(r.value[0].path) == p
            && !HasPath(r.value, p)
  {
    var nodes := Single(p);
    SingleMovedIntoItself(p);
    MoveAsWrittenAt(nodes, nodes[0], nodes[0], "child", 0);
    var r := MoveAsWritten(nodes, nodes[0], nodes[0], "child").value;
    assert |GetChildren(nodes, nodes[0])| <= 1;
    assert r == [r[0]];
  }

  /** The intended move of the same example files the node under the
      sibling's new path. */
  lemma MoveIntoLaterSiblingLandsUnder(top: Path, i: int)
    requires ValidPath(top) && 0 <= i < 9999
    ensures var nodes := TwoChildren(top, i);
            var r := Move(nodes, nodes[1], nodes[2], "child");
            && r.Ok?
            && ValidPath(r.value[1].path) && GetParentPath(r.value[1].path) == r.value[2].path
  {
    var nodes := TwoChildren(top, i);
    TwoChildrenAccepted(top, i);
    var det, t := Remove(nodes, nodes[1]), DetachedTarget(nodes, nodes[1], nodes[2]);
    assert |GetChildren(det, t)| <= |det| <= 3;
    MoveChildLandsUnderTarget(nodes, nodes[1], nodes[2], 1, 2);
  }
}
