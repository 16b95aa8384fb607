/** Materialized paths: a node's path is the concatenation of fixed-width,
    zero-padded 4-digit segments, one per level, each the node's index among its
    siblings at that level. These are the static helpers both model classes
    share (`calcPathShift` … `indexToPath`). */
module PathCodec {
  import opened JsText

  type Path = string

  /** Characters per segment. */
  const Width := 4

  /** A well-formed path: one or more segments, digits only. */
  predicate ValidPath(p: Path) { |p| >= Width && |p| % Width == 0 && AllDigits(p) }

  predicate IsPrefix(a: Path, b: Path) { |a| <= |b| && b[..|a|] == a }

  /** The fixed-width display of an index in 0..9999: what `indexToPath` is
      meant to produce, written out digit by digit. */
  function Pad4(i: int): (r: string)
    requires 0 <= i <= 9999
    ensures |r| == 4 && AllDigits(r)
  {
    [DigitChar(i / 1000), DigitChar(i / 100 % 10), DigitChar(i / 10 % 10), DigitChar(i % 10)]
  }

  /** `indexToPath(index)`: `(10000 + index).toString().substr(1)`. */
  function IndexToPath(index: int): (r: string)
    ensures 0 <= index <= 9999 ==> |r| == Width && AllDigits(r)
    ensures 0 <= index <= 9999 ==> ParseInt(r) == index
  {
    var r := SubstrFrom(IntToString(10000 + index), 1);
    if 0 <= index <= 9999 then
      IndexToPathIsPad4(index);
      Pad4RoundTrip(index);
      r
    else r
  }

  /** Within 0..9999, `indexToPath` is the 4-digit display. */
  lemma IndexToPathIsPad4(i: int)
    requires 0 <= i <= 9999
    ensures SubstrFrom(IntToString(10000 + i), 1) == Pad4(i)
  {
    var n := 10000 + i;
    assert n / 10 == 1000 + i / 10 && n % 10 == i % 10;
    assert (1000 + i / 10) / 10 == 100 + i / 100 && (1000 + i / 10) % 10 == i / 10 % 10;
    assert (100 + i / 100) / 10 == 10 + i / 1000 && (100 + i / 100) % 10 == i / 100 % 10;
    assert (10 + i / 1000) / 10 == 1 && (10 + i / 1000) % 10 == i / 1000;
    assert 0 <= i / 1000 <= 9;
    var d1 := DecimalString(10 + i / 1000);
    assert d1 == DecimalString(1) + [DigitChar(i / 1000)];
    assert DecimalString(1) == [DigitChar(1)];
    var d2 := DecimalString(100 + i / 100);
    assert d2 == d1 + [DigitChar(i / 100 % 10)];
    var d3 := DecimalString(1000 + i / 10);
    assert d3 == d2 + [DigitChar(i / 10 % 10)];
    assert DecimalString(n) == d3 + [DigitChar(i % 10)];
    assert DecimalString(n) == [DigitChar(1)] + Pad4(i);
  }

  lemma Pad4RoundTrip(i: int)
    requires 0 <= i <= 9999
    ensures ParseInt(Pad4(i)) == i
  {
    var s := Pad4(i);
    DecimalSteps(i);
    assert s[..3][..2][..1] == s[..1];
    assert s[..3][..2] == s[..2];
    assert s[..4][..3] == s[..3];
    assert ParseInt(s[..1]) == i / 1000;
    assert ParseInt(s[..2]) == i / 100;
    assert ParseInt(s[..3]) == i / 10;
    assert s == s[..4];
  }

  /** Each decimal prefix of a number is ten times the shorter one plus the
      next digit. */
  lemma DecimalSteps(i: int)
    requires 0 <= i <= 9999
    ensures i / 1000 * 10 + i / 100 % 10 == i / 100
    ensures i / 100 * 10 + i / 10 % 10 == i / 10
    ensures i / 10 * 10 + i % 10 == i
  {
  }

  /** Any 4-digit segment is the display of the index it parses to. */
  lemma SegmentRoundTrip(s: string)
    requires |s| == Width && AllDigits(s)
    ensures 0 <= ParseInt(s) <= 9999
    ensures IndexToPath(ParseInt(s)) == s
  {
    ParseIntInjective(IndexToPath(ParseInt(s)), s);
  }

  /** Distinct indices in range have distinct segments. */
  lemma IndexToPathInjective(i: int, j: int)
    requires 0 <= i <= 9999 && 0 <= j <= 9999
    requires IndexToPath(i) == IndexToPath(j)
    ensures i == j
  {
  }

  /** Outside 0..9999 the width breaks: -1 gives three digits and 10000 wraps
      around to the segment of index 0. */
  lemma IndexToPathOutOfRange()
    ensures IndexToPath(-1) == "999"
    ensures IndexToPath(10000) == "0000"
  {
    assert DecimalString(9999) == "9999" by {
      assert DecimalString(9) == "9";
      assert DecimalString(99) == "99";
      assert DecimalString(999) == "999";
    }
    assert DecimalString(20000) == "20000" by {
      assert DecimalString(2) == "2";
      assert DecimalString(20) == "20";
      assert DecimalString(200) == "200";
      assert DecimalString(2000) == "2000";
    }
  }

  /** `calcPathAppend(path, append)`. */
  function CalcPathAppend(path: Path, append: string): (r: Path)
    ensures |r| == |path| + |append| && IsPrefix(path, r) && r[|path|..] == append
  {
    path + append
  }

  /** `getDepth(path)`: the number of segments. */
  function GetDepth(path: Path): (d: int)
    requires |path| % Width == 0
    ensures d * Width == |path|
  {
    |path| / 4
  }

  /** The number of whole segments in a path: `getDepth` as the stores write it
      into a record's `depth` field, counted rather than divided. */
  function SegmentCount(p: string): (n: nat)
    ensures |p| % Width == 0 ==> n * Width == |p|
    decreases |p|
  {
    if |p| < Width then 0 else 1 + SegmentCount(p[Width..])
  }

  /** `getPathAtDepth(path, depth)`: the ancestor path at the given depth. */
  function GetPathAtDepth(path: Path, depth: int): (r: Path)
    ensures depth >= 0 ==> IsPrefix(r, path) && |r| == Min(Width * depth, |path|)
    ensures depth <= 0 ==> r == []
  {
    Substr(path, 0, depth * 4)
  }

  /** `getParentPath(node)`, on the node's path: the path without its last segment. */
  function GetParentPath(path: Path): (r: Path)
    ensures |path| >= Width ==> IsPrefix(r, path) && |r| == |path| - Width
    ensures |path| < Width ==> r == []
  {
    Substr(path, 0, |path| - 4)
  }

  /** `getPathIndex(path)` with the depth left out: the last segment, parsed. */
  function GetPathIndex(path: Path): (i: int)
    requires ValidPath(path)
    ensures 0 <= i <= 9999
  {
    ParseInt(SubstrFrom(path, |path| - 4))
  }

  /** `getPathIndex(path, depth)`; a `depth` of 0 stands for the omitted argument,
      which the source treats like any other falsy value. */
  function GetPathIndexAt(path: Path, depth: int): (i: int)
    requires ValidPath(path) && 0 <= depth <= GetDepth(path)
    ensures 0 <= i <= 9999
    ensures depth >= 1 ==> ValidPath(GetPathAtDepth(path, depth)) && i == GetPathIndex(GetPathAtDepth(path, depth))
  {
    if depth != 0 then
      assert Substr(path, (depth - 1) * 4, 4) == path[(depth - 1) * 4..depth * 4];
      ParseInt(Substr(path, (depth - 1) * 4, 4))
    else GetPathIndex(path)
  }

  /** `calcPathShift(path, shift)`: the same path with its last index moved by
      `shift`. */
  function CalcPathShift(path: Path, shift: int): (r: Path)
    requires ValidPath(path)
    ensures IsPrefix(GetParentPath(path), r)
    ensures 0 <= GetPathIndex(path) + shift <= 9999 ==>
              |r| == |path| && ValidPath(r) && GetParentPath(r) == GetParentPath(path)
              && GetPathIndex(r) == GetPathIndex(path) + shift
  {
    var r := Substr(path, 0, |path| - 4) + IndexToPath(GetPathIndex(path) + shift);
    assert r[|r| - |IndexToPath(GetPathIndex(path) + shift)|..] == IndexToPath(GetPathIndex(path) + shift);
    r
  }

  /** A shifted path is the parent path followed by the moved index's segment. */
  lemma CalcPathShiftJoin(path: Path, shift: int)
    requires ValidPath(path)
    ensures CalcPathShift(path, shift) == GetParentPath(path) + IndexToPath(GetPathIndex(path) + shift)
  {
  }

  /** The parent path of a well-formed path is whole segments of digits (empty
      for a top-level path). */
  lemma ParentAligned(path: Path)
    requires ValidPath(path)
    ensures |GetParentPath(path)| % Width == 0 && AllDigits(GetParentPath(path))
    ensures |GetParentPath(path)| + Width == |path|
  {
  }

  /** Shifting right stays a well-formed path under the same parent, even from
      index 9999, where the new segment wraps around to "0000". */
  lemma ShiftRightStaysValid(path: Path)
    requires ValidPath(path)
    ensures ValidPath(CalcPathShift(path, 1))
    ensures GetParentPath(CalcPathShift(path, 1)) == GetParentPath(path)
    ensures GetPathIndex(CalcPathShift(path, 1)) == if GetPathIndex(path) < 9999 then GetPathIndex(path) + 1 else 0
  {
    if GetPathIndex(path) == 9999 {
      var parent, r := GetParentPath(path), CalcPathShift(path, 1);
      ParentAligned(path);
      IndexToPathOutOfRange();
      CalcPathShiftJoin(path, 1);
      assert r == parent + "0000";
      ZerosSlot(parent);
    }
  }

  /** The slot "0000" under a well-formed parent path is index 0 there. */
  lemma ZerosSlot(parent: Path)
    requires |parent| % Width == 0 && AllDigits(parent)
    ensures ValidPath(parent + "0000") && GetParentPath(parent + "0000") == parent
    ensures GetPathIndex(parent + "0000") == 0
  {
    var r := parent + "0000";
    assert r[..|r| - Width] == parent && r[|r| - Width..] == "0000";
    ParseZeros();
  }

  lemma ParseZeros()
    ensures ParseInt("0000") == 0
  {
    assert "0000"[..3] == "000" && "000"[..2] == "00" && "00"[..1] == "0";
  }

  /** `isDescendantOf(descendant, of)`, on the two paths. */
  function IsDescendantPath(descendant: Path, of: Path): (b: bool)
    ensures b <==> IsPrefix(of, descendant) && |of| < |descendant|
  {
    descendant != of && Substr(descendant, 0, |of|) == of
  }

  /** A path is its parent path followed by its own index's segment, one level
      deeper. */
  lemma ParentJoin(path: Path)
    requires ValidPath(path)
    ensures CalcPathAppend(GetParentPath(path), IndexToPath(GetPathIndex(path))) == path
    ensures |path| > Width ==> ValidPath(GetParentPath(path))
    ensures GetDepth(GetParentPath(path)) == GetDepth(path) - 1
  {
    var last := path[|path| - 4..];
    assert AllDigits(last);
    SegmentRoundTrip(last);
    assert path == path[..|path| - 4] + last;
  }

  /** A well-formed path is its parent path followed by its own index's segment,
      and that parent path is whole segments. */
  lemma SlotOf(p: Path)
    requires ValidPath(p)
    ensures |GetParentPath(p)| % Width == 0
    ensures p == GetParentPath(p) + IndexToPath(GetPathIndex(p))
  {
    ParentAligned(p);
    ParentJoin(p);
  }

  /** Appending a segment is undone by taking the parent path and reading the
      last index. */
  lemma AppendThenSplit(path: Path, i: int)
    requires ValidPath(path) && 0 <= i <= 9999
    ensures ValidPath(CalcPathAppend(path, IndexToPath(i)))
    ensures GetParentPath(CalcPathAppend(path, IndexToPath(i))) == path
    ensures GetPathIndex(CalcPathAppend(path, IndexToPath(i))) == i
  {
    var r := CalcPathAppend(path, IndexToPath(i));
    assert r[|r| - 4..] == IndexToPath(i);
  }

  lemma PathAtOwnDepth(path: Path)
    requires |path| % Width == 0
    ensures GetPathAtDepth(path, GetDepth(path)) == path
  {
  }

  lemma DescendantIrreflexive(p: Path)
    ensures !IsDescendantPath(p, p)
  {
  }

  lemma DescendantTransitive(a: Path, b: Path, c: Path)
    requires IsDescendantPath(a, b) && IsDescendantPath(b, c)
    ensures IsDescendantPath(a, c)
  {
    assert a[..|c|] == a[..|b|][..|c|];
  }

  /** Two paths of one length lead to the same path only when they are equal:
      nothing below one sibling leads to anything below another. */
  lemma ApartBelowSiblings(k: Path, m: Path, x: Path, y: Path)
    requires |k| == |m| && IsPrefix(k, x) && IsPrefix(m, y)
    ensures IsPrefix(x, y) ==> k == m
  {
    if IsPrefix(x, y) {
      assert y[..|k|] == y[..|x|][..|k|];
    }
  }
}
