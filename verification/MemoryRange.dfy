/** Points and half-open boxes of the four tracked signals (classes Memory and
    MemoryRange), and the bisection of a box in every axis. */
module MemoryRanges {
  const DATASIZE: nat := 4

  type Axis = i: int | 0 <= i < DATASIZE

  datatype Memory = Memory(recSend: real, recRec: real, rttRatio: real, slowRecRec: real) {
    function Field(i: Axis): real {
      if i == 0 then recSend else if i == 1 then recRec else if i == 2 then rttRatio else slowRecRec
    }

    /** An assignment through mutable_field. */
    function With(i: Axis, v: real): Memory {
      if i == 0 then this.(recSend := v) else if i == 1 then this.(recRec := v)
      else if i == 2 then this.(rttRatio := v) else this.(slowRecRec := v)
    }

    predicate AtLeast(other: Memory) {
      recSend >= other.recSend && recRec >= other.recRec
      && rttRatio >= other.rttRatio && slowRecRec >= other.slowRecRec
    }

    predicate Below(other: Memory) {
      recSend < other.recSend && recRec < other.recRec
      && rttRatio < other.rttRatio && slowRecRec < other.slowRecRec
    }

    /** operator==, which compares recRec with itself instead of the other point's. */
    predicate Same(other: Memory) {
      recSend == other.recSend && recRec == recRec
      && rttRatio == other.rttRatio && slowRecRec == other.slowRecRec
    }
  }

  datatype Box = Box(lower: Memory, upper: Memory) {
    predicate Contains(query: Memory) {
      query.AtLeast(lower) && query.Below(upper)
    }

    /** Some point lies inside. */
    predicate Nonempty() {
      lower.Below(upper)
    }

    predicate Same(other: Box) {
      lower.Same(other.lower) && upper.Same(other.upper)
    }

    function Midpoint(): Memory {
      Memory((lower.recSend + upper.recSend) / 2.0, (lower.recRec + upper.recRec) / 2.0,
             (lower.rttRatio + upper.rttRatio) / 2.0, (lower.slowRecRec + upper.slowRecRec) / 2.0)
    }
  }

  /** A box holds the points from its lower bound up to, and without, its upper bound on every
      axis; and operator== sees every axis but the second. */
  lemma BoundsMeaning(box: Box, query: Memory)
    ensures box.Contains(query) <==>
            forall i: Axis :: box.lower.Field(i) <= query.Field(i) < box.upper.Field(i)
    ensures box.lower.Same(query) <==>
            forall i: Axis :: i != 1 ==> box.lower.Field(i) == query.Field(i)
  {
    var lower, upper := box.lower, box.upper;
    assert lower.Field(0) == lower.recSend && query.Field(0) == query.recSend && upper.Field(0) == upper.recSend;
    assert lower.Field(1) == lower.recRec && query.Field(1) == query.recRec && upper.Field(1) == upper.recRec;
    assert lower.Field(2) == lower.rttRatio && query.Field(2) == query.rttRatio && upper.Field(2) == upper.rttRatio;
    assert lower.Field(3) == lower.slowRecRec && query.Field(3) == query.slowRecRec && upper.Field(3) == upper.slowRecRec;
  }

  /** An assignment changes the named axis and no other. */
  lemma WithExactly(m: Memory, i: Axis, v: real)
    ensures forall j: Axis :: m.With(i, v).Field(j) == if j == i then v else m.Field(j)
  {
  }

  /** The split points lie between the bounds of the box. */
  predicate Between(box: Box, split: Memory) {
    forall i: Axis :: box.lower.Field(i) <= split.Field(i) <= box.upper.Field(i)
  }

  /** How many of the boxes hold the point. */
  ghost function Holders(boxes: seq<Box>, query: Memory): (n: nat) {
    if boxes == [] then 0
    else Holders(boxes[..|boxes| - 1], query) + if boxes[|boxes| - 1].Contains(query) then 1 else 0
  }

  /** The boxes partition the outer box: each of its points is in exactly one of them, and
      no other point is in any. */
  ghost predicate Partition(boxes: seq<Box>, outer: Box) {
    forall q: Memory :: Holders(boxes, q) == if outer.Contains(q) then 1 else 0
  }

  /** range_median's loop over the fields. */
  method RangeMedian(box: Box) returns (m: Memory)
    ensures m == box.Midpoint()
    ensures forall i: Axis :: m.Field(i) - box.lower.Field(i) == box.upper.Field(i) - m.Field(i)
    ensures box.Contains(m) <==> box.Nonempty()
  {
    m := box.lower;
    for i := 0 to DATASIZE
      invariant forall j: Axis :: j < i ==> m.Field(j) == (box.lower.Field(j) + box.upper.Field(j)) / 2.0
    {
      m := m.With(i, (box.lower.Field(i) + box.upper.Field(i)) / 2.0);
    }
    assert m.Field(0) == box.Midpoint().Field(0) && m.Field(1) == box.Midpoint().Field(1);
    assert m.Field(2) == box.Midpoint().Field(2) && m.Field(3) == box.Midpoint().Field(3);
  }

  // ---------------------------------------------------------------- one piece

  /** What bisect does with one piece on one axis; Fails is its own assert going off. */
  datatype Split = Halves(low: Box, high: Box) | Whole | Fails

  function MidField(x: Box, i: Axis): real {
    (x.lower.Field(i) + x.upper.Field(i)) / 2.0
  }

  /** The cut: at the median, or at the midpoint when the lower piece would look empty. */
  function CutPoint(x: Box, i: Axis, median: real): real {
    if x.lower.Same(x.upper.With(i, median)) then MidField(x, i) else median
  }

  /** Exactly when a piece with room on its axis is not cut at the median: every other axis that
      operator== looks at is flat, and on such an axis the median sits on the lower bound.  It
      is then cut in the middle. */
  lemma CutPointExact(x: Box, i: Axis, median: real)
    requires x.lower.Field(i) <= median <= x.upper.Field(i) && !Flat(x, i)
    ensures
      var cut := CutPoint(x, i, median);
      var midpoint := (forall j: Axis :: j != i && j != 1 ==> Flat(x, j)) && (i != 1 ==> median == x.lower.Field(i));
      if midpoint then cut - x.lower.Field(i) == x.upper.Field(i) - cut else cut == median
  {
    var y := x.upper.With(i, median);
    WithExactly(x.upper, i, median);
    BoundsMeaning(Box(x.lower, x.upper), y);
    assert y.Field(i) == median;
    assert forall j: Axis :: j != i ==> (Flat(x, j) <==> x.lower.Field(j) == y.Field(j));
  }

  function SplitPiece(x: Box, i: Axis, median: real): Split {
    var cut := CutPoint(x, i, median);
    var lower, upper := x.lower.With(i, cut), x.upper.With(i, cut);
    if x.lower.Same(upper) then
      if !lower.Same(x.upper) && x.lower.Same(lower) then Whole else Fails
    else Halves(Box(x.lower, upper), Box(lower, x.upper))
  }

  /** The branch that keeps a piece whole is never completed: reaching it trips the assert
      inside it, and it is reached exactly for pieces whose bounds compare equal. */
  lemma UnsplittableFails(x: Box, i: Axis, median: real)
    requires x.lower.Field(i) <= median <= x.upper.Field(i)
    ensures SplitPiece(x, i, median) != Whole
    ensures SplitPiece(x, i, median) == Fails <==> x.lower.Same(x.upper)
  {
  }

  /** The two halves partition the piece. */
  lemma HalvesPartition(x: Box, i: Axis, median: real, q: Memory)
    requires x.lower.Field(i) <= median <= x.upper.Field(i)
    requires SplitPiece(x, i, median).Halves?
    ensures var s := SplitPiece(x, i, median);
            x.Contains(q) <==> s.low.Contains(q) || s.high.Contains(q)
    ensures var s := SplitPiece(x, i, median); !(s.low.Contains(q) && s.high.Contains(q))
    ensures var s := SplitPiece(x, i, median);
            forall j: Axis :: j != i ==>
              s.low.lower.Field(j) == s.high.lower.Field(j) == x.lower.Field(j)
              && s.low.upper.Field(j) == s.high.upper.Field(j) == x.upper.Field(j)
  {
  }

  lemma HoldersSnoc(boxes: seq<Box>, b: Box, q: Memory)
    ensures Holders(boxes + [b], q) == Holders(boxes, q) + if b.Contains(q) then 1 else 0
  {
    assert (boxes + [b])[..|boxes|] == boxes;
  }

  // ---------------------------------------------------------------- the loops

  /** On the axes from i on, the piece still has the bounds of the original box. */
  ghost predicate Uncut(x: Box, box: Box, i: nat) {
    forall j: Axis :: i <= j ==> x.lower.Field(j) == box.lower.Field(j) && x.upper.Field(j) == box.upper.Field(j)
  }

  ghost predicate Flat(x: Box, i: Axis) {
    x.lower.Field(i) == x.upper.Field(i)
  }

  ghost predicate SomeFlat0(pieces: seq<Box>) {
    exists k :: 0 <= k < |pieces| && Flat(pieces[k], 0)
  }

  ghost predicate SomeFlat02(pieces: seq<Box>) {
    exists k :: 0 <= k < |pieces| && Flat(pieces[k], 0) && Flat(pieces[k], 2)
  }

  ghost predicate FirstCutOnBound(box: Box, medians: Memory) {
    var cut := CutPoint(box, 0, medians.recSend);
    cut == box.lower.recSend || cut == box.upper.recSend
  }

  /** Exactly when bisect's assert fails: no room on the last axis, the first axis cut on
      one of its bounds, and the third axis's median on its upper bound. */
  ghost predicate BisectFails(box: Box, medians: Memory) {
    Flat(box, 3) && FirstCutOnBound(box, medians) && medians.rttRatio == box.upper.rttRatio
  }

  /** A box with room on three axes that bisect cannot cut: the medians sit on upper bounds. */
  lemma RoomyBoxFails()
    ensures exists box: Box, medians: Memory ::
              Between(box, medians) && BisectFails(box, medians)
              && !Flat(box, 0) && !Flat(box, 1) && !Flat(box, 2)
  {
    var box := Box(Memory(0.0, 0.0, 0.0, 0.0), Memory(2.0, 2.0, 2.0, 0.0));
    var medians := Memory(2.0, 1.0, 2.0, 0.0);
    assert Between(box, medians) && BisectFails(box, medians);
  }

  ghost predicate SomeSame(pieces: seq<Box>) {
    exists k :: 0 <= k < |pieces| && pieces[k].lower.Same(pieces[k].upper)
  }

  /** bisect.  ok is false when its assert fails; otherwise the result partitions the box
      into 2^4 pieces.  A box with room on the last axis never fails. */
  method Bisect(box: Box, medians: Memory) returns (ok: bool, ret: seq<Box>)
    requires Between(box, medians)
    ensures ok <==> !BisectFails(box, medians)
    ensures ok ==> Partition(ret, box) && |ret| == 16
    ensures Inside(box, medians) ==> ok && Cut(ret, box, medians, 4)
  {
    ret := [box];
    assert ret[0] == box;
    for i := 0 to DATASIZE
      invariant Partition(ret, box)
      invariant forall k :: 0 <= k < |ret| ==> Uncut(ret[k], box, i)
      invariant |ret| == if i == 0 then 1 else if i == 1 then 2 else if i == 2 then 4 else if i == 3 then 8 else 16
      invariant i == 0 ==> ret == [box]
      invariant i == 1 || i == 2 ==> (SomeFlat0(ret) <==> FirstCutOnBound(box, medians))
      invariant i >= 2 ==> !(Flat(box, 3) && Flat(box, 2) && FirstCutOnBound(box, medians))
      invariant i == 3 && Flat(box, 3) ==> (SomeFlat02(ret) <==> BisectFails(box, medians))
      invariant i == 4 ==> !BisectFails(box, medians)
      invariant Inside(box, medians) ==> Cut(ret, box, medians, i)
    {
      ghost var pieces := ret;
      ok, ret := BisectAxis(ret, box, i, medians);
      FailsNow(pieces, box, i, medians);
      if !ok {
        InsideSplits(box, medians);
        return;
      }
      if Inside(box, medians) {
        CutNext(pieces, ret, box, medians, i);
      }
      if i == 0 {
        FlatAfterFirst(box, ret, medians);
      } else if i == 1 {
        FlatAfterSecond(pieces, ret, medians.recRec);
      } else if i == 2 && Flat(box, 3) {
        FlatAfterThird(pieces, ret, box, medians);
      }
    }
    ok := true;
  }

  /** Each median lies strictly inside its axis. */
  ghost predicate Inside(box: Box, medians: Memory) {
    forall i: Axis :: box.lower.Field(i) < medians.Field(i) < box.upper.Field(i)
  }

  /** On axis j the piece is the upper or the lower part of the box cut at the median. */
  ghost predicate CutAt(x: Box, box: Box, medians: Memory, j: Axis, upper: bool) {
    && x.lower.Field(j) == (if upper then medians.Field(j) else box.lower.Field(j))
    && x.upper.Field(j) == (if upper then box.upper.Field(j) else medians.Field(j))
  }

  /** The n-th binary digit of k. */
  ghost predicate Digit(k: nat, n: nat) {
    if n == 0 then k % 2 == 1 else Digit(k / 2, n - 1)
  }

  /** The first i axes are cut, and the part on axis j is the j-th of the i digits of k. */
  ghost predicate CutTo(x: Box, box: Box, medians: Memory, i: nat, k: nat) {
    forall j: Axis :: j < i ==> CutAt(x, box, medians, j, Part(k, i, j))
  }

  ghost predicate Part(k: nat, i: nat, j: nat)
    requires j < i
  {
    Digit(k, i - 1 - j)
  }

  ghost predicate Cut(pieces: seq<Box>, box: Box, medians: Memory, i: nat) {
    forall k: nat :: k < |pieces| ==> CutTo(pieces[k], box, medians, i, k)
  }

  lemma InsideSplits(box: Box, medians: Memory)
    ensures Inside(box, medians) ==> !BisectFails(box, medians)
  {
    if Inside(box, medians) {
      assert box.lower.Field(2) < medians.Field(2) < box.upper.Field(2);
    }
  }

  /** Every one of the 2^4 choices of a part on each axis is one of the pieces. */
  lemma EveryCorner(pieces: seq<Box>, box: Box, medians: Memory, choice: seq<bool>)
    requires |pieces| == 16 && Cut(pieces, box, medians, 4) && |choice| == 4
    ensures exists k: nat :: k < 16 && forall j: Axis :: CutAt(pieces[k], box, medians, j, choice[j])
  {
    var k := (if choice[0] then 8 else 0) + (if choice[1] then 4 else 0) + (if choice[2] then 2 else 0) + if choice[3] then 1 else 0;
    assert Part(k, 4, 3) == Digit(k, 0) == choice[3];
    assert Part(k, 4, 2) == Digit(k, 1) == Digit(k / 2, 0) == choice[2];
    assert Part(k, 4, 1) == Digit(k, 2) == Digit(k / 2, 1) == Digit(k / 2 / 2, 0) == choice[1];
    assert Part(k, 4, 0) == Digit(k, 3) == Digit(k / 2, 2) == Digit(k / 2 / 2, 1) == Digit(k / 2 / 2 / 2, 0) == choice[0];
    assert CutTo(pieces[k], box, medians, 4, k);
    forall j: Axis ensures CutAt(pieces[k], box, medians, j, choice[j]) {
      assert CutAt(pieces[k], box, medians, j, Part(k, 4, j));
    }
  }

  /** One pass cuts every piece at the median. */
  lemma CutNext(pieces: seq<Box>, doubled: seq<Box>, box: Box, medians: Memory, i: Axis)
    requires Inside(box, medians) && Cut(pieces, box, medians, i)
    requires forall k :: 0 <= k < |pieces| ==> Uncut(pieces[k], box, i)
    requires Halved(pieces, doubled, i, medians.Field(i))
    ensures Cut(doubled, box, medians, i + 1)
  {
    forall k: nat | k < |doubled| ensures CutTo(doubled[k], box, medians, i + 1, k) {
      HalfCut(pieces, doubled, box, medians, i, k);
    }
  }

  lemma HalfCut(pieces: seq<Box>, doubled: seq<Box>, box: Box, medians: Memory, i: Axis, k: nat)
    requires Inside(box, medians) && Cut(pieces, box, medians, i) && k < |doubled|
    requires forall k :: 0 <= k < |pieces| ==> Uncut(pieces[k], box, i)
    requires Halved(pieces, doubled, i, medians.Field(i))
    ensures CutTo(doubled[k], box, medians, i + 1, k)
  {
    hide Inside, Uncut, CutTo, SplitPiece;
    var m := k / 2;
    assert SplitPiece(pieces[m], i, medians.Field(i)) == Halves(doubled[2 * m], doubled[2 * m + 1]);
    CutPiece(pieces[m], box, medians, i, m);
    assert k == 2 * m || k == 2 * m + 1;
  }

  lemma CutPiece(x: Box, box: Box, medians: Memory, i: Axis, k: nat)
    requires Inside(box, medians) && Uncut(x, box, i) && CutTo(x, box, medians, i, k)
    requires SplitPiece(x, i, medians.Field(i)).Halves?
    ensures
      var s := SplitPiece(x, i, medians.Field(i));
      CutTo(s.low, box, medians, i + 1, 2 * k) && CutTo(s.high, box, medians, i + 1, 2 * k + 1)
  {
    var median := medians.Field(i);
    var s := SplitPiece(x, i, median);
    StillRoomy(x, box, medians, i, k);
    CutPointExact(x, i, median);
    WithExactly(x.lower, i, median);
    WithExactly(x.upper, i, median);
    var low, high, n := 2 * k, 2 * k + 1, i + 1;
    forall j: Axis | j < n
      ensures CutAt(s.low, box, medians, j, Part(low, n, j)) && CutAt(s.high, box, medians, j, Part(high, n, j))
    {
      if j < i {
        assert CutAt(x, box, medians, j, Part(k, i, j));
        assert low / 2 == high / 2 == k;
      }
    }
  }

  /** Cutting strictly inside leaves room on every axis. */
  lemma StillRoomy(x: Box, box: Box, medians: Memory, i: nat, k: nat)
    requires Inside(box, medians) && Uncut(x, box, i) && CutTo(x, box, medians, i, k)
    ensures forall j: Axis :: !Flat(x, j)
    ensures forall j: Axis :: i <= j ==> x.lower.Field(j) < medians.Field(j) < x.upper.Field(j)
  {
    forall j: Axis
      ensures !Flat(x, j)
      ensures i <= j ==> x.lower.Field(j) < medians.Field(j) < x.upper.Field(j)
    {
      assert box.lower.Field(j) < medians.Field(j) < box.upper.Field(j);
      if j < i {
        assert CutAt(x, box, medians, j, Part(k, i, j));
      }
    }
  }

  /** The halves of the pieces, in order. */
  ghost predicate Halved(pieces: seq<Box>, doubled: seq<Box>, i: Axis, median: real) {
    && |doubled| == 2 * |pieces|
    && forall k :: 0 <= k < |pieces| ==> SplitPiece(pieces[k], i, median) == Halves(doubled[2 * k], doubled[2 * k + 1])
  }

  /** One pass of the outer loop. */
  method BisectAxis(pieces: seq<Box>, ghost box: Box, i: Axis, medians: Memory) returns (ok: bool, doubled: seq<Box>)
    requires Between(box, medians)
    requires forall k :: 0 <= k < |pieces| ==> Uncut(pieces[k], box, i)
    ensures ok <==> !SomeSame(pieces)
    ensures ok ==> Halved(pieces, doubled, i, medians.Field(i))
    ensures ok ==> forall q: Memory :: Holders(doubled, q) == Holders(pieces, q)
    ensures ok ==> forall k :: 0 <= k < |doubled| ==> Uncut(doubled[k], box, i + 1)
  {
    doubled := [];
    for k := 0 to |pieces|
      invariant Halved(pieces[..k], doubled, i, medians.Field(i))
      invariant forall j :: 0 <= j < k ==> !pieces[j].lower.Same(pieces[j].upper)
      invariant forall q: Memory :: Holders(doubled, q) == Holders(pieces[..k], q)
      invariant forall j :: 0 <= j < |doubled| ==> Uncut(doubled[j], box, i + 1)
    {
      var x := pieces[k];
      var median := medians.Field(i);
      assert Uncut(x, box, i);
      UnsplittableFails(x, i, median);
      match SplitPiece(x, i, median) {
        case Fails => return false, [];
        case Whole => doubled := doubled + [x];
        case Halves(low, high) =>
          forall q: Memory
            ensures Holders(doubled + [low] + [high], q) == Holders(pieces[..k + 1], q)
          {
            HalvesPartition(x, i, median, q);
            HoldersSnoc(doubled, low, q);
            HoldersSnoc(doubled + [low], high, q);
            HoldersSnoc(pieces[..k], x, q);
            assert pieces[..k + 1] == pieces[..k] + [x];
          }
          HalvedSnoc(pieces[..k], doubled, x, low, high, i, median);
          assert pieces[..k + 1] == pieces[..k] + [x];
          doubled := doubled + [low] + [high];
      }
    }
    assert pieces[..|pieces|] == pieces;
    ok := true;
  }

  lemma HalvedSnoc(pieces: seq<Box>, doubled: seq<Box>, x: Box, low: Box, high: Box, i: Axis, median: real)
    requires Halved(pieces, doubled, i, median) && SplitPiece(x, i, median) == Halves(low, high)
    ensures Halved(pieces + [x], doubled + [low] + [high], i, median)
  {
    var more := doubled + [low] + [high];
    forall k | 0 <= k < |pieces| + 1
      ensures SplitPiece((pieces + [x])[k], i, median) == Halves(more[2 * k], more[2 * k + 1])
    {
      if k < |pieces| {
        assert more[2 * k] == doubled[2 * k] && more[2 * k + 1] == doubled[2 * k + 1];
      }
    }
  }

  /** Some piece has equal-looking bounds before pass i. */
  lemma FailsNow(pieces: seq<Box>, box: Box, i: Axis, medians: Memory)
    requires Between(box, medians)
    requires forall k :: 0 <= k < |pieces| ==> Uncut(pieces[k], box, i)
    requires i == 0 ==> pieces == [box]
    requires i == 1 || i == 2 ==> (SomeFlat0(pieces) <==> FirstCutOnBound(box, medians))
    requires i == 3 && Flat(box, 3) ==> (SomeFlat02(pieces) <==> BisectFails(box, medians))
    ensures SomeSame(pieces) ==> BisectFails(box, medians)
    ensures i == 1 && !SomeSame(pieces) ==> !(Flat(box, 3) && Flat(box, 2) && FirstCutOnBound(box, medians))
    ensures i == 3 && !SomeSame(pieces) ==> !BisectFails(box, medians)
  {
    assert forall k, j: Axis :: 0 <= k < |pieces| && i <= j ==> Flat(pieces[k], j) == Flat(box, j) by {
      forall k, j: Axis | 0 <= k < |pieces| && i <= j ensures Flat(pieces[k], j) == Flat(box, j) {
        assert Uncut(pieces[k], box, i);
      }
    }
    assert Between(box, medians) && box.lower.Field(2) <= medians.Field(2) <= box.upper.Field(2);
    assert box.lower.Field(0) <= medians.Field(0) <= box.upper.Field(0);
    if SomeSame(pieces) {
      var k :| 0 <= k < |pieces| && pieces[k].lower.Same(pieces[k].upper);
      assert Flat(pieces[k], 0) && Flat(pieces[k], 2) && Flat(pieces[k], 3);
    } else if i == 1 && SomeFlat0(pieces) {
      var k :| 0 <= k < |pieces| && Flat(pieces[k], 0);
      assert !pieces[k].lower.Same(pieces[k].upper);
      assert Flat(pieces[k], 2) == Flat(box, 2) && Flat(pieces[k], 3) == Flat(box, 3);
    } else if i == 3 && SomeFlat02(pieces) {
      var k :| 0 <= k < |pieces| && Flat(pieces[k], 0) && Flat(pieces[k], 2);
      assert !pieces[k].lower.Same(pieces[k].upper);
      assert Flat(pieces[k], 3) == Flat(box, 3);
    }
  }

  lemma FlatAfterFirst(box: Box, doubled: seq<Box>, medians: Memory)
    requires Halved([box], doubled, 0, medians.recSend)
    ensures SomeFlat0(doubled) <==> FirstCutOnBound(box, medians)
  {
    assert SplitPiece([box][0], 0, medians.recSend) == Halves(doubled[2 * 0], doubled[2 * 0 + 1]);
    assert Flat(doubled[0], 0) || Flat(doubled[1], 0) <==> FirstCutOnBound(box, medians);
  }

  lemma FlatAfterSecond(pieces: seq<Box>, doubled: seq<Box>, median: real)
    requires Halved(pieces, doubled, 1, median)
    ensures SomeFlat0(doubled) <==> SomeFlat0(pieces)
  {
    if SomeFlat0(doubled) {
      var k :| 0 <= k < |doubled| && Flat(doubled[k], 0);
      assert SplitPiece(pieces[k / 2], 1, median) == Halves(doubled[2 * (k / 2)], doubled[2 * (k / 2) + 1]);
      assert Flat(pieces[k / 2], 0);
    }
    if SomeFlat0(pieces) {
      var k :| 0 <= k < |pieces| && Flat(pieces[k], 0);
      assert SplitPiece(pieces[k], 1, median) == Halves(doubled[2 * k], doubled[2 * k + 1]);
      assert Flat(doubled[2 * k], 0);
    }
  }

  lemma FlatAfterThird(pieces: seq<Box>, doubled: seq<Box>, box: Box, medians: Memory)
    requires Between(box, medians) && Flat(box, 3)
    requires forall k :: 0 <= k < |pieces| ==> Uncut(pieces[k], box, 2)
    requires Halved(pieces, doubled, 2, medians.rttRatio)
    requires SomeFlat0(pieces) <==> FirstCutOnBound(box, medians)
    requires !(Flat(box, 2) && FirstCutOnBound(box, medians))
    ensures SomeFlat02(doubled) <==> BisectFails(box, medians)
  {
    assert box.lower.Field(2) <= medians.Field(2) <= box.upper.Field(2);
    if SomeFlat02(doubled) {
      var k :| 0 <= k < |doubled| && Flat(doubled[k], 0) && Flat(doubled[k], 2);
      ThirdHalves(pieces[k / 2], doubled[2 * (k / 2)], doubled[2 * (k / 2) + 1], box, medians);
    }
    if BisectFails(box, medians) {
      var k :| 0 <= k < |pieces| && Flat(pieces[k], 0);
      ThirdHalves(pieces[k], doubled[2 * k], doubled[2 * k + 1], box, medians);
      assert Flat(doubled[2 * k + 1], 0) && Flat(doubled[2 * k + 1], 2);
    }
  }

  lemma ThirdHalves(x: Box, low: Box, high: Box, box: Box, medians: Memory)
    requires Between(box, medians) && Flat(box, 3) && Uncut(x, box, 2)
    requires SplitPiece(x, 2, medians.rttRatio) == Halves(low, high)
    ensures Flat(low, 0) == Flat(high, 0) == Flat(x, 0)
    ensures Flat(x, 0) && !Flat(box, 2) ==> !Flat(low, 2) && (Flat(high, 2) <==> medians.rttRatio == box.upper.rttRatio)
  {
    assert x.lower.Field(2) == box.lower.Field(2) && x.upper.Field(2) == box.upper.Field(2);
    assert x.lower.Field(3) == box.lower.Field(3) && x.upper.Field(3) == box.upper.Field(3);
    assert box.lower.Field(2) <= medians.Field(2) <= box.upper.Field(2);
  }
}
