/** Verus's delay curve kept as a table (the branch without a spline): the delay seen at each
    window size, the window for a delay, and the delay for a window.  Doubles are reals. */
module DelayCurves {
  import opened ExtremeWindows

  const MAX_W: nat := 40000

  /** A table entry is -1 until its window size has been measured. */
  predicate Measured(v: real) {
    v >= 0.0
  }

  function Ewma(v: real, delay: real, alpha: real): real {
    if v < 0.0 then delay else v * alpha + (1.0 - alpha) * delay
  }

  /** The mean moves an eighth of the way to each new delay, and starts from the first one. */
  lemma EwmaExactly(v: real, delay: real)
    requires delay >= 0.0
    ensures Measured(Ewma(v, delay, 0.875))
    ensures if Measured(v) then 8.0 * (Ewma(v, delay, 0.875) - v) == delay - v else Ewma(v, delay, 0.875) == delay
  {
  }

  // ------------------------------------------------------------ window for a delay

  /** No entry from 2 up to w exceeds delay. */
  ghost predicate NoneAbove(s: seq<real>, delay: real, w: nat) {
    forall j :: 2 <= j < w && j < |s| ==> s[j] <= delay
  }

  /** The delay after lowering it k times. */
  function Lowered(delay: real, k: nat): real {
    delay - 2.0 * k as real
  }

  /** r is one less than the first entry above delay - 2k, for the least k that has one. */
  ghost predicate IsWindow(s: seq<real>, delay: real, r: int, k: nat) {
    && 1 <= r < |s| - 1
    && s[r + 1] > Lowered(delay, k)
    && NoneAbove(s, Lowered(delay, k), r + 1)
    && forall i: nat :: i < k ==> NoneAbove(s, Lowered(delay, i), |s|)
  }

  lemma IsWindowUnique(s: seq<real>, delay: real, r: int, k: nat, r': int, k': nat)
    requires IsWindow(s, delay, r, k) && IsWindow(s, delay, r', k')
    ensures r == r' && k == k'
  {
    assert s[r + 1] > Lowered(delay, k) && s[r' + 1] > Lowered(delay, k');
  }

  /** When no entry exceeds a delay, the answer is that of the delay lowered once. */
  lemma OneMore(s: seq<real>, delay: real, r: int, k: nat)
    requires IsWindow(s, delay - 2.0, r, k) && NoneAbove(s, delay, |s|)
    ensures IsWindow(s, delay, r, k + 1)
  {
    assert Lowered(delay, k + 1) == Lowered(delay - 2.0, k) && Lowered(delay, 0) == delay;
    assert forall i: nat :: 0 < i < k + 1 ==> Lowered(delay, i) == Lowered(delay - 2.0, i - 1);
  }

  // ------------------------------------------------------------ delay for a window

  /** C's conversion of a nonnegative or slightly negative double to int. */
  function Index(w: real): int
    requires w > -1.0
  {
    if w < 0.0 then 0 else w.Floor
  }

  /** j is the last measured window size up to w, or 0 when there is none. */
  ghost predicate LastMeasured(s: seq<real>, w: nat, j: nat) {
    && j <= w < |s|
    && (forall i :: j < i <= w ==> !Measured(s[i]))
    && (Measured(s[j]) || j == 0)
  }

  // ------------------------------------------------------------ round trip

  /** Measured delays grow with the window. */
  ghost predicate Rising(s: seq<real>) {
    forall i, j :: 0 <= i < j < |s| && Measured(s[i]) && Measured(s[j]) ==> s[i] < s[j]
  }

  /** Every entry is -1 or a delay. */
  ghost predicate Table(s: seq<real>) {
    |s| == MAX_W && forall i :: 0 <= i < |s| ==> s[i] == -1.0 || Measured(s[i])
  }

  /** No measured entry is below the minimum delay. */
  ghost predicate AtLeastMin(s: seq<real>, dMin: real) {
    forall i :: 0 <= i < |s| && Measured(s[i]) ==> s[i] >= dMin
  }

  /** Nothing has been measured beyond a window of one. */
  ghost predicate NothingAbove(s: seq<real>) {
    forall i :: 2 <= i < |s| ==> !Measured(s[i])
  }

  /** Without lowering, the answer is one less than the next measured size. */
  lemma NextMeasured(s: seq<real>, w: nat, j: nat, r: int)
    requires Rising(s) && LastMeasured(s, w, j) && Measured(s[j])
    requires IsWindow(s, s[j], r, 0)
    ensures w <= r && Measured(s[r + 1]) && (forall i :: w < i <= r && i >= 2 ==> !Measured(s[i]))
  {
    assert Lowered(s[j], 0) == s[j];
    assert r + 1 > j;
    forall i | w < i <= r && i >= 2 ensures !Measured(s[i]) {
      assert s[i] <= s[j];
    }
  }

  /** With lowering, no measured delay exceeds the one looked up. */
  lemma NothingLonger(s: seq<real>, j: nat, delay: real)
    requires j < |s| && Rising(s) && Measured(s[j]) && delay == s[j]
    requires NoneAbove(s, Lowered(delay, 0), |s|)
    ensures forall i :: 2 <= i < |s| && i > j ==> !Measured(s[i])
  {
    assert Lowered(delay, 0) == s[j];
    forall i | 2 <= i < |s| && i > j ensures !Measured(s[i]) {
      assert s[i] <= s[j];
    }
  }

  /** Taking the delay for a window and the window for that delay gives the window back exactly
      when the next size has been measured (or for one, when nothing larger has been). */
  lemma RoundTrip(s: seq<real>, dMin: real, w: nat, j: nat, r: int, k: nat)
    requires Table(s) && AtLeastMin(s, dMin) && Rising(s) && LastMeasured(s, w, j) && Measured(s[j])
    requires IsWindow(s, RealMax(s[j], dMin), r, k)
    ensures r == w <==> w >= 1 && ((w + 1 < |s| && Measured(s[w + 1])) || (w == 1 && NothingAbove(s)))
  {
    if k == 0 {
      NextMeasured(s, w, j, r);
    } else {
      NothingLonger(s, j, s[j]);
      assert Lowered(s[j], k) < s[j];
      if j >= 2 {
        assert r + 1 <= j;
      } else {
        assert s[2] == -1.0 == s[r + 1];
      }
    }
  }

  /** Where nothing is measured up to w, the delay for w is the minimum.  The round trip then
      gives w back exactly when the next entry exceeds the minimum; when no entry at all does,
      the lowered delay decides. */
  lemma UnmeasuredRoundTrip(s: seq<real>, dMin: real, w: nat, j: nat, r: int, k: nat)
    requires Table(s) && dMin >= 0.0 && AtLeastMin(s, dMin) && Rising(s)
    requires LastMeasured(s, w, j) && !Measured(s[j])
    requires IsWindow(s, RealMax(s[j], dMin), r, k)
    ensures r == w <==>
      w >= 1 &&
      if NoneAbove(s, dMin, |s|)
      then (dMin >= 1.0 && w + 1 < |s| && Measured(s[w + 1])) || (w == 1 && (dMin < 1.0 || NothingAbove(s)))
      else w + 1 < |s| && s[w + 1] > dMin
  {
    assert Lowered(dMin, 0) == dMin && Lowered(dMin, 1) == dMin - 2.0;
    if NoneAbove(s, dMin, |s|) {
      assert k >= 1;
      LoweredOnce(s, dMin, r, k);
    } else {
      assert k == 0;
    }
  }

  /** No entry exceeds the minimum: the answer is 1, or one less than the one measured size. */
  lemma LoweredOnce(s: seq<real>, dMin: real, r: int, k: nat)
    requires Table(s) && dMin >= 0.0 && AtLeastMin(s, dMin) && Rising(s)
    requires IsWindow(s, dMin, r, k) && k >= 1 && NoneAbove(s, dMin, |s|)
    ensures if dMin < 1.0 || NothingAbove(s) then r == 1
            else Measured(s[r + 1]) && forall i :: 2 <= i < |s| && Measured(s[i]) ==> i == r + 1
  {
    assert Lowered(dMin, 1) == dMin - 2.0;
    if dMin < 1.0 {
      assert s[2] > Lowered(dMin, 1);
      assert k == 1;
    } else if NothingAbove(s) {
      assert s[2] == -1.0 == s[r + 1];
    } else {
      var t :| 2 <= t < |s| && Measured(s[t]);
      assert s[t] == dMin > Lowered(dMin, 1);
      assert k == 1;
    }
  }

  /** On a fully measured table the two are inverse for every window from 1 to MAX_W - 2. */
  lemma FullRoundTrip(s: seq<real>, dMin: real, w: nat, r: int, k: nat)
    requires Table(s) && AtLeastMin(s, dMin) && Rising(s) && (forall i :: 0 <= i < |s| ==> Measured(s[i])) && w < |s|
    requires IsWindow(s, RealMax(s[w], dMin), r, k)
    ensures r == w <==> 1 <= w <= MAX_W - 2
  {
    RoundTrip(s, dMin, w, w, r, k);
    assert Measured(s[2]);
  }

  class DelayCurve {
    const wList: array<real>
    var dMin: real
    var dTBar: real
    var maxWCurve: int
    var wCrt: int

    ghost predicate Valid()
      reads this, wList
    {
      Table(wList[..]) && dMin >= 0.0
    }

    /** The state that restartSlowStart leaves. */
    constructor ()
      ensures Valid() && fresh(wList) && dMin == 1000.0 && forall i :: 0 <= i < MAX_W ==> wList[i] == -1.0
    {
      wList := new real[MAX_W](_ => -1.0);
      dMin, dTBar := 1000.0, 0.0;
      maxWCurve, wCrt := 0, 0;
    }

    method RestartSlowStart()
      requires wList.Length == MAX_W
      modifies this, wList
      ensures Valid() && dMin == 1000.0 && forall i :: 0 <= i < MAX_W ==> wList[i] == -1.0
      ensures maxWCurve == 0 && dTBar == 0.0 && wCrt == 0
    {
      maxWCurve, dTBar, wCrt := 0, 0.0, 0;
      dMin := 1000.0;
      for i := 0 to MAX_W
        invariant maxWCurve == 0 && dTBar == 0.0 && wCrt == 0
        invariant dMin == 1000.0 && forall j :: 0 <= j < i ==> wList[j] == -1.0
      {
        wList[i] := -1.0;
      }
    }

    /** The measurement of one packet sent with window w. */
    method UpdateUponReceivingPacket(delay: real, w: nat, numAcks: nat)
      requires Valid() && delay >= 0.0 && w < MAX_W
      modifies this, wList
      ensures Valid() && dMin == RealMin(old(dMin), delay) && Measured(wList[w])
      ensures old(AtLeastMin(wList[..], dMin)) ==> AtLeastMin(wList[..], dMin)
      ensures wList[..] == old(wList[..])[w := Ewma(old(wList[w]), delay, 0.875)]
      ensures dTBar == Ewma(old(dTBar), delay, 0.875)
      ensures wCrt == old(wCrt) - (if old(wCrt) > 0 then numAcks else 0)
      ensures old(maxWCurve) <= maxWCurve && w <= maxWCurve && (maxWCurve == old(maxWCurve) || maxWCurve == w)
    {
      if wCrt > 0 {
        wCrt := wCrt - numAcks;
      }
      dTBar := Ewma(dTBar, delay, 0.875);
      if delay < dMin {
        dMin := delay;
      }
      wList[w] := Ewma(wList[w], delay, 0.875);
      if maxWCurve < w {
        maxWCurve := w;
      }
    }

    /** Verus raises its minimum when it cannot send less; entries may then lie below it. */
    method RaiseMinimum()
      requires Valid()
      modifies this`dMin
      ensures Valid() && dMin == old(dMin) + 10.0
    {
      dMin := dMin + 10.0;
    }

    /** The window for a delay; it lowers the delay by 2 until some entry exceeds it. */
    method CalcDelayCurve(delay: real) returns (r: int)
      requires Valid()
      ensures exists k: nat :: IsWindow(wList[..], delay, r, k)
      decreases delay + 1.0
    {
      var w := 2;
      while w < MAX_W
        invariant 2 <= w <= MAX_W && NoneAbove(wList[..], delay, w)
      {
        if wList[w] > delay {
          assert Lowered(delay, 0) == delay;
          assert IsWindow(wList[..], delay, w - 1, 0);
          return w - 1;
        }
        w := w + 1;
      }
      assert wList[..][2] <= delay;
      r := CalcDelayCurve(delay - 2.0);
      ghost var k: nat :| IsWindow(wList[..], delay - 2.0, r, k);
      OneMore(wList[..], delay, r, k);
    }

    /** The delay for a window: the last measured entry up to it, at least the minimum. */
    method CalcDelayCurveInv(w: real) returns (ret: real)
      requires Valid() && -1.0 < w < MAX_W as real
      ensures exists j: nat :: LastMeasured(wList[..], Index(w), j) && ret == RealMax(wList[j], dMin)
    {
      var at := w;
      ret := wList[Index(at)];
      while ret < 0.0 && at > 0.0
        invariant -1.0 < at <= w && ret == wList[Index(at)]
        invariant forall i :: Index(at) < i <= Index(w) ==> !Measured(wList[i])
        decreases at + 1.0
      {
        at := at - 1.0;
        ret := wList[Index(at)];
      }
      assert LastMeasured(wList[..], Index(w), Index(at));
      ret := RealMax(ret, dMin);
    }
  }
}
