/** The four round-trip-time trackers that Copa reads (class RTTWindow).  Their window
    lengths follow srtt and the minimum itself, so they change with every sample. */
module RttWindows {
  import opened ExtremeWindows

  /** The limits of double: its largest finite value and its least positive normal one. */
  datatype Limits = Limits(largest: real, least: real)

  datatype RttState = RttState(
    srtt: real, latestRtt: real,
    minRtt: Tracker, unjitteredRtt: Tracker, isCopaMin: Tracker, isCopaMax: Tracker)

  function ClearedRtt(lim: Limits, latestRtt: real): RttState {
    RttState(0.0, latestRtt, Cleared(true, lim.largest), Cleared(true, lim.largest),
             Cleared(true, lim.largest), Cleared(false, lim.least))
  }

  /** The smoothed estimate after one sample. */
  function Smoothed(srtt: real, rtt: real): real {
    var s := if srtt == 0.0 then rtt else srtt;
    rtt / 16.0 + (1.0 - 1.0 / 16.0) * s
  }

  /** The first sample is taken as it is, and each later one moves the estimate a sixteenth of
      the way. */
  lemma SmoothedExactly(srtt: real, rtt: real)
    ensures 16.0 * (Smoothed(srtt, rtt) - srtt) == if srtt == 0.0 then 16.0 * rtt else rtt - srtt
  {
  }

  ghost function RttSampled(w: RttState, rtt: real, now: real): RttState {
    var srtt := Smoothed(w.srtt, rtt);
    var maxTime := RealMax(10000.0, 20.0 * w.minRtt.extreme);
    var copaTime := RealMin(maxTime, srtt * 4.0);
    RttState(srtt, rtt,
      Sampled(w.minRtt.(maxTime := maxTime), rtt, now),
      Sampled(w.unjitteredRtt.(maxTime := RealMin(maxTime, srtt * 0.5)), rtt, now),
      Sampled(w.isCopaMin.(maxTime := copaTime), rtt, now),
      Sampled(w.isCopaMax.(maxTime := copaTime), rtt, now))
  }

  ghost predicate LongerSpans(wide: Tracker, narrow: Tracker) {
    wide.history == narrow.history && Pointwise(wide.spans, narrow.spans)
  }

  ghost predicate Pointwise(wide: seq<real>, narrow: seq<real>) {
    && |wide| == |narrow|
    && (wide != [] ==> Pointwise(wide[..|wide| - 1], narrow[..|wide| - 1])
                       && wide[|wide| - 1] >= narrow[|wide| - 1])
  }

  /** The windows of one sample: ten seconds or twenty of the old minimum for the minimum, and
      for the others four round trips or half a round trip by the new smoothed estimate, never
      more than the minimum's. */
  lemma SpansExactly(w: RttState, rtt: real, now: real)
    ensures
      var w' := RttSampled(w, rtt, now);
      var long := w'.minRtt.maxTime;
      && long >= 10000.0 && long >= 20.0 * w.minRtt.extreme && (long == 10000.0 || long == 20.0 * w.minRtt.extreme)
      && w'.unjitteredRtt.maxTime == (if w'.srtt <= 2.0 * long then w'.srtt / 2.0 else long)
      && w'.isCopaMin.maxTime == (if 4.0 * w'.srtt <= long then 4.0 * w'.srtt else long)
      && w'.isCopaMax.maxTime == w'.isCopaMin.maxTime
      && w'.latestRtt == rtt && w'.srtt == Smoothed(w.srtt, rtt)
    ensures
      var w' := RttSampled(w, rtt, now);
      && Extends(w.minRtt, w'.minRtt, w'.minRtt.maxTime, rtt, now)
      && Extends(w.unjitteredRtt, w'.unjitteredRtt, w'.unjitteredRtt.maxTime, rtt, now)
      && Extends(w.isCopaMin, w'.isCopaMin, w'.isCopaMin.maxTime, rtt, now)
      && Extends(w.isCopaMax, w'.isCopaMax, w'.isCopaMax.maxTime, rtt, now)
  {
    hide NotBeaten, NotExpired, Smoothed;
  }

  /** All four trackers have seen the same samples, through nested windows. */
  ghost predicate Linked(w: RttState, lim: Limits) {
    && w.srtt >= 0.0
    && w.minRtt.findMin && w.unjitteredRtt.findMin && w.isCopaMin.findMin && !w.isCopaMax.findMin
    && w.minRtt.seed == w.unjitteredRtt.seed == w.isCopaMin.seed == lim.largest
    && LongerSpans(w.minRtt, w.isCopaMin) && LongerSpans(w.isCopaMin, w.unjitteredRtt)
    && w.isCopaMax.history == w.minRtt.history
    && (w.minRtt.history != [] ==>
          Seeded(true, w.minRtt.history, lim.largest)
          && w.latestRtt == w.minRtt.history[|w.minRtt.history| - 1].val)
  }

  ghost predicate AllGood(w: RttState) {
    Good(w.minRtt) && Good(w.unjitteredRtt) && Good(w.isCopaMin) && Good(w.isCopaMax)
  }

  ghost predicate RttInv(w: RttState, lim: Limits) {
    Linked(w, lim) && AllGood(w)
  }

  /** What the controller relies on. */
  ghost predicate RttOrder(w: RttState) {
    w.minRtt.extreme <= w.isCopaMin.extreme <= w.unjitteredRtt.extreme <= w.latestRtt <= w.isCopaMax.extreme
  }

  lemma {:induction false} CutoffsNested(h: seq<Sample>, wide: seq<real>, narrow: seq<real>)
    requires |h| == |wide| > 0 && Pointwise(wide, narrow)
    ensures Cutoff(h, wide) <= Cutoff(h, narrow)
    decreases |h|
  {
    var n := |h| - 1;
    if n > 0 {
      CutoffsNested(h[..n], wide[..n], narrow[..n]);
    }
  }

  /** A wider window holds an extreme at least as extreme. */
  lemma ExtremesNested(wide: Tracker, narrow: Tracker)
    requires Good(wide) && Good(narrow) && LongerSpans(wide, narrow) && wide.history != []
    requires wide.findMin == narrow.findMin && Seeded(narrow.findMin, narrow.history, narrow.seed)
    ensures NoWorse(wide.findMin, wide.extreme, narrow.extreme)
  {
    CutoffsNested(wide.history, wide.spans, narrow.spans);
    ExtremeIffSeeded(wide.findMin, wide.seed, wide.history, wide.spans, wide.extreme);
    ExtremeIffSeeded(narrow.findMin, narrow.seed, narrow.history, narrow.spans, narrow.extreme);
  }

  /** The newest sample is in every window. */
  lemma LatestBounded(t: Tracker)
    requires Good(t) && t.history != []
    ensures NoWorse(t.findMin, t.extreme, t.history[|t.history| - 1].val)
  {
    CutoffReached(t.history, t.spans);
    ExtremeIffSeeded(t.findMin, t.seed, t.history, t.spans, t.extreme);
  }

  /** After any sample the four estimates are ordered, whatever the window lengths did. */
  lemma InvOrders(w: RttState, lim: Limits)
    requires RttInv(w, lim) && w.minRtt.history != []
    ensures RttOrder(w)
  {
    ExtremesNested(w.minRtt, w.isCopaMin);
    ExtremesNested(w.isCopaMin, w.unjitteredRtt);
    LatestBounded(w.unjitteredRtt);
    LatestBounded(w.isCopaMax);
  }

  /** t' is t with one more sample, taken with window length maxTime. */
  ghost predicate Extends(t: Tracker, t': Tracker, maxTime: real, rtt: real, now: real) {
    && t'.findMin == t.findMin && t'.seed == t.seed
    && t'.history == t.history + [Sample(now, rtt)] && t'.spans == t.spans + [maxTime]
  }

  lemma StepGood(t: Tracker, maxTime: real, rtt: real, now: real)
    requires Good(t) && maxTime >= 0.0 && NotBefore(now, t.history)
    ensures var t' := Sampled(t.(maxTime := maxTime), rtt, now);
            Good(t') && Extends(t, t', maxTime, rtt, now)
  {
    SampledGood(t.(maxTime := maxTime), rtt, now);
  }

  lemma StepNested(wide: Tracker, narrow: Tracker, wide': Tracker, narrow': Tracker,
                   x: real, y: real, rtt: real, now: real)
    requires LongerSpans(wide, narrow) && x >= y
    requires Extends(wide, wide', x, rtt, now) && Extends(narrow, narrow', y, rtt, now)
    ensures LongerSpans(wide', narrow')
  {
    assert (wide.spans + [x])[..|wide.spans|] == wide.spans;
    assert (narrow.spans + [y])[..|narrow.spans|] == narrow.spans;
  }

  lemma StepSeeded(h: seq<Sample>, s: Sample, largest: real)
    requires s.val <= largest
    ensures Seeded(true, h + [s], largest)
  {
  }

  lemma LinkedKept(w: RttState, w': RttState, lim: Limits, rtt: real, now: real,
                   long: real, middle: real, short: real)
    requires Linked(w, lim) && rtt <= lim.largest && long >= middle >= short
    requires w'.srtt >= 0.0 && w'.latestRtt == rtt
    requires Extends(w.minRtt, w'.minRtt, long, rtt, now)
    requires Extends(w.unjitteredRtt, w'.unjitteredRtt, short, rtt, now)
    requires Extends(w.isCopaMin, w'.isCopaMin, middle, rtt, now)
    requires Extends(w.isCopaMax, w'.isCopaMax, middle, rtt, now)
    ensures Linked(w', lim)
  {
    StepNested(w.minRtt, w.isCopaMin, w'.minRtt, w'.isCopaMin, long, middle, rtt, now);
    StepNested(w.isCopaMin, w.unjitteredRtt, w'.isCopaMin, w'.unjitteredRtt, middle, short, rtt, now);
    StepSeeded(w.minRtt.history, Sample(now, rtt), lim.largest);
  }

  lemma ClearedInv(lim: Limits)
    ensures RttInv(ClearedRtt(lim, 0.0), lim) && ClearedRtt(lim, 0.0).minRtt.history == []
  {
  }

  lemma RttSampledInv(w: RttState, lim: Limits, rtt: real, now: real)
    requires RttInv(w, lim) && 0.0 <= rtt <= lim.largest && NotBefore(now, w.minRtt.history)
    ensures RttInv(RttSampled(w, rtt, now), lim) && RttOrder(RttSampled(w, rtt, now))
    ensures RttSampled(w, rtt, now).minRtt.history == w.minRtt.history + [Sample(now, rtt)]
  {
    hide Good, Sampled;
    var srtt := Smoothed(w.srtt, rtt);
    var long := RealMax(10000.0, 20.0 * w.minRtt.extreme);
    var middle, short := RealMin(long, srtt * 4.0), RealMin(long, srtt * 0.5);
    var w' := RttSampled(w, rtt, now);
    StepGood(w.minRtt, long, rtt, now);
    StepGood(w.unjitteredRtt, short, rtt, now);
    StepGood(w.isCopaMin, middle, rtt, now);
    StepGood(w.isCopaMax, middle, rtt, now);
    LinkedKept(w, w', lim, rtt, now, long, middle, short);
    InvOrders(w', lim);
  }

  /** The trackers after a whole run of samples since the last clear. */
  ghost function RttAfter(lim: Limits, samples: seq<Sample>): RttState {
    if samples == [] then ClearedRtt(lim, 0.0)
    else
      var last := samples[|samples| - 1];
      RttSampled(RttAfter(lim, samples[..|samples| - 1]), last.val, last.time)
  }

  /** For every run of nonnegative samples in time order: min_rtt <= is_copa_min <=
      unjittered_rtt <= latest_rtt <= is_copa_max after each one. */
  lemma {:induction false} RttRunOrdered(lim: Limits, samples: seq<Sample>)
    requires Ordered(samples)
    requires forall i :: 0 <= i < |samples| ==> 0.0 <= samples[i].val <= lim.largest
    ensures RttInv(RttAfter(lim, samples), lim) && RttAfter(lim, samples).minRtt.history == samples
    ensures samples != [] ==> RttOrder(RttAfter(lim, samples))
  {
    hide Good, RttSampled, RttOrder, Linked;
    if samples == [] {
      ClearedInv(lim);
    } else {
      var front, last := samples[..|samples| - 1], samples[|samples| - 1];
      assert forall i :: 0 <= i < |front| ==> front[i] == samples[i];
      RttRunOrdered(lim, front);
      RttSampledInv(RttAfter(lim, front), lim, last.val, last.time);
      assert samples == front + [last];
    }
  }

  /** is_copa: the recent minimum lies below a tenth of the way from the minimum to the recent
      maximum. */
  predicate CopaLike(w: RttState) {
    10.0 * (w.isCopaMin.extreme - w.minRtt.extreme) < w.isCopaMax.extreme - w.minRtt.extreme
  }

  /** Some sample of the last four smoothed round trips lies that low. */
  ghost predicate RecentLow(w: RttState)
    requires |w.isCopaMin.history| == |w.isCopaMin.spans| > 0
  {
    var h, t := w.isCopaMin.history, w.isCopaMin;
    exists i :: 0 <= i < |h| && h[i].time >= Cutoff(h, t.spans)
                && 10.0 * (h[i].val - w.minRtt.extreme) < w.isCopaMax.extreme - w.minRtt.extreme
  }

  /** What is_copa says: some recent sample has drained the queue to a tenth.  It is false
      when the recent minimum and maximum agree. */
  lemma CopaLikeMeaning(w: RttState, lim: Limits)
    requires RttInv(w, lim) && w.minRtt.history != []
    ensures |w.isCopaMin.history| == |w.isCopaMin.spans| > 0
    ensures CopaLike(w) <==> RecentLow(w)
    ensures w.isCopaMin.extreme == w.isCopaMax.extreme ==> !CopaLike(w)
  {
    var t := w.isCopaMin;
    ExtremeIffSeeded(t.findMin, t.seed, t.history, t.spans, t.extreme);
    InvOrders(w, lim);
  }

  class RttWindow {
    const lim: Limits
    var srtt: real
    var latestRtt: real
    const minRtt: ExtremeWindow
    const unjitteredRtt: ExtremeWindow
    const isCopaMin: ExtremeWindow
    const isCopaMax: ExtremeWindow

    ghost const Trackers := {minRtt, unjitteredRtt, isCopaMin, isCopaMax}

    ghost predicate Distinct() {
      && minRtt != unjitteredRtt && minRtt != isCopaMin && minRtt != isCopaMax
      && unjitteredRtt != isCopaMin && unjitteredRtt != isCopaMax && isCopaMin != isCopaMax
    }

    ghost function View(): RttState
      reads this, Trackers
    {
      RttState(srtt, latestRtt, minRtt.View(), unjitteredRtt.View(), isCopaMin.View(), isCopaMax.View())
    }

    constructor (lim: Limits)
      ensures Distinct() && fresh(Trackers) && this.lim == lim
      ensures View() == ClearedRtt(lim, 0.0) && RttInv(View(), lim)
    {
      this.lim := lim;
      srtt, latestRtt := 0.0, 0.0;
      minRtt := new ExtremeWindow(true, lim.largest);
      unjitteredRtt := new ExtremeWindow(true, lim.largest);
      isCopaMin := new ExtremeWindow(true, lim.largest);
      isCopaMax := new ExtremeWindow(false, lim.least);
    }

    /** One round-trip time, measured no earlier than the ones before. */
    method NewRttSample(rtt: real, now: real)
      requires Distinct() && RttInv(View(), lim)
      requires 0.0 <= rtt <= lim.largest && NotBefore(now, minRtt.history)
      modifies this, Trackers
      ensures View() == RttSampled(old(View()), rtt, now)
      ensures RttInv(View(), lim) && RttOrder(View())
    {
      hide Good, Sampled, RttOrder;
      ghost var w := View();
      RttSampledInv(w, lim, rtt, now);
      if srtt == 0.0 {
        srtt := rtt;
      }
      srtt := 1.0 / 16.0 * rtt + (1.0 - 1.0 / 16.0) * srtt;
      latestRtt := rtt;
      var maxTime := RealMax(10000.0, 20.0 * minRtt.extreme);
      SetSpans(maxTime);
      Feed(rtt, now);
    }

    method SetSpans(maxTime: real)
      requires Distinct() && AllGood(View()) && srtt >= 0.0 && maxTime >= 0.0
      modifies Trackers
      ensures minRtt.View() == old(minRtt.View()).(maxTime := maxTime)
      ensures unjitteredRtt.View() == old(unjitteredRtt.View()).(maxTime := RealMin(maxTime, srtt * 0.5))
      ensures isCopaMin.View() == old(isCopaMin.View()).(maxTime := RealMin(maxTime, srtt * 4.0))
      ensures isCopaMax.View() == old(isCopaMax.View()).(maxTime := RealMin(maxTime, srtt * 4.0))
      ensures AllGood(View())
    {
      hide Good;
      SetSpanGood(minRtt.View(), maxTime);
      SetSpanGood(unjitteredRtt.View(), RealMin(maxTime, srtt * 0.5));
      SetSpanGood(isCopaMin.View(), RealMin(maxTime, srtt * 4.0));
      SetSpanGood(isCopaMax.View(), RealMin(maxTime, srtt * 4.0));
      minRtt.UpdateMaxTime(maxTime);
      unjitteredRtt.UpdateMaxTime(RealMin(maxTime, srtt * 0.5));
      isCopaMin.UpdateMaxTime(RealMin(maxTime, srtt * 4.0));
      isCopaMax.UpdateMaxTime(RealMin(maxTime, srtt * 4.0));
    }

    method Feed(rtt: real, now: real)
      requires Distinct() && AllGood(View())
      requires NotBefore(now, minRtt.history) && NotBefore(now, unjitteredRtt.history)
      requires NotBefore(now, isCopaMin.history) && NotBefore(now, isCopaMax.history)
      modifies Trackers
      ensures minRtt.View() == Sampled(old(minRtt.View()), rtt, now)
      ensures unjitteredRtt.View() == Sampled(old(unjitteredRtt.View()), rtt, now)
      ensures isCopaMin.View() == Sampled(old(isCopaMin.View()), rtt, now)
      ensures isCopaMax.View() == Sampled(old(isCopaMax.View()), rtt, now)
    {
      hide Good, Sampled;
      minRtt.NewSample(rtt, now);
      unjitteredRtt.NewSample(rtt, now);
      isCopaMin.NewSample(rtt, now);
      isCopaMax.NewSample(rtt, now);
    }

    /** Whether the recent spread of delays looks like Copa's own. */
    method IsCopa() returns (b: bool)
      ensures b == CopaLike(View())
    {
      var threshold := minRtt.extreme + 0.1 * (isCopaMax.extreme - minRtt.extreme);
      b := isCopaMin.extreme < threshold;
    }
  }
}
