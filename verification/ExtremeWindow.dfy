/** A sliding extreme kept in a monotonic deque (class ExtremeWindow), whose window
    length may change with every sample, measured against the samples themselves. */
module ExtremeWindows {
  function RealMin(a: real, b: real): real {
    if b < a then b else a
  }

  function RealMax(a: real, b: real): real {
    if a < b then b else a
  }

  datatype Sample = Sample(time: real, val: real)

  /** a is at least as extreme as b. */
  predicate NoWorse(findMin: bool, a: real, b: real) {
    if findMin then a <= b else a >= b
  }

  /** No sample is older than the one before it. */
  ghost predicate Ordered(h: seq<Sample>) {
    |h| >= 2 ==> Ordered(h[..|h| - 1]) && h[|h| - 2].time <= h[|h| - 1].time
  }

  ghost predicate Nonnegative(spans: seq<real>) {
    spans != [] ==> Nonnegative(spans[..|spans| - 1]) && spans[|spans| - 1] >= 0.0
  }

  lemma {:induction false} OrderedPairs(h: seq<Sample>)
    requires Ordered(h)
    ensures forall i, j :: 0 <= i <= j < |h| ==> h[i].time <= h[j].time
  {
    if |h| >= 2 {
      var front := h[..|h| - 1];
      OrderedPairs(front);
      forall i, j | 0 <= i <= j < |h| ensures h[i].time <= h[j].time {
        if i < |h| - 1 {
          assert h[i] == front[i] && front[i].time <= front[|front| - 1].time;
          if j < |h| - 1 {
            assert h[j] == front[j];
          }
        }
      }
    }
  }

  /** The largest cutoff (now - max_time) seen so far; spans are the window lengths in force
      when the samples were taken. */
  ghost function Cutoff(h: seq<Sample>, spans: seq<real>): real
    requires |h| == |spans| > 0
  {
    var n := |h| - 1;
    var c := h[n].time - spans[n];
    if n == 0 then c else RealMax(Cutoff(h[..n], spans[..n]), c)
  }

  /** v is the extreme of the samples no older than cutoff. */
  ghost predicate IsExtreme(findMin: bool, h: seq<Sample>, cutoff: real, v: real) {
    && (exists i :: 0 <= i < |h| && h[i].time >= cutoff && h[i].val == v)
    && (forall i :: 0 <= i < |h| && h[i].time >= cutoff ==> NoWorse(findMin, v, h[i].val))
  }

  /** Some sample is at least as extreme as the tracker's initial value. */
  ghost predicate Seeded(findMin: bool, h: seq<Sample>, seed: real) {
    h != [] && (Seeded(findMin, h[..|h| - 1], seed) || NoWorse(findMin, h[|h| - 1].val, seed))
  }

  lemma {:induction false} SeededMeaning(findMin: bool, h: seq<Sample>, seed: real)
    ensures Seeded(findMin, h, seed) <==> exists i :: 0 <= i < |h| && NoWorse(findMin, h[i].val, seed)
  {
    if h != [] {
      var front := h[..|h| - 1];
      SeededMeaning(findMin, front, seed);
      if Seeded(findMin, front, seed) {
        var i :| 0 <= i < |front| && NoWorse(findMin, front[i].val, seed);
        assert h[i] == front[i];
      } else {
        forall i | 0 <= i < |h| - 1 ensures !NoWorse(findMin, h[i].val, seed) {
          assert h[i] == front[i];
        }
      }
    }
  }

  /** No later sample beats sample i. */
  ghost predicate IsRecord(findMin: bool, h: seq<Sample>, i: nat)
    requires i < |h|
  {
    forall j :: i < j < |h| ==> NoWorse(findMin, h[i].val, h[j].val)
  }

  /** The samples from index i on that are in the window and unbeaten by later ones. */
  ghost function Records(findMin: bool, h: seq<Sample>, cutoff: real, i: nat): seq<Sample>
    requires i <= |h|
    decreases |h| - i
  {
    if i == |h| then []
    else
      var rest := Records(findMin, h, cutoff, i + 1);
      if h[i].time >= cutoff && IsRecord(findMin, h, i) then [h[i]] + rest else rest
  }

  ghost function NotBeaten(findMin: bool, rs: seq<Sample>, val: real): seq<Sample> {
    if rs == [] then []
    else
      var rest := NotBeaten(findMin, rs[1..], val);
      if NoWorse(findMin, rs[0].val, val) then [rs[0]] + rest else rest
  }

  ghost function NotExpired(rs: seq<Sample>, cutoff: real): seq<Sample> {
    if rs == [] then []
    else
      var rest := NotExpired(rs[1..], cutoff);
      if rs[0].time >= cutoff then [rs[0]] + rest else rest
  }

  // --------------------------------------------------------- the record, step by step

  lemma {:induction false} CutoffReached(h: seq<Sample>, spans: seq<real>)
    requires |h| == |spans| > 0 && Ordered(h)
    requires Nonnegative(spans)
    ensures Cutoff(h, spans) <= h[|h| - 1].time
    decreases |h|
  {
    if |h| > 1 {
      CutoffReached(h[..|h| - 1], spans[..|h| - 1]);
    }
  }

  lemma {:induction false} RecordsPush(findMin: bool, h: seq<Sample>, s: Sample, cutoff: real, i: nat)
    requires i <= |h| && s.time >= cutoff
    ensures Records(findMin, h + [s], cutoff, i) == NotBeaten(findMin, Records(findMin, h, cutoff, i), s.val) + [s]
    decreases |h| - i
  {
    var h' := h + [s];
    if i == |h| {
      assert Records(findMin, h', cutoff, i + 1) == [];
    } else {
      RecordsPush(findMin, h, s, cutoff, i + 1);
      assert IsRecord(findMin, h', i) <==> IsRecord(findMin, h, i) && NoWorse(findMin, h[i].val, s.val) by {
        assert h'[|h|] == s;
        assert forall j :: 0 <= j < |h| ==> h'[j] == h[j];
      }
      var rest := Records(findMin, h, cutoff, i + 1);
      assert ([h[i]] + rest)[1..] == rest;
      assert Records(findMin, h', cutoff, i) ==
        if h[i].time >= cutoff && IsRecord(findMin, h', i) then [h[i]] + (NotBeaten(findMin, rest, s.val) + [s])
        else NotBeaten(findMin, rest, s.val) + [s];
    }
  }

  lemma {:induction false} RecordsCut(findMin: bool, h: seq<Sample>, cutoff: real, later: real, i: nat)
    requires i <= |h| && cutoff <= later
    ensures Records(findMin, h, later, i) == NotExpired(Records(findMin, h, cutoff, i), later)
    decreases |h| - i
  {
    if i < |h| {
      RecordsCut(findMin, h, cutoff, later, i + 1);
      var rest := Records(findMin, h, cutoff, i + 1);
      assert ([h[i]] + rest)[1..] == rest;
    }
  }

  /** Records grow older to newer and better to worse, and all lie in the window. */
  ghost predicate Sorted(findMin: bool, rs: seq<Sample>) {
    forall a, b :: 0 <= a < b < |rs| ==> rs[a].time <= rs[b].time && NoWorse(findMin, rs[a].val, rs[b].val)
  }

  /** r is a window sample with index at least i. */
  ghost predicate Among(h: seq<Sample>, i: nat, cutoff: real, r: Sample) {
    exists j :: i <= j < |h| && h[j].time >= cutoff && h[j] == r
  }

  lemma {:induction false} RecordsSorted(findMin: bool, h: seq<Sample>, cutoff: real, i: nat)
    requires Ordered(h) && i <= |h|
    ensures Sorted(findMin, Records(findMin, h, cutoff, i))
    ensures forall a :: 0 <= a < |Records(findMin, h, cutoff, i)| ==> Among(h, i, cutoff, Records(findMin, h, cutoff, i)[a])
    decreases |h| - i
  {
    if i < |h| {
      OrderedPairs(h);
      RecordsSorted(findMin, h, cutoff, i + 1);
      var rs, rest := Records(findMin, h, cutoff, i), Records(findMin, h, cutoff, i + 1);
      var kept := h[i].time >= cutoff && IsRecord(findMin, h, i);
      assert rs == if kept then [h[i]] + rest else rest;
      forall a | 0 <= a < |rs| ensures Among(h, i, cutoff, rs[a]) {
        if kept && a == 0 {
          assert h[i] == rs[a];
        } else {
          var r := rest[if kept then a - 1 else a];
          assert Among(h, i + 1, cutoff, r) && rs[a] == r;
        }
      }
      forall b | kept && 0 < b < |rs| ensures h[i].time <= rs[b].time && NoWorse(findMin, h[i].val, rs[b].val) {
        assert Among(h, i + 1, cutoff, rest[b - 1]);
      }
    }
  }

  /** The oldest record is the extreme of the window. */
  lemma {:induction false} RecordsHead(findMin: bool, h: seq<Sample>, cutoff: real, i: nat)
    requires Ordered(h) && i < |h| && h[|h| - 1].time >= cutoff
    ensures var rs := Records(findMin, h, cutoff, i);
            rs != [] && (exists j :: i <= j < |h| && h[j].time >= cutoff && h[j] == rs[0])
            && forall j :: i <= j < |h| && h[j].time >= cutoff ==> NoWorse(findMin, rs[0].val, h[j].val)
    decreases |h| - i
  {
    if i < |h| - 1 {
      OrderedPairs(h);
      RecordsHead(findMin, h, cutoff, i + 1);
      var rest := Records(findMin, h, cutoff, i + 1);
      if h[i].time >= cutoff && !IsRecord(findMin, h, i) {
        var j :| i < j < |h| && !NoWorse(findMin, h[i].val, h[j].val);
        assert NoWorse(findMin, rest[0].val, h[j].val);
      }
    }
  }

  lemma {:induction false} NotBeatenPrefix(findMin: bool, rs: seq<Sample>, k: nat, val: real)
    requires Sorted(findMin, rs) && k <= |rs|
    requires forall a :: k <= a < |rs| ==> !NoWorse(findMin, rs[a].val, val)
    requires k > 0 ==> NoWorse(findMin, rs[k - 1].val, val)
    ensures NotBeaten(findMin, rs, val) == rs[..k]
  {
    if rs != [] {
      if k > 0 {
        NotBeatenPrefix(findMin, rs[1..], k - 1, val);
        assert rs[..k] == [rs[0]] + rs[1..][..k - 1];
      } else {
        NotBeatenPrefix(findMin, rs[1..], 0, val);
      }
    }
  }

  lemma {:induction false} NotExpiredSuffix(findMin: bool, rs: seq<Sample>, k: nat, cutoff: real)
    requires Sorted(findMin, rs) && k < |rs|
    requires forall a :: 0 <= a < k ==> rs[a].time < cutoff
    requires rs[k].time >= cutoff
    ensures NotExpired(rs, cutoff) == rs[k..]
  {
    if k > 0 {
      NotExpiredSuffix(findMin, rs[1..], k - 1, cutoff);
    } else if |rs| > 1 {
      NotExpiredSuffix(findMin, rs[1..], 0, cutoff);
    }
  }

  lemma Snoc(h: seq<Sample>, s: Sample)
    ensures var t := h + [s];
            t[..|t| - 1] == h && t[|t| - 1] == s && (h != [] ==> t[|t| - 2] == h[|h| - 1])
  {
  }

  lemma NextOrdered(h: seq<Sample>, s: Sample)
    requires Ordered(h) && (h != [] ==> h[|h| - 1].time <= s.time)
    ensures Ordered(h + [s])
  {
    Snoc(h, s);
  }

  lemma {:induction false} NotBeatenNone(findMin: bool, rs: seq<Sample>, val: real)
    requires forall a :: 0 <= a < |rs| ==> !NoWorse(findMin, rs[a].val, val)
    ensures NotBeaten(findMin, rs, val) == []
  {
    if rs != [] {
      NotBeatenNone(findMin, rs[1..], val);
    }
  }

  lemma {:induction false} NotExpiredAll(rs: seq<Sample>, cutoff: real)
    requires forall a :: 0 <= a < |rs| ==> rs[a].time >= cutoff
    ensures NotExpired(rs, cutoff) == rs
  {
    if rs != [] {
      NotExpiredAll(rs[1..], cutoff);
    }
  }

  /** What one sample does to the deque: beaten samples leave at the back, the sample
      enters, and what is older than this sample's own cutoff leaves at the front. */
  lemma RecordsBetween(findMin: bool, h: seq<Sample>, spans: seq<real>, s: Sample, span: real)
    requires |h| == |spans| > 0 && Ordered(h + [s]) && span >= 0.0
    requires Nonnegative(spans)
    ensures var mid := NotBeaten(findMin, Records(findMin, h, Cutoff(h, spans), 0), s.val) + [s];
            mid == Records(findMin, h + [s], Cutoff(h, spans), 0)
            && NotExpired(mid, s.time - span) == Records(findMin, h + [s], Cutoff(h + [s], spans + [span]), 0)
  {
    OrderedPrefix(h, s);
    CutoffReached(h, spans);
    RecordsPush(findMin, h, s, Cutoff(h, spans), 0);
    CutoffNext(h, spans, s, span);
    ExpireOnce(findMin, h + [s], Cutoff(h, spans), s.time - span);
  }

  lemma CutoffNext(h: seq<Sample>, spans: seq<real>, s: Sample, span: real)
    requires |h| == |spans| > 0
    ensures Cutoff(h + [s], spans + [span]) == RealMax(Cutoff(h, spans), s.time - span)
  {
    assert (h + [s])[..|h|] == h && (spans + [span])[..|h|] == spans;
  }

  /** Expiring by one sample's cutoff is expiring by the largest cutoff so far. */
  lemma ExpireOnce(findMin: bool, h: seq<Sample>, cutoff: real, own: real)
    requires Ordered(h)
    ensures NotExpired(Records(findMin, h, cutoff, 0), own) == Records(findMin, h, RealMax(cutoff, own), 0)
  {
    var rs := Records(findMin, h, cutoff, 0);
    if cutoff < own {
      RecordsCut(findMin, h, cutoff, own, 0);
    } else {
      RecordsSorted(findMin, h, cutoff, 0);
      NotExpiredAll(rs, own);
    }
  }

  lemma OrderedPrefix(h: seq<Sample>, s: Sample)
    requires h != [] && Ordered(h + [s])
    ensures Ordered(h) && h[|h| - 1].time <= s.time
  {
    Snoc(h, s);
  }

  lemma UnseededWorse(findMin: bool, seed: real, h: seq<Sample>, rs: seq<Sample>)
    requires forall a :: 0 <= a < |rs| ==> Among(h, 0, rs[a].time, rs[a])
    ensures Seeded(findMin, h, seed) || forall a :: 0 <= a < |rs| ==> !NoWorse(findMin, rs[a].val, seed)
  {
    SeededMeaning(findMin, h, seed);
  }

  /** The extreme once a sample has entered at the back: the head of the deque, or the
      initial value while every sample is worse than it. */
  lemma PushExtreme(findMin: bool, seed: real, h: seq<Sample>, rs: seq<Sample>, e: real, s: Sample)
    requires Sorted(findMin, rs) && (h == [] <==> rs == [])
    requires forall a :: 0 <= a < |rs| ==> Among(h, 0, rs[a].time, rs[a])
    requires e == if Seeded(findMin, h, seed) && rs != [] then rs[0].val else seed
    ensures var e' := if NoWorse(findMin, e, s.val) then e else s.val;
            e' == if Seeded(findMin, h + [s], seed) then (NotBeaten(findMin, rs, s.val) + [s])[0].val else seed
  {
    var h' := h + [s];
    assert h'[..|h|] == h && h'[|h|] == s;
    if Seeded(findMin, h, seed) {
      if !NoWorse(findMin, e, s.val) {
        NotBeatenNone(findMin, rs, s.val);
      }
    } else if NoWorse(findMin, s.val, seed) {
      UnseededWorse(findMin, seed, h, rs);
      NotBeatenNone(findMin, rs, s.val);
    }
  }

  /** The cutoff that the deque obeys between push and expiry. */
  ghost function CutoffBefore(h: seq<Sample>, spans: seq<real>, own: real): real
    requires |h| == |spans|
  {
    if h == [] then own else Cutoff(h, spans)
  }

  lemma MidDeque(findMin: bool, h: seq<Sample>, spans: seq<real>, s: Sample, span: real, rs: seq<Sample>)
    requires |h| == |spans| && Ordered(h + [s]) && span >= 0.0
    requires Nonnegative(spans)
    requires rs == if h == [] then [] else Records(findMin, h, Cutoff(h, spans), 0)
    ensures var mid := NotBeaten(findMin, rs, s.val) + [s];
            mid == Records(findMin, h + [s], CutoffBefore(h, spans, s.time - span), 0)
            && NotExpired(mid, s.time - span) == Records(findMin, h + [s], Cutoff(h + [s], spans + [span]), 0)
  {
    if h != [] {
      RecordsBetween(findMin, h, spans, s, span);
    } else {
      var own := s.time - span;
      assert Records(findMin, h, own, 0) == [];
      RecordsPush(findMin, h, s, own, 0);
      ExpireOnce(findMin, h + [s], own, own);
    }
  }

  lemma MidSorted(findMin: bool, seed: real, h: seq<Sample>, cutoff: real, mid: seq<Sample>)
    requires Ordered(h) && mid == Records(findMin, h, cutoff, 0)
    ensures Sorted(findMin, mid)
    ensures Seeded(findMin, h, seed) || forall a :: 0 <= a < |mid| ==> !NoWorse(findMin, mid[a].val, seed)
  {
    RecordsSorted(findMin, h, cutoff, 0);
    UnseededWorse(findMin, seed, h, mid);
  }

  lemma MidExtreme(findMin: bool, seed: real, h: seq<Sample>, spans: seq<real>, s: Sample, rs: seq<Sample>, e: real)
    requires |h| == |spans| && Ordered(h + [s])
    requires rs == if h == [] then [] else Records(findMin, h, Cutoff(h, spans), 0)
    requires h == [] <==> rs == []
    requires e == if Seeded(findMin, h, seed) && rs != [] then rs[0].val else seed
    ensures var e' := if NoWorse(findMin, e, s.val) then e else s.val;
            e' == if Seeded(findMin, h + [s], seed) then (NotBeaten(findMin, rs, s.val) + [s])[0].val else seed
    ensures Sorted(findMin, rs)
  {
    if h != [] {
      OrderedPrefix(h, s);
      RecordsSorted(findMin, h, Cutoff(h, spans), 0);
    }
    PushExtreme(findMin, seed, h, rs, e, s);
  }

  /** Everything about the deque and the extreme between push and expiry. */
  lemma Entered(findMin: bool, seed: real, h: seq<Sample>, spans: seq<real>, s: Sample, span: real, rs: seq<Sample>, e: real)
    requires |h| == |spans| && Ordered(h) && (h != [] ==> h[|h| - 1].time <= s.time) && span >= 0.0
    requires Nonnegative(spans)
    requires rs == if h == [] then [] else Records(findMin, h, Cutoff(h, spans), 0)
    requires h == [] <==> rs == []
    requires e == if Seeded(findMin, h, seed) && rs != [] then rs[0].val else seed
    ensures Ordered(h + [s]) && Sorted(findMin, rs)
    ensures var mid := NotBeaten(findMin, rs, s.val) + [s];
            Sorted(findMin, mid)
            && NotExpired(mid, s.time - span) == Records(findMin, h + [s], Cutoff(h + [s], spans + [span]), 0)
    ensures var mid := NotBeaten(findMin, rs, s.val) + [s];
            var e' := if NoWorse(findMin, e, s.val) then e else s.val;
            if Seeded(findMin, h + [s], seed) then e' == mid[0].val
            else e' == seed && forall a :: 0 <= a < |mid| ==> !NoWorse(findMin, mid[a].val, seed)
  {
    NextOrdered(h, s);
    MidDeque(findMin, h, spans, s, span, rs);
    MidSorted(findMin, seed, h + [s], CutoffBefore(h, spans, s.time - span), NotBeaten(findMin, rs, s.val) + [s]);
    MidExtreme(findMin, seed, h, spans, s, rs, e);
  }

  /** Whether the tracked value is the extreme of the window. */
  lemma ExtremeIffSeeded(findMin: bool, seed: real, h: seq<Sample>, spans: seq<real>, e: real)
    requires |h| == |spans| > 0 && Ordered(h)
    requires Nonnegative(spans)
    requires var rs := Records(findMin, h, Cutoff(h, spans), 0);
             e == if Seeded(findMin, h, seed) && rs != [] then rs[0].val else seed
    ensures IsExtreme(findMin, h, Cutoff(h, spans), e) <==> Seeded(findMin, h, seed)
    ensures forall i :: 0 <= i < |h| && h[i].time >= Cutoff(h, spans) ==> NoWorse(findMin, e, h[i].val)
  {
    CutoffReached(h, spans);
    RecordsHead(findMin, h, Cutoff(h, spans), 0);
    SeededMeaning(findMin, h, seed);
    if !Seeded(findMin, h, seed) {
      forall i | 0 <= i < |h| ensures h[i].val != e && NoWorse(findMin, e, h[i].val) {
        assert !NoWorse(findMin, h[i].val, seed);
      }
    }
  }

  /** A tracker: its deque and extreme, every sample since the last clear, and the window
      length that was in force at each. */
  datatype Tracker = Tracker(findMin: bool, seed: real, maxTime: real, vals: seq<Sample>, extreme: real,
                             history: seq<Sample>, spans: seq<real>)

  function Cleared(findMin: bool, seed: real): Tracker {
    Tracker(findMin, seed, 10000.0, [], seed, [], [])
  }

  /** The deque is exactly the unbeaten part of the window, and the extreme is its oldest
      entry, once some sample has reached the initial value. */
  ghost predicate Good(t: Tracker) {
    && t.maxTime >= 0.0
    && |t.history| == |t.spans| && Ordered(t.history)
    && Nonnegative(t.spans)
    && (t.history == [] <==> t.vals == [])
    && (t.history != [] ==> t.vals == Records(t.findMin, t.history, Cutoff(t.history, t.spans), 0))
    && t.extreme == if Seeded(t.findMin, t.history, t.seed) && t.vals != [] then t.vals[0].val else t.seed
  }

  /** new_sample on values: filter, append, expire, and follow the head of the deque. */
  ghost function Sampled(t: Tracker, val: real, now: real): Tracker {
    var mid := NotBeaten(t.findMin, t.vals, val) + [Sample(now, val)];
    var e := if NoWorse(t.findMin, t.extreme, val) then t.extreme else val;
    var kept := NotExpired(mid, now - t.maxTime);
    Tracker(t.findMin, t.seed, t.maxTime, kept, if e == mid[0].val && kept != [] then kept[0].val else e,
            t.history + [Sample(now, val)], t.spans + [t.maxTime])
  }

  ghost predicate NotBefore(now: real, h: seq<Sample>) {
    h != [] ==> h[|h| - 1].time <= now
  }

  /** What the two loops of new_sample rely on. */
  ghost predicate Ready(t: Tracker, val: real, now: real) {
    var mid := NotBeaten(t.findMin, t.vals, val) + [Sample(now, val)];
    var e := if NoWorse(t.findMin, t.extreme, val) then t.extreme else val;
    && t.maxTime >= 0.0
    && Sorted(t.findMin, t.vals) && Sorted(t.findMin, mid)
    && (e == mid[0].val || forall a :: 0 <= a < |mid| ==> !NoWorse(t.findMin, mid[a].val, e))
  }

  lemma SampledReady(t: Tracker, val: real, now: real)
    requires Good(t) && NotBefore(now, t.history)
    ensures Ready(t, val, now)
  {
    Entered(t.findMin, t.seed, t.history, t.spans, Sample(now, val), t.maxTime, t.vals, t.extreme);
  }

  lemma SampledShape(t: Tracker, val: real, now: real)
    requires Good(t) && NotBefore(now, t.history)
    ensures var t' := Sampled(t, val, now);
            |t'.history| == |t'.spans| > 0 && Ordered(t'.history)
            && Nonnegative(t'.spans)
  {
    NextOrdered(t.history, Sample(now, val));
    assert (t.spans + [t.maxTime])[..|t.spans|] == t.spans;
  }

  lemma SampledDeque(t: Tracker, val: real, now: real)
    requires Good(t) && NotBefore(now, t.history)
    ensures var t' := Sampled(t, val, now);
            t'.vals == Records(t.findMin, t'.history, Cutoff(t'.history, t'.spans), 0)
  {
    NextOrdered(t.history, Sample(now, val));
    MidDeque(t.findMin, t.history, t.spans, Sample(now, val), t.maxTime, t.vals);
  }

  lemma RecordsNonempty(findMin: bool, h: seq<Sample>, spans: seq<real>)
    requires |h| == |spans| > 0 && Ordered(h)
    requires Nonnegative(spans)
    ensures Records(findMin, h, Cutoff(h, spans), 0) != []
  {
    CutoffReached(h, spans);
    RecordsHead(findMin, h, Cutoff(h, spans), 0);
  }

  lemma SampledExtreme(t: Tracker, val: real, now: real)
    requires Good(t) && NotBefore(now, t.history)
    requires Sampled(t, val, now).vals != []
    ensures var t' := Sampled(t, val, now);
            t'.extreme == if Seeded(t.findMin, t'.history, t.seed) then t'.vals[0].val else t.seed
  {
    Entered(t.findMin, t.seed, t.history, t.spans, Sample(now, val), t.maxTime, t.vals, t.extreme);
  }

  /** Sampling keeps the tracker exact: the deque stays the record of the window, and the
      tracked value is the extreme of all past samples no older than the largest cutoff
      exactly when some sample has reached the initial value. */
  lemma SampledGood(t: Tracker, val: real, now: real)
    requires Good(t) && NotBefore(now, t.history)
    ensures var t' := Sampled(t, val, now);
            Good(t')
            && (IsExtreme(t.findMin, t'.history, Cutoff(t'.history, t'.spans), t'.extreme)
                <==> Seeded(t.findMin, t'.history, t.seed))
  {
    var t' := Sampled(t, val, now);
    SampledShape(t, val, now);
    SampledDeque(t, val, now);
    RecordsNonempty(t.findMin, t'.history, t'.spans);
    SampledExtreme(t, val, now);
    ExtremeIffSeeded(t.findMin, t.seed, t'.history, t'.spans, t'.extreme);
  }

  // ------------------------------------------------------------ whole runs

  /** One measurement, and the window length in force when it is taken. */
  datatype Measurement = Measurement(maxTime: real, val: real, now: real)

  ghost function SamplesOf(ms: seq<Measurement>): seq<Sample> {
    if ms == [] then []
    else SamplesOf(ms[..|ms| - 1]) + [Sample(ms[|ms| - 1].now, ms[|ms| - 1].val)]
  }

  /** The tracker after a run since the last clear. */
  ghost function TrackerAfter(findMin: bool, seed: real, ms: seq<Measurement>): Tracker {
    if ms == [] then Cleared(findMin, seed)
    else
      var last := ms[|ms| - 1];
      Sampled(TrackerAfter(findMin, seed, ms[..|ms| - 1]).(maxTime := last.maxTime), last.val, last.now)
  }

  lemma SetSpanGood(t: Tracker, maxTime: real)
    requires Good(t) && maxTime >= 0.0
    ensures Good(t.(maxTime := maxTime))
  {
  }

  /** For every run of measurements in time order, under any nonnegative window lengths: the
      deque is the record of the window, and the value is the extreme of all samples no older
      than the largest cutoff exactly when some sample has reached the initial value. */
  lemma {:induction false} TrackerRunExact(findMin: bool, seed: real, ms: seq<Measurement>)
    requires Ordered(SamplesOf(ms)) && forall i :: 0 <= i < |ms| ==> ms[i].maxTime >= 0.0
    ensures var t := TrackerAfter(findMin, seed, ms);
            Good(t) && t.findMin == findMin && t.seed == seed && t.history == SamplesOf(ms)
            && (ms != [] ==> (IsExtreme(findMin, t.history, Cutoff(t.history, t.spans), t.extreme)
                              <==> Seeded(findMin, t.history, seed)))
  {
    hide Good, IsExtreme, Seeded, Cutoff;
    if ms == [] {
      ClearedGood(findMin, seed);
    } else {
      var front, last := ms[..|ms| - 1], ms[|ms| - 1];
      assert forall i :: 0 <= i < |front| ==> front[i] == ms[i];
      OrderedSnoc(SamplesOf(front), Sample(last.now, last.val));
      TrackerRunExact(findMin, seed, front);
      var t := TrackerAfter(findMin, seed, front);
      GoodLengths(t);
      SetSpanGood(t, last.maxTime);
      SampledGood(t.(maxTime := last.maxTime), last.val, last.now);
      GoodLengths(TrackerAfter(findMin, seed, ms));
    }
  }

  lemma ClearedGood(findMin: bool, seed: real)
    ensures Good(Cleared(findMin, seed))
  {
  }

  lemma GoodLengths(t: Tracker)
    requires Good(t)
    ensures |t.history| == |t.spans|
  {
  }

  lemma OrderedSnoc(h: seq<Sample>, s: Sample)
    requires Ordered(h + [s])
    ensures Ordered(h) && NotBefore(s.time, h)
  {
    assert (h + [s])[..|h|] == h;
  }

  /** A maximum starts from the least positive normal number: as long as every sample is below
      it, the value reported was never measured. */
  lemma MaximumBelowSeed(seed: real, ms: seq<Measurement>)
    requires ms != [] && seed > 0.0
    requires Ordered(SamplesOf(ms)) && forall i :: 0 <= i < |ms| ==> ms[i].maxTime >= 0.0
    requires forall i :: 0 <= i < |SamplesOf(ms)| ==> SamplesOf(ms)[i].val < seed
    ensures TrackerAfter(false, seed, ms).extreme == seed
    ensures forall i :: 0 <= i < |SamplesOf(ms)| ==> SamplesOf(ms)[i].val != TrackerAfter(false, seed, ms).extreme
  {
    TrackerRunExact(false, seed, ms);
    SeededMeaning(false, SamplesOf(ms), seed);
  }

  /** One such sample: a delay of zero. */
  lemma ZeroDelayMisreported(seed: real)
    requires seed > 0.0
    ensures TrackerAfter(false, seed, [Measurement(10000.0, 0.0, 0.0)]).extreme == seed
  {
    var ms := [Measurement(10000.0, 0.0, 0.0)];
    assert ms[..0] == [] && SamplesOf([]) == [];
    assert SamplesOf(ms) == [Sample(0.0, 0.0)];
    MaximumBelowSeed(seed, ms);
  }

  class ExtremeWindow {
    const findMin: bool
    /** numeric_limits<double>::max() for a minimum, ::min() for a maximum. */
    const seed: real
    var maxTime: real
    var vals: seq<Sample>
    var extreme: real
    ghost var history: seq<Sample>
    ghost var spans: seq<real>

    ghost function View(): Tracker
      reads this
    {
      Tracker(findMin, seed, maxTime, vals, extreme, history, spans)
    }

    constructor (findMin: bool, seed: real)
      ensures View() == Cleared(findMin, seed)
    {
      this.findMin, this.seed := findMin, seed;
      maxTime, vals := 10000.0, [];
      extreme := seed;
      history, spans := [], [];
    }

    method Clear()
      modifies this
      ensures View() == Cleared(findMin, seed)
    {
      maxTime, vals := 10000.0, [];
      extreme := seed;
      history, spans := [], [];
    }

    method UpdateMaxTime(t: real)
      modifies this
      ensures View() == old(View()).(maxTime := t)
    {
      maxTime := t;
    }

    /** One measurement, not older than the ones before it. */
    method NewSample(val: real, now: real)
      requires Good(View()) && NotBefore(now, history)
      modifies this
      ensures View() == Sampled(old(View()), val, now) && Good(View())
    {
      SampledReady(View(), val, now);
      SampledGood(View(), val, now);
      Enter(val, now);
    }

    method Enter(val: real, now: real)
      requires Ready(View(), val, now)
      modifies this
      ensures View() == Sampled(old(View()), val, now)
    {
      Push(val, now);
      ClearOldHist(now);
      history, spans := history + [Sample(now, val)], spans + [maxTime];
    }

    method Push(val: real, now: real)
      requires Sorted(findMin, vals)
      modifies this`vals, this`extreme
      ensures vals == NotBeaten(findMin, old(vals), val) + [Sample(now, val)]
      ensures extreme == if NoWorse(findMin, old(extreme), val) then old(extreme) else val
    {
      PopBeaten(val);
      vals := vals + [Sample(now, val)];
      if !NoWorse(findMin, extreme, val) {
        extreme := val;
      }
    }

    method PopBeaten(val: real)
      requires Sorted(findMin, vals)
      modifies this`vals
      ensures vals == NotBeaten(findMin, old(vals), val)
    {
      ghost var k := |vals|;
      while vals != [] && !NoWorse(findMin, vals[|vals| - 1].val, val)
        invariant 0 <= k <= |old(vals)| && vals == old(vals)[..k]
        invariant forall a :: k <= a < |old(vals)| ==> !NoWorse(findMin, old(vals)[a].val, val)
        decreases |vals|
      {
        vals := vals[..|vals| - 1];
        k := k - 1;
      }
      NotBeatenPrefix(findMin, old(vals), k, val);
    }

    /** Drops expired samples, but never the last one. */
    method ClearOldHist(now: real)
      requires Sorted(findMin, vals) && vals != [] && vals[|vals| - 1].time >= now - maxTime
      requires extreme == vals[0].val || forall a :: 0 <= a < |vals| ==> !NoWorse(findMin, vals[a].val, extreme)
      modifies this`vals, this`extreme
      ensures vals == NotExpired(old(vals), now - maxTime) && vals != []
      ensures if old(extreme) == old(vals)[0].val then extreme == vals[0].val else extreme == old(extreme)
    {
      var recompute := false;
      ghost var k := 0;
      while |vals| > 1 && vals[0].time < now - maxTime
        invariant 0 <= k < |old(vals)| && vals == old(vals)[k..]
        invariant forall a :: 0 <= a < k ==> old(vals)[a].time < now - maxTime
        invariant extreme == old(extreme)
        invariant recompute == (k > 0 && extreme == old(vals)[0].val)
        decreases |vals|
      {
        if NoWorse(findMin, vals[0].val, extreme) {
          recompute := true;
        }
        vals := vals[1..];
        k := k + 1;
      }
      NotExpiredSuffix(findMin, old(vals), k, now - maxTime);
      if recompute {
        extreme := vals[0].val;
      }
    }
  }
}
