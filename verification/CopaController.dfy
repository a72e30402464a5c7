/** Copa's controller: round-trip-time trackers, delta, window and the map of outstanding
    packets, updated together on every acknowledgement (onACK, onPktSent). */
module CopaControllers {
  import opened ExtremeWindows
  import opened RttWindows
  import opened PacketLedgers
  import CopaDelta
  import CopaWindow

  datatype Config = Config(variant: Variant, utility: CopaDelta.Utility, defaultDelta: real,
                           doSlowStart: bool, lim: Limits)

  /** One acknowledgement: the packet, the times, and whether the loss estimator asks for a
      reduction. */
  datatype Ack = Ack(seqNum: nat, now: real, sentTime: real, reduce: bool)

  datatype Control = Control(
    rtt: RttState, delta: CopaDelta.Delta, velocity: CopaWindow.Velocity,
    unacked: Unacked, numAcked: nat, numLost: nat, numSent: nat)

  /** The probing phase: no window update before this many acknowledgements. */
  const PROBING: nat := 2 * CopaWindow.NUM_PROBE_PKTS - 1

  /** What every reachable state keeps. */
  ghost predicate ControlInv(c: Config, s: Control) {
    && RttInv(s.rtt, c.lim)
    && DeltaInv(c, s.delta)
    && CopaWindow.VelocityInv(s.velocity)
    && (s.numAcked > 0 ==> RttOrder(s.rtt) && s.delta.delta <= c.defaultDelta)
    && (c.variant.Alcc? ==> s.numLost == 0)
  }

  ghost predicate DeltaInv(c: Config, d: CopaDelta.Delta) {
    CopaDelta.Ready(d, c.defaultDelta)
  }

  /** An acknowledgement the clock allows. */
  ghost predicate Timely(c: Config, s: Control, a: Ack) {
    0.0 <= a.now - a.sentTime <= c.lim.largest && NotBefore(a.now, s.rtt.minRtt.history)
  }

  ghost function RttAfterAck(s: Control, a: Ack): RttState {
    RttSampled(s.rtt, a.now - a.sentTime, a.now)
  }

  ghost function DeltaAfterSample(c: Config, s: Control, a: Ack): (d: CopaDelta.Delta)
    requires DeltaInv(c, s.delta)
    ensures 0.0 < d.delta <= c.defaultDelta
  {
    var call := CopaDelta.Call(false, a.now - a.sentTime, a.now, CopaLike(RttAfterAck(s, a)));
    CopaDelta.DeltaBounded(s.delta, c.utility, c.defaultDelta, call);
    CopaDelta.UpdateDelta(s.delta, c.utility, c.defaultDelta, call)
  }

  function MeasureOf(rtt: RttState, delta: real, now: real): CopaWindow.Measure {
    CopaWindow.Measure(rtt.unjitteredRtt.extreme, rtt.minRtt.extreme, rtt.latestRtt, delta, now)
  }

  ghost function VelocityAfterSample(c: Config, s: Control, a: Ack, delta: real): CopaWindow.Velocity
    requires delta > 0.0 && s.velocity.window >= 2.0
  {
    if s.numAcked < PROBING then s.velocity
    else CopaWindow.UpdateWindow(s.velocity, c.doSlowStart, MeasureOf(RttAfterAck(s, a), delta, a.now))
  }

  /** Where native Copa's own assertions fail: a packet acknowledged no later than it was sent,
      or a target met in a slow start that is switched off. */
  ghost predicate Aborts(c: Config, s: Control, a: Ack)
    requires DeltaInv(c, s.delta)
  {
    c.variant.Native? &&
    (a.now <= a.sentTime
     || (s.numAcked >= PROBING
         && CopaWindow.StuckInSlowStart(s.velocity, c.doSlowStart,
              MeasureOf(RttAfterAck(s, a), DeltaAfterSample(c, s, a).delta, a.now))))
  }

  /** The state after one acknowledgement that does not abort. */
  ghost predicate AckStep(c: Config, s: Control, a: Ack, s': Control)
    requires DeltaInv(c, s.delta) && s.velocity.window >= 2.0
  {
    var sampled := DeltaAfterSample(c, s, a);
    var v := VelocityAfterSample(c, s, a, sampled.delta);
    var walked := Acknowledged(c.variant, s.unacked, a.seqNum);
    && s'.rtt == RttAfterAck(s, a)
    && s'.delta == (if walked.lost > 0
                    then CopaDelta.UpdateDelta(sampled, c.utility, c.defaultDelta,
                           CopaDelta.Call(true, 0.0, a.now, CopaLike(RttAfterAck(s, a))))
                    else sampled)
    && s'.velocity == (if a.reduce then CopaWindow.Reduced(v) else v)
    && s'.unacked == walked.left
    && s'.numAcked == s.numAcked + 1 && s'.numLost == s.numLost + walked.lost && s'.numSent == s.numSent
  }

  ghost function SendStep(s: Control, seqNum: nat, packet: Packet): Control {
    s.(unacked := s.unacked[seqNum := packet], numSent := s.numSent + 1)
  }

  lemma DeltaKept(c: Config, s: Control, a: Ack, s': Control)
    requires ControlInv(c, s) && AckStep(c, s, a, s')
    ensures 0.0 < s'.delta.delta <= c.defaultDelta
  {
    hide RttInv, RttSampled, CopaWindow.UpdateWindow, CopaWindow.VelocityInv;
    CopaDelta.DeltaBounded(DeltaAfterSample(c, s, a), c.utility, c.defaultDelta,
      CopaDelta.Call(true, 0.0, a.now, CopaLike(RttAfterAck(s, a))));
  }

  lemma VelocityKept(c: Config, s: Control, a: Ack, s': Control)
    requires ControlInv(c, s) && AckStep(c, s, a, s')
    ensures CopaWindow.VelocityInv(s'.velocity)
    ensures s'.velocity.slowStart ==> s.velocity.slowStart
  {
    hide RttInv, RttSampled, CopaDelta.UpdateDelta, CopaWindow.UpdateWindow, CopaWindow.IsPower;
    var delta := DeltaAfterSample(c, s, a).delta;
    CopaWindow.UpdateWindowKeeps(s.velocity, c.doSlowStart, MeasureOf(RttAfterAck(s, a), delta, a.now));
  }

  /** One acknowledgement keeps the invariant; the new round-trip estimates are in order (the
      controller's own assertion is that the unjittered one is at least the minimum), and
      slow start is not entered. */
  lemma AckKeeps(c: Config, s: Control, a: Ack, s': Control)
    requires ControlInv(c, s) && Timely(c, s, a) && AckStep(c, s, a, s')
    ensures ControlInv(c, s') && s'.numAcked > 0
    ensures s'.rtt.unjitteredRtt.extreme >= s'.rtt.minRtt.extreme
    ensures s'.velocity.slowStart ==> s.velocity.slowStart
    ensures s'.rtt.minRtt.history == s.rtt.minRtt.history + [Sample(a.now, a.now - a.sentTime)]
  {
    hide RttInv, RttSampled, CopaDelta.UpdateDelta, CopaWindow.UpdateWindow, CopaWindow.VelocityInv;
    RttSampledInv(s.rtt, c.lim, a.now - a.sentTime, a.now);
    DeltaKept(c, s, a, s');
    VelocityKept(c, s, a, s');
    NoAlccLoss(c, s, a);
  }

  /** Past the probing phase and outside slow start, an acknowledgement that asks for no reduction
      moves the window by the queue that the new round-trip estimates show: up exactly when they
      show none or window * queuing delay * delta is below the unjittered round trip.  A turn
      falls due exactly when the packet was sent after the last one. */
  lemma WindowFollowsQueue(c: Config, s: Control, a: Ack, s': Control)
    requires ControlInv(c, s) && Timely(c, s, a) && AckStep(c, s, a, s')
    requires s.numAcked >= PROBING && !s.velocity.slowStart && !a.reduce
    ensures
      var v, v', delta := s.velocity, s'.velocity, DeltaAfterSample(c, s, a).delta;
      var rtt, least := s'.rtt.unjitteredRtt.extreme, s'.rtt.minRtt.extreme;
      && (if rtt == least || v.window * ((rtt - least) * delta) < rtt then v'.window > v.window
          else v'.window <= v.window && (v.window > 2.0 ==> v'.window < v.window))
      && v'.lastUpdate == (if a.sentTime > v.lastUpdate then a.now else v.lastUpdate)
      && (s'.numLost == s.numLost ==> s'.delta.delta == delta)
  {
    hide RttInv, RttSampled, CopaDelta.UpdateDelta, CopaWindow.UpdateWindow, CopaWindow.VelocityInv, Walk;
    AckKeeps(c, s, a, s');
    LatestIs(s.rtt, a.now - a.sentTime, a.now);
    var m := MeasureOf(RttAfterAck(s, a), DeltaAfterSample(c, s, a).delta, a.now);
    CopaWindow.GrowsExactly(s.velocity, c.doSlowStart, m);
    CopaWindow.StepSizeExactly(s.velocity, c.doSlowStart, m);
  }

  lemma LatestIs(w: RttState, rtt: real, now: real)
    ensures RttSampled(w, rtt, now).latestRtt == rtt
  {
    hide Sampled;
  }

  /** In the automatic mode an acknowledgement without a loss acts on delta by the verdict of the
      new estimates: the default again where they look Copa-like and the packet was sent after
      the last loss; one added to 1/delta where they do not and it was sent after the last
      update. */
  lemma DeltaFollowsVerdict(c: Config, s: Control, a: Ack, s': Control)
    requires ControlInv(c, s) && AckStep(c, s, a, s') && c.utility.AutoMode? && s'.numLost == s.numLost
    ensures s'.delta.delta > 0.0
    ensures
      var d, d', x := s.delta, s'.delta, 1.0 / CopaDelta.Base(s.delta, c.defaultDelta);
      if CopaLike(s'.rtt) then
        (d.lastUpdate == 0.0 || a.sentTime > d.lastLoss ==> d'.delta == c.defaultDelta && d'.lastUpdate == a.now)
        && (d.lastUpdate != 0.0 && a.sentTime <= d.lastLoss ==> d'.delta == d.delta)
      else if a.sentTime > d.lastUpdate then 1.0 / d'.delta == x + 1.0 && d'.lastUpdate == a.now
      else d'.delta == CopaDelta.Base(d, c.defaultDelta) && d'.lastUpdate == d.lastUpdate
  {
    hide RttInv, RttSampled, CopaLike, CopaDelta.UpdateDelta, CopaWindow.UpdateWindow, CopaWindow.VelocityInv, Walk;
    CopaDelta.ModeSelects(s.delta, c.utility, c.defaultDelta,
      CopaDelta.Call(false, a.now - a.sentTime, a.now, CopaLike(RttAfterAck(s, a))));
  }

  /** A counted loss in the automatic mode, with delays that do not look Copa-like, halves 1/delta,
      after the acknowledgement itself has added one if that was due. */
  lemma LossHalvesDelta(c: Config, s: Control, a: Ack, s': Control)
    requires ControlInv(c, s) && AckStep(c, s, a, s') && c.utility.AutoMode? && s'.numLost > s.numLost
    requires !CopaLike(s'.rtt) && a.now > s.delta.lastLoss && a.now > 0.0
    ensures s'.delta.delta > 0.0 && s'.delta.lastLoss == a.now
    ensures
      var x := 1.0 / CopaDelta.Base(s.delta, c.defaultDelta) + if a.sentTime > s.delta.lastUpdate then 1.0 else 0.0;
      1.0 / s'.delta.delta == RealMax(x / 2.0, 1.0 / c.defaultDelta)
  {
    hide RttInv, RttSampled, CopaLike, CopaDelta.UpdateDelta, CopaWindow.UpdateWindow, CopaWindow.VelocityInv, Walk;
    var call := CopaDelta.Call(false, a.now - a.sentTime, a.now, CopaLike(RttAfterAck(s, a)));
    CopaDelta.DeltaFollowsLaw(s.delta, c.utility, c.defaultDelta, call);
    CopaDelta.ModeSelects(s.delta, c.utility, c.defaultDelta, call);
    CopaDelta.ModeSelects(DeltaAfterSample(c, s, a), c.utility, c.defaultDelta,
      CopaDelta.Call(true, 0.0, a.now, CopaLike(RttAfterAck(s, a))));
  }

  /** The ALCC walk counts nothing. */
  lemma NoAlccLoss(c: Config, s: Control, a: Ack)
    ensures c.variant.Alcc? ==> Acknowledged(c.variant, s.unacked, a.seqNum).lost == 0
  {
    if c.variant.Alcc? && a.seqNum in s.unacked {
      AlccWalk(s.unacked, a.seqNum);
    }
  }

  lemma ControlStarts(c: Config, s: Control)
    requires s.rtt == ClearedRtt(c.lim, 0.0) && s.delta == CopaDelta.Delta(1.0, 0.0, 0.0, CopaDelta.DefaultMode)
    requires s.velocity == CopaWindow.Initial() && c.defaultDelta > 0.0 && s.numAcked == s.numLost == 0
    ensures ControlInv(c, s)
  {
    ClearedInv(c.lim);
    CopaWindow.PowerOne();
  }

  // ------------------------------------------------------------ whole runs

  datatype ControlEvent = AckOf(a: Ack) | SendOf(seqNum: nat, packet: Packet)

  /** A run from a fresh controller, without an abort, over events the clock allows. */
  ghost predicate IsControlRun(c: Config, states: seq<Control>, events: seq<ControlEvent>) {
    && |states| == |events| + 1
    && (if events == [] then
          states[0].rtt == ClearedRtt(c.lim, 0.0) && states[0].velocity == CopaWindow.Initial()
          && states[0].delta == CopaDelta.Delta(1.0, 0.0, 0.0, CopaDelta.DefaultMode)
          && states[0].numAcked == states[0].numLost == states[0].numSent == 0 && states[0].unacked == map[]
        else
          IsControlRun(c, states[..|events|], events[..|events| - 1])
          && Follows(c, states[|events| - 1], events[|events| - 1], states[|events|]))
  }

  ghost predicate Follows(c: Config, s: Control, e: ControlEvent, s': Control) {
    match e
    case AckOf(a) =>
      DeltaInv(c, s.delta) && s.velocity.window >= 2.0 && Timely(c, s, a) && !Aborts(c, s, a) && AckStep(c, s, a, s')
    case SendOf(n, p) => s' == SendStep(s, n, p)
  }

  /** Every reachable controller state keeps the invariant: ordered round-trip estimates,
      bounded delta, a power-of-two step size, a window of at least two, and (in the ALCC
      variant) no packet counted as lost. */
  lemma {:induction false} ControlRunSafe(c: Config, states: seq<Control>, events: seq<ControlEvent>)
    requires c.defaultDelta > 0.0 && IsControlRun(c, states, events)
    ensures ControlInv(c, states[|events|])
    decreases |events|
  {
    hide AckStep, RttInv, RttOrder, CopaWindow.VelocityInv, DeltaInv;
    if events == [] {
      ControlStarts(c, states[0]);
    } else {
      var n := |events| - 1;
      ControlRunSafe(c, states[..n + 1], events[..n]);
      if events[n].AckOf? {
        AckKeeps(c, states[n], events[n].a, states[n + 1]);
      }
    }
  }

  /** When native Copa aborts: with slow start switched on, or before the probing phase is over,
      only on a packet acknowledged no later than it was sent; with it switched off, also on the
      first acknowledgement past probing after which some queuing delay is measured. */
  lemma {:induction false} NativeAborts(c: Config, states: seq<Control>, events: seq<ControlEvent>, a: Ack)
    requires c.defaultDelta > 0.0 && c.variant.Native? && IsControlRun(c, states, events)
    ensures var s := states[|events|];
            DeltaInv(c, s.delta) && (!c.doSlowStart ==> s.velocity.slowStart)
            && (Aborts(c, s, a) <==>
                  a.now <= a.sentTime
                  || (!c.doSlowStart && s.numAcked >= PROBING
                      && RttAfterAck(s, a).unjitteredRtt.extreme != RttAfterAck(s, a).minRtt.extreme))
    decreases |events|
  {
    ControlRunSafe(c, states, events);
    if !c.doSlowStart {
      StaysInSlowStart(c, states, events);
    }
    var s := states[|events|];
    hide IsControlRun, RttSampled, RttInv, CopaWindow.IsPower, CopaDelta.UpdateDelta, CopaWindow.UpdateWindow;
    CopaWindow.StuckExactly(s.velocity, c.doSlowStart,
      MeasureOf(RttAfterAck(s, a), DeltaAfterSample(c, s, a).delta, a.now));
    hide CopaWindow.StuckInSlowStart;
  }

  lemma {:induction false} StaysInSlowStart(c: Config, states: seq<Control>, events: seq<ControlEvent>)
    requires c.defaultDelta > 0.0 && !c.doSlowStart && IsControlRun(c, states, events)
    ensures states[|events|].velocity.slowStart
    decreases |events|
  {
    if events != [] {
      var n := |events| - 1;
      StaysInSlowStart(c, states[..n + 1], events[..n]);
      if events[n].AckOf? {
        SlowStartKept(c, states[n], events[n].a, states[n + 1]);
      }
    }
  }

  lemma SlowStartKept(c: Config, s: Control, a: Ack, s': Control)
    requires DeltaInv(c, s.delta) && s.velocity.window >= 2.0 && AckStep(c, s, a, s')
    requires !c.doSlowStart && s.velocity.slowStart
    ensures s'.velocity.slowStart
  {
    hide RttSampled, CopaDelta.UpdateDelta, CopaWindow.UpdateWindow, Walk;
    CopaWindow.StuckExactly(s.velocity, c.doSlowStart,
      MeasureOf(RttAfterAck(s, a), DeltaAfterSample(c, s, a).delta, a.now));
  }

  function LedgerEvents(events: seq<ControlEvent>): (r: seq<LedgerEvent>)
    ensures |r| == |events|
  {
    if events == [] then []
    else
      var front := LedgerEvents(events[..|events| - 1]);
      front + [match events[|events| - 1]
               case AckOf(a) => Acked(a.seqNum)
               case SendOf(n, p) => Sent(n, p)]
  }

  /** The controller's counters are the ledger's. */
  ghost predicate Books(l: Ledger, s: Control) {
    l.unacked == s.unacked && |l.sent| == s.numSent && |l.lost| == s.numLost
  }

  lemma BooksKept(c: Config, l: Ledger, s: Control, e: ControlEvent, s': Control)
    requires c.variant.Native? && Books(l, s) && Follows(c, s, e, s')
    ensures Books(Booked(l, match e case AckOf(a) => Acked(a.seqNum) case SendOf(n, p) => Sent(n, p)), s')
  {
    hide RttAfterAck, DeltaAfterSample, VelocityAfterSample, Timely, Aborts, Walk, Acknowledged, Above, Below;
    match e
    case AckOf(a) => NativeBooks(l, a.seqNum);
    case SendOf(n, p) =>
  }

  /** Native Copa's counters over any run: every packet sent is outstanding, acknowledged,
      counted in num_pkts_lost, or displaced by a send that reused its number. */
  lemma {:induction false} NativeRunBalance(c: Config, states: seq<Control>, events: seq<ControlEvent>)
    requires c.variant.Native? && IsControlRun(c, states, events)
    ensures Books(BookedAll(LedgerEvents(events)), states[|events|])
    ensures var l, s := BookedAll(LedgerEvents(events)), states[|events|];
            s.numSent == |s.unacked| + |l.hit| + s.numLost + |l.displaced|
    decreases |events|
  {
    if events != [] {
      var n := |events| - 1;
      NativeRunBalance(c, states[..n + 1], events[..n]);
      hide Follows, Booked;
      var front := LedgerEvents(events[..n]);
      assert LedgerEvents(events)[..n] == front;
      BooksKept(c, BookedAll(front), states[n], events[n], states[n + 1]);
    }
    LedgerTotal(LedgerEvents(events));
  }

  lemma LedgerTotal(events: seq<LedgerEvent>)
    ensures var l := BookedAll(events); |l.sent| == |l.unacked| + |l.hit| + |l.lost| + |l.displaced|
  {
    LedgerBalance(events);
    var l := BookedAll(events);
    assert |multiset(l.unacked.Keys)| == |l.unacked.Keys| == |l.unacked|;
  }

  /** The controller: the fields and the methods of the source's class. */
  class CopaController {
    const config: Config
    const rttWindow: RttWindow

    var delta: real
    var prevDeltaUpdateTime: real
    var prevDeltaUpdateTimeLoss: real
    var operationMode: CopaDelta.Operation

    var theWindow: real
    var updateAmt: real
    var updateDir: int
    var prevUpdateDir: int
    var slowStart: bool
    var lastUpdateTime: real

    var unacked: Unacked
    var numPktsAcked: nat
    var numPktsLost: nat
    var numPktsSent: nat

    ghost function DeltaView(): CopaDelta.Delta
      reads this
    {
      CopaDelta.Delta(delta, prevDeltaUpdateTime, prevDeltaUpdateTimeLoss, operationMode)
    }

    ghost function VelocityView(): CopaWindow.Velocity
      reads this
    {
      CopaWindow.Velocity(theWindow, updateAmt, updateDir, prevUpdateDir, slowStart, lastUpdateTime)
    }

    ghost function View(): Control
      reads this, rttWindow, rttWindow.Trackers
    {
      Control(rttWindow.View(), DeltaView(), VelocityView(), unacked, numPktsAcked, numPktsLost, numPktsSent)
    }

    ghost predicate Valid()
      reads this, rttWindow, rttWindow.Trackers
    {
      rttWindow.Distinct() && rttWindow.lim == config.lim && ControlInv(config, View())
    }

    constructor (config: Config)
      requires config.defaultDelta > 0.0
      ensures Valid() && fresh(rttWindow) && fresh(rttWindow.Trackers) && this.config == config
      ensures View().rtt == ClearedRtt(config.lim, 0.0) && DeltaView() == CopaDelta.Delta(1.0, 0.0, 0.0, CopaDelta.DefaultMode)
      ensures VelocityView() == CopaWindow.Initial() && unacked == map[]
      ensures numPktsAcked == numPktsLost == numPktsSent == 0
    {
      this.config := config;
      rttWindow := new RttWindow(config.lim);
      delta, prevDeltaUpdateTime, prevDeltaUpdateTimeLoss := 1.0, 0.0, 0.0;
      operationMode := CopaDelta.DefaultMode;
      theWindow, updateAmt, updateDir, prevUpdateDir := CopaWindow.NUM_PROBE_PKTS as real, 1.0, 1, 1;
      slowStart, lastUpdateTime := true, 0.0;
      unacked := map[];
      numPktsAcked, numPktsLost, numPktsSent := 0, 0, 0;
      new;
      ControlStarts(config, View());
    }

    method UpdateDelta(pktLost: bool, curRtt: real, now: real, isCopa: bool)
      requires delta > 0.0 && config.defaultDelta > 0.0
      modifies this`delta, this`prevDeltaUpdateTime, this`prevDeltaUpdateTimeLoss, this`operationMode
      ensures DeltaView() == CopaDelta.UpdateDelta(old(DeltaView()), config.utility, config.defaultDelta,
                               CopaDelta.Call(pktLost, curRtt, now, isCopa))
    {
      if config.utility.AutoMode? {
        operationMode := if isCopa then CopaDelta.DefaultMode else CopaDelta.LossSensitive;
      }
      if operationMode.DefaultMode? && !config.utility.TcpCoop? {
        if prevDeltaUpdateTime == 0.0 || prevDeltaUpdateTimeLoss + curRtt < now {
          if delta < config.defaultDelta {
            delta := config.defaultDelta;
          }
          delta := RealMin(delta, config.defaultDelta);
          prevDeltaUpdateTime := now;
        }
      } else {
        if prevDeltaUpdateTime == 0.0 {
          delta := config.defaultDelta;
        }
        MoveDelta(pktLost, curRtt, now);
        delta := RealMin(delta, config.defaultDelta);
      }
    }

    method MoveDelta(pktLost: bool, curRtt: real, now: real)
      requires delta > 0.0
      modifies this`delta, this`prevDeltaUpdateTime, this`prevDeltaUpdateTimeLoss
      ensures DeltaView() ==
        if pktLost && old(prevDeltaUpdateTimeLoss) + curRtt < now
        then old(DeltaView()).(delta := old(delta) * 2.0, lastLoss := now)
        else if old(prevDeltaUpdateTime) + curRtt < now
        then (CopaDelta.Reciprocal(old(delta));
              old(DeltaView()).(delta := 1.0 / (1.0 / old(delta) + 1.0), lastUpdate := now))
        else old(DeltaView())
    {
      if pktLost && prevDeltaUpdateTimeLoss + curRtt < now {
        delta := delta * 2.0;
        prevDeltaUpdateTimeLoss := now;
      } else if prevDeltaUpdateTime + curRtt < now {
        CopaDelta.Reciprocal(delta);
        delta := 1.0 / (1.0 / delta + 1.0);
        prevDeltaUpdateTime := now;
      }
    }

    /** The window update, given the tracked round-trip times; false when native Copa's
        assertion fails. */
    method UpdateIntersendTime(rtt: real, minRtt: real, latestRtt: real, now: real) returns (ok: bool)
      requires delta > 0.0 && theWindow >= 2.0
      modifies this`theWindow, this`updateAmt, this`updateDir, this`prevUpdateDir, this`slowStart, this`lastUpdateTime
      ensures ok == !(config.variant.Native? && numPktsAcked >= PROBING
                      && CopaWindow.StuckInSlowStart(old(VelocityView()), config.doSlowStart,
                           CopaWindow.Measure(rtt, minRtt, latestRtt, delta, now)))
      ensures ok && numPktsAcked < PROBING ==> VelocityView() == old(VelocityView())
      ensures ok && numPktsAcked >= PROBING ==>
                VelocityView() == CopaWindow.UpdateWindow(old(VelocityView()), config.doSlowStart,
                                    CopaWindow.Measure(rtt, minRtt, latestRtt, delta, now))
    {
      ok := true;
      if numPktsAcked < 2 * CopaWindow.NUM_PROBE_PKTS - 1 {
        return;
      }
      var target := CopaWindow.TargetWindow(CopaWindow.Measure(rtt, minRtt, latestRtt, delta, now));
      if slowStart {
        if config.doSlowStart || target.Unlimited? {
          theWindow := theWindow + 1.0;
          if CopaWindow.Reaches(theWindow, target) {
            slowStart := false;
          }
        } else if config.variant.Native? {
          return false;
        }
      } else {
        if lastUpdateTime + latestRtt < now {
          TurnVelocity(now);
        }
        MoveWindow(target);
      }
      theWindow := RealMax(2.0, theWindow);
    }

    /** The once-per-round-trip change of step size. */
    method TurnVelocity(now: real)
      modifies this`updateAmt, this`updateDir, this`prevUpdateDir, this`lastUpdateTime
      ensures VelocityView() == CopaWindow.Doubled(old(VelocityView()), now)
    {
      if prevUpdateDir * updateDir > 0 {
        if updateAmt < 0.006 {
          updateAmt := updateAmt + 0.005;
        } else {
          updateAmt := (updateAmt.Floor * 2) as real;
        }
      } else {
        updateAmt := 1.0;
        prevUpdateDir := -prevUpdateDir;
      }
      lastUpdateTime := now;
      updateDir := 0;
    }

    method MoveWindow(target: CopaWindow.Target)
      requires delta > 0.0 && theWindow >= 2.0
      modifies this`theWindow, this`updateAmt, this`updateDir
      ensures VelocityView() == CopaWindow.Moved(old(VelocityView()), target, delta)
    {
      hide CopaWindow.Change;
      if updateAmt > theWindow * delta {
        updateAmt := updateAmt / 2.0;
      }
      updateAmt := RealMax(updateAmt, 1.0);
      if !CopaWindow.Reaches(theWindow, target) {
        updateDir := updateDir + 1;
        theWindow := theWindow + CopaWindow.Change(updateAmt, delta, theWindow);
      } else {
        updateDir := updateDir - 1;
        theWindow := theWindow - CopaWindow.Change(updateAmt, delta, theWindow);
      }
    }

    /** One acknowledged packet; false when an assertion of the source fails. */
    method OnAck(a: Ack) returns (ok: bool)
      requires Valid() && Timely(config, View(), a)
      modifies this, rttWindow, rttWindow.Trackers
      ensures ok == !Aborts(config, old(View()), a)
      ensures ok ==> AckStep(config, old(View()), a, View()) && Valid() && numPktsAcked == old(numPktsAcked) + 1
    {
      hide RttInv, RttSampled, RttAfterAck, CopaWindow.IsPower, CopaLike, RttOrder, NotBefore;
      hide CopaDelta.UpdateDelta, CopaWindow.UpdateWindow, CopaWindow.StuckInSlowStart, CopaWindow.Reduced, Acknowledged;
      ghost var s := View();
      if config.variant.Native? && a.now <= a.sentTime {
        return false;
      }
      var isCopa;
      ok, isCopa := React(a);
      if ok {
        Finish(a, isCopa);
        assert AckStep(config, s, a, View());
        AckKeeps(config, s, a, View());
      }
    }

    /** The rest of onACK: the packet map, a second look at delta, and the reduction. */
    method Finish(a: Ack, isCopa: bool)
      requires delta > 0.0 && config.defaultDelta > 0.0
      modifies this`unacked, this`numPktsLost, this`numPktsAcked, this`theWindow
      modifies this`delta, this`prevDeltaUpdateTime, this`prevDeltaUpdateTimeLoss, this`operationMode
      ensures var walked := Acknowledged(config.variant, old(unacked), a.seqNum);
        unacked == walked.left && numPktsLost == old(numPktsLost) + walked.lost
        && DeltaView() == if walked.lost > 0
                          then CopaDelta.UpdateDelta(old(DeltaView()), config.utility, config.defaultDelta,
                                 CopaDelta.Call(true, 0.0, a.now, isCopa))
                          else old(DeltaView())
      ensures VelocityView() == if a.reduce then CopaWindow.Reduced(old(VelocityView())) else old(VelocityView())
      ensures numPktsAcked == old(numPktsAcked) + 1
    {
      hide CopaDelta.UpdateDelta, CopaWindow.Reduced, Acknowledged;
      var lost: nat;
      unacked, lost := Acknowledge(config.variant, unacked, a.seqNum);
      numPktsLost := numPktsLost + lost;
      if lost > 0 {
        UpdateDelta(true, 0.0, a.now, isCopa);
      }
      if a.reduce {
        Reduce();
      }
      numPktsAcked := numPktsAcked + 1;
    }

    method Reduce()
      modifies this`theWindow
      ensures VelocityView() == CopaWindow.Reduced(old(VelocityView()))
    {
      theWindow := RealMax(2.0, theWindow * 0.7);
    }

    /** The updates made before the packet map is consulted. */
    method React(a: Ack) returns (ok: bool, isCopa: bool)
      requires Valid() && Timely(config, View(), a)
      modifies rttWindow, rttWindow.Trackers
      modifies this`delta, this`prevDeltaUpdateTime, this`prevDeltaUpdateTimeLoss, this`operationMode
      modifies this`theWindow, this`updateAmt, this`updateDir, this`prevUpdateDir, this`slowStart, this`lastUpdateTime
      ensures rttWindow.Distinct() && View().rtt == RttAfterAck(old(View()), a)
      ensures DeltaView() == DeltaAfterSample(config, old(View()), a)
      ensures ok == !(config.variant.Native? && numPktsAcked >= PROBING
                      && CopaWindow.StuckInSlowStart(old(VelocityView()), config.doSlowStart,
                           MeasureOf(RttAfterAck(old(View()), a), delta, a.now)))
      ensures ok ==> VelocityView() == VelocityAfterSample(config, old(View()), a, delta)
      ensures isCopa == CopaLike(RttAfterAck(old(View()), a))
    {
      hide RttInv, RttSampled, CopaWindow.IsPower, CopaDelta.UpdateDelta, CopaWindow.UpdateWindow;
      hide CopaWindow.StuckInSlowStart;
      ghost var s := View();
      isCopa := TakeSample(a);
      UpdateDelta(false, a.now - a.sentTime, a.now, isCopa);
      assert DeltaView() == DeltaAfterSample(config, s, a);
      ok := UpdateIntersendTime(rttWindow.unjitteredRtt.extreme, rttWindow.minRtt.extreme, rttWindow.latestRtt, a.now);
    }

    method TakeSample(a: Ack) returns (isCopa: bool)
      requires Valid() && Timely(config, View(), a)
      modifies rttWindow, rttWindow.Trackers
      ensures View() == old(View()).(rtt := RttAfterAck(old(View()), a))
      ensures rttWindow.Distinct() && RttInv(rttWindow.View(), config.lim)
      ensures isCopa == CopaLike(rttWindow.View())
    {
      hide RttInv, RttSampled, CopaWindow.IsPower;
      rttWindow.NewRttSample(a.now - a.sentTime, a.now);
      isCopa := rttWindow.IsCopa();
    }

    /** One packet handed to the network. */
    method OnPktSent(seqNum: nat, now: real)
      requires Valid()
      modifies this`unacked, this`numPktsSent
      ensures Valid() && View() == SendStep(old(View()), seqNum, Packet(now, rttWindow.unjitteredRtt.extreme))
    {
      unacked := unacked[seqNum := Packet(now, rttWindow.unjitteredRtt.extreme)];
      numPktsSent := numPktsSent + 1;
    }
  }
}
