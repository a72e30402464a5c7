/** Copa's window and velocity (update_intersend_time and the loss reduction in onACK).
    Doubles are real numbers; the largest double stands for "no target". */
module CopaWindow {
  import opened Bytes
  import opened ExtremeWindows

  const NUM_PROBE_PKTS: nat := 10

  datatype Velocity = Velocity(window: real, updateAmt: real, updateDir: int, prevUpdateDir: int,
                               slowStart: bool, lastUpdate: real)

  /** The measurements a step reads. */
  datatype Measure = Measure(unjittered: real, minRtt: real, latest: real, delta: real, now: real)

  datatype Target = Unlimited | Limited(window: real)

  function Initial(): Velocity {
    Velocity(NUM_PROBE_PKTS as real, 1.0, 1, 1, true, 0.0)
  }

  function TargetWindow(m: Measure): Target
    requires m.delta > 0.0
  {
    var queuingDelay := m.unjittered - m.minRtt;
    if queuingDelay == 0.0 then Unlimited
    else
      Nonzero(queuingDelay, m.delta);
      Limited(m.unjittered / (queuingDelay * m.delta))
  }

  lemma Nonzero(x: real, y: real)
    requires x != 0.0 && y != 0.0
    ensures x * y != 0.0
  {
  }

  predicate Reaches(window: real, t: Target) {
    t.Limited? && window >= t.window
  }

  /** The once-per-RTT doubling of the step size, or its reset on a change of direction. */
  function Doubled(v: Velocity, now: real): Velocity {
    if v.prevUpdateDir * v.updateDir > 0 then
      v.(updateAmt := if v.updateAmt < 0.006 then v.updateAmt + 0.005 else (v.updateAmt.Floor * 2) as real,
         lastUpdate := now, updateDir := 0)
    else
      v.(updateAmt := 1.0, prevUpdateDir := -v.prevUpdateDir, lastUpdate := now, updateDir := 0)
  }

  /** The step size after the cap by window * delta and the floor of one. */
  function Capped(amt: real, window: real, delta: real): real {
    RealMax(if amt > window * delta then amt / 2.0 else amt, 1.0)
  }

  /** The size of one packet's move. */
  function Change(amt: real, delta: real, window: real): real
    requires delta > 0.0 && window >= 2.0
  {
    Nonzero(delta, window);
    amt / (delta * window)
  }

  /** One packet's move of the window, up or down. */
  function Moved(u: Velocity, target: Target, delta: real): Velocity
    requires delta > 0.0 && u.window >= 2.0
  {
    var amt := Capped(u.updateAmt, u.window, delta);
    var change := Change(amt, delta, u.window);
    if !Reaches(u.window, target) then
      u.(updateAmt := amt, updateDir := u.updateDir + 1, window := u.window + change)
    else
      u.(updateAmt := amt, updateDir := u.updateDir - 1, window := u.window - change)
  }

  /** update_intersend_time, once enough packets have been acknowledged. */
  function UpdateWindow(v: Velocity, doSlowStart: bool, m: Measure): Velocity
    requires m.delta > 0.0 && v.window >= 2.0
  {
    var target := TargetWindow(m);
    var moved :=
      if v.slowStart then
        if doSlowStart || target.Unlimited? then
          v.(window := v.window + 1.0, slowStart := !Reaches(v.window + 1.0, target))
        else v
      else Moved(if v.lastUpdate + m.latest < m.now then Doubled(v, m.now) else v, target, m.delta);
    moved.(window := RealMax(2.0, moved.window))
  }

  /** Native Copa gives up here: it is in slow start, slow start is switched off, and there is a
      target.  (The ALCC variant leaves the window as it is.) */
  predicate StuckInSlowStart(v: Velocity, doSlowStart: bool, m: Measure)
    requires m.delta > 0.0
  {
    v.slowStart && !doSlowStart && TargetWindow(m).Limited?
  }

  /** There is a target exactly when some queuing delay was measured; and with slow start
      switched off the controller never leaves it by itself. */
  lemma StuckExactly(v: Velocity, doSlowStart: bool, m: Measure)
    requires m.delta > 0.0 && v.window >= 2.0
    ensures StuckInSlowStart(v, doSlowStart, m) <==> v.slowStart && !doSlowStart && m.unjittered != m.minRtt
    ensures v.slowStart && !doSlowStart ==> UpdateWindow(v, doSlowStart, m).slowStart
  {
  }

  /** The multiplicative decrease after heavy loss. */
  function Reduced(v: Velocity): Velocity {
    v.(window := RealMax(2.0, v.window * 0.7))
  }

  ghost predicate IsPower(x: real) {
    exists n: nat :: x == Pow2(n) as real
  }

  /** What every reachable controller state keeps. */
  ghost predicate VelocityInv(v: Velocity) {
    && v.window >= 2.0
    && IsPower(v.updateAmt)
    && (v.prevUpdateDir == 1 || v.prevUpdateDir == -1)
  }

  lemma PowerUp(x: real)
    requires IsPower(x)
    ensures x >= 1.0 && IsPower((x.Floor * 2) as real) && (x.Floor * 2) as real == 2.0 * x
  {
    var n: nat :| x == Pow2(n) as real;
    assert x.Floor == Pow2(n);
    assert (x.Floor * 2) as real == Pow2(n + 1) as real;
  }

  lemma PowerOne()
    ensures IsPower(1.0)
  {
    assert 1.0 == Pow2(0) as real;
  }

  lemma PowerDown(x: real)
    requires IsPower(x)
    ensures IsPower(RealMax(x / 2.0, 1.0)) && x >= 1.0
  {
    var n: nat :| x == Pow2(n) as real;
    if n == 0 {
      PowerOne();
    } else {
      assert x / 2.0 == Pow2(n - 1) as real;
    }
  }

  lemma CappedPower(amt: real, window: real, delta: real)
    requires IsPower(amt)
    ensures IsPower(Capped(amt, window, delta))
    ensures Capped(amt, window, delta) <= RealMax(1.0, amt)
    ensures Capped(amt, window, delta) <= RealMax(1.0, RealMax(amt / 2.0, window * delta))
  {
    PowerDown(amt);
  }

  lemma DoubledPower(v: Velocity, now: real)
    requires VelocityInv(v)
    ensures VelocityInv(Doubled(v, now)) && Doubled(v, now).window == v.window
    ensures Doubled(v, now).slowStart == v.slowStart
    ensures Doubled(v, now).updateAmt == 2.0 * v.updateAmt || Doubled(v, now).updateAmt == 1.0
  {
    PowerUp(v.updateAmt);
    PowerOne();
  }

  lemma MovedKeeps(u: Velocity, target: Target, delta: real)
    requires VelocityInv(u) && delta > 0.0
    ensures var w := Moved(u, target, delta);
            IsPower(w.updateAmt) && w.prevUpdateDir == u.prevUpdateDir && w.slowStart == u.slowStart
            && w.updateAmt <= RealMax(1.0, u.updateAmt)
            && w.updateAmt <= RealMax(1.0, RealMax(u.updateAmt / 2.0, u.window * delta))
  {
    CappedPower(u.updateAmt, u.window, delta);
  }

  /** A step keeps the invariant, never re-enters slow start, and leaves a step size of at
      most max(1, its old value, window * delta); the "< 0.006" branch is never taken. */
  lemma UpdateWindowKeeps(v: Velocity, doSlowStart: bool, m: Measure)
    requires VelocityInv(v) && m.delta > 0.0
    ensures var v' := UpdateWindow(v, doSlowStart, m);
            VelocityInv(v')
            && (v'.slowStart ==> v.slowStart)
            && v'.updateAmt <= RealMax(1.0, RealMax(v.updateAmt, v.window * m.delta))
    ensures v.updateAmt >= 0.006
  {
    hide Moved, TargetWindow, Doubled, IsPower, Reaches;
    PowerUp(v.updateAmt);
    DoubledPower(v, m.now);
    var u := if v.lastUpdate + m.latest < m.now then Doubled(v, m.now) else v;
    MovedKeeps(u, TargetWindow(m), m.delta);
  }

  /** Direction: outside slow start a step moves the window toward the target side. */
  lemma UpdateWindowDirection(v: Velocity, doSlowStart: bool, m: Measure)
    requires VelocityInv(v) && m.delta > 0.0 && !v.slowStart
    ensures var v' := UpdateWindow(v, doSlowStart, m);
            if Reaches(v.window, TargetWindow(m)) then v'.window <= v.window && (v.window > 2.0 ==> v'.window < v.window)
            else v'.window > v.window
  {
    hide Moved, Doubled, TargetWindow, Reaches, UpdateWindow, IsPower;
    DoubledPower(v, m.now);
    var u := if v.lastUpdate + m.latest < m.now then Doubled(v, m.now) else v;
    Stepped(v, doSlowStart, m);
    MovedDirection(u, TargetWindow(m), m.delta);
  }

  lemma MovedDirection(u: Velocity, target: Target, delta: real)
    requires VelocityInv(u) && delta > 0.0
    ensures var w := Moved(u, target, delta);
            if Reaches(u.window, target) then w.window < u.window else w.window > u.window
  {
    hide Reaches;
    CappedPower(u.updateAmt, u.window, delta);
    var amt := Capped(u.updateAmt, u.window, delta);
    PositiveQuotient(amt, delta, u.window);
  }

  lemma PositiveQuotient(a: real, b: real, c: real)
    requires a > 0.0 && b > 0.0 && c > 0.0
    ensures b * c != 0.0 && a / (b * c) > 0.0
  {
    assert b * c > 0.0;
  }

  // ------------------------------------------------------------ the step in terms of the measurements

  /** The window is below its target, told by cross-multiplying: no queuing delay was measured, or
      window * delay * delta is below the round-trip time. */
  predicate BelowTarget(window: real, m: Measure) {
    m.unjittered == m.minRtt || window * ((m.unjittered - m.minRtt) * m.delta) < m.unjittered
  }

  lemma QuotientBelow(x: real, num: real, den: real)
    requires den > 0.0
    ensures x < num / den <==> x * den < num
  {
    assert num / den * den == num;
    if x < num / den {
      assert (num / den - x) * den > 0.0;
    } else {
      assert (x - num / den) * den >= 0.0;
    }
  }

  lemma BelowTargetExact(window: real, m: Measure)
    requires m.delta > 0.0 && m.minRtt <= m.unjittered
    ensures BelowTarget(window, m) <==> !Reaches(window, TargetWindow(m))
  {
    var delay := m.unjittered - m.minRtt;
    if delay > 0.0 {
      Nonzero(delay, m.delta);
      assert delay * m.delta > 0.0;
      QuotientBelow(window, m.unjittered, delay * m.delta);
    }
  }

  /** Outside slow start the window grows exactly when it is below its target, and otherwise
      shrinks, to no less than two. */
  lemma GrowsExactly(v: Velocity, doSlowStart: bool, m: Measure)
    requires VelocityInv(v) && m.delta > 0.0 && !v.slowStart && m.minRtt <= m.unjittered
    ensures var v' := UpdateWindow(v, doSlowStart, m);
            if BelowTarget(v.window, m) then v'.window > v.window
            else v'.window <= v.window && (v.window > 2.0 ==> v'.window < v.window)
  {
    hide BelowTarget, Reaches, TargetWindow, UpdateWindow;
    BelowTargetExact(v.window, m);
    UpdateWindowDirection(v, doSlowStart, m);
  }

  /** In slow start the window grows by one, and slow start is left exactly when the new window is
      no longer below its target.  With slow start switched off and a target, nothing moves. */
  lemma SlowStartExactly(v: Velocity, doSlowStart: bool, m: Measure)
    requires VelocityInv(v) && m.delta > 0.0 && v.slowStart && m.minRtt <= m.unjittered
    ensures var v' := UpdateWindow(v, doSlowStart, m);
            if doSlowStart || m.unjittered == m.minRtt then
              v'.window == v.window + 1.0 && (v'.slowStart <==> BelowTarget(v.window + 1.0, m))
            else v' == v
  {
    BelowTargetExact(v.window + 1.0, m);
    hide BelowTarget, Reaches;
  }

  /** The window's net moves since the last turn went the way of the turn before. */
  predicate SameWay(v: Velocity) {
    (v.updateDir > 0 && v.prevUpdateDir == 1) || (v.updateDir < 0 && v.prevUpdateDir == -1)
  }

  /** A turn falls due once a round trip: the step size doubles if the window kept its way, and
      starts again from one, with the way reversed, if not. */
  lemma TurnExactly(v: Velocity, now: real)
    requires VelocityInv(v)
    ensures var u := Doubled(v, now);
            u.updateAmt == (if SameWay(v) then 2.0 * v.updateAmt else 1.0)
            && u.prevUpdateDir == (if SameWay(v) then v.prevUpdateDir else -v.prevUpdateDir)
            && u.updateDir == 0 && u.lastUpdate == now && u.window == v.window
  {
    PowerUp(v.updateAmt);
  }

  /** The step size: what it was, or what a turn makes of it, halved if it exceeds window * delta
      and is more than one. */
  lemma StepSizeExactly(v: Velocity, doSlowStart: bool, m: Measure)
    requires VelocityInv(v) && m.delta > 0.0 && !v.slowStart
    ensures var v' := UpdateWindow(v, doSlowStart, m);
            var turn := m.now - v.lastUpdate > m.latest;
            var amt := if !turn then v.updateAmt else if SameWay(v) then 2.0 * v.updateAmt else 1.0;
            v'.updateAmt == (if amt <= v.window * m.delta || amt == 1.0 then amt else amt / 2.0)
            && v'.lastUpdate == (if turn then m.now else v.lastUpdate)
            && v'.prevUpdateDir == (if turn && !SameWay(v) then -v.prevUpdateDir else v.prevUpdateDir)
  {
    hide *;
    TurnExactly(v, m.now);
    DoubledPower(v, m.now);
    var u := if v.lastUpdate + m.latest < m.now then Doubled(v, m.now) else v;
    Stepped(v, doSlowStart, m);
    MovedAmount(u, TargetWindow(m), m.delta);
  }

  lemma MovedAmount(u: Velocity, target: Target, delta: real)
    requires VelocityInv(u) && delta > 0.0
    ensures var w := Moved(u, target, delta);
            w.updateAmt == (if u.updateAmt <= u.window * delta || u.updateAmt == 1.0 then u.updateAmt else u.updateAmt / 2.0)
            && w.lastUpdate == u.lastUpdate && w.prevUpdateDir == u.prevUpdateDir
  {
    hide Reaches, Change;
    PowerUp(u.updateAmt);
    PowerStep(u.updateAmt);
    hide IsPower;
  }

  lemma PowerStep(x: real)
    requires IsPower(x)
    ensures x == 1.0 || x >= 2.0
  {
    var n: nat :| x == Pow2(n) as real;
  }

  /** The length of a move: the step size over delta * window, cut off at a window of two; and
      the moves since the last turn are counted, up as one and down as minus one. */
  lemma MoveExactly(v: Velocity, doSlowStart: bool, m: Measure)
    requires VelocityInv(v) && m.delta > 0.0 && !v.slowStart && m.minRtt <= m.unjittered
    ensures var v' := UpdateWindow(v, doSlowStart, m);
            var before := if m.now - v.lastUpdate > m.latest then 0 else v.updateDir;
            if BelowTarget(v.window, m) then
              (v'.window - v.window) * (m.delta * v.window) == v'.updateAmt && v'.updateDir == before + 1
            else
              ((v.window - v'.window) * (m.delta * v.window) == v'.updateAmt || v'.window == 2.0)
              && v'.updateDir == before - 1
  {
    hide TargetWindow, Reaches, BelowTarget, Capped, IsPower;
    BelowTargetExact(v.window, m);
    DoubledPower(v, m.now);
    var u := if v.lastUpdate + m.latest < m.now then Doubled(v, m.now) else v;
    MovedExactly(u, TargetWindow(m), m.delta);
    GrowsExactly(v, doSlowStart, m);
    hide Moved, UpdateWindow;
    Stepped(v, doSlowStart, m);
  }

  lemma Stepped(v: Velocity, doSlowStart: bool, m: Measure)
    requires v.window >= 2.0 && m.delta > 0.0 && !v.slowStart
    ensures var u := if v.lastUpdate + m.latest < m.now then Doubled(v, m.now) else v;
            u.window == v.window
            && var w := Moved(u, TargetWindow(m), m.delta);
               UpdateWindow(v, doSlowStart, m) == w.(window := RealMax(2.0, w.window))
  {
    hide Moved;
  }

  lemma MovedExactly(u: Velocity, target: Target, delta: real)
    requires u.window >= 2.0 && delta > 0.0
    ensures var w := Moved(u, target, delta);
            w.updateDir == (if Reaches(u.window, target) then u.updateDir - 1 else u.updateDir + 1)
            && (w.window - u.window) * (delta * u.window)
               == (if Reaches(u.window, target) then -w.updateAmt else w.updateAmt)
  {
    hide Reaches, Capped;
    var w := Moved(u, target, delta);
    ChangeExactly(w.updateAmt, delta, u.window);
    hide Change;
  }

  lemma ChangeExactly(amt: real, delta: real, window: real)
    requires delta > 0.0 && window >= 2.0
    ensures Change(amt, delta, window) * (delta * window) == amt
  {
    Nonzero(delta, window);
  }

  /** A reduction leaves seven tenths of the window, but at least two. */
  lemma ReducedExactly(v: Velocity)
    requires v.window >= 2.0
    ensures
      var w := Reduced(v);
      && w == v.(window := w.window) && w.window >= 2.0
      && (10.0 * w.window == 7.0 * v.window || (w.window == 2.0 && 7.0 * v.window < 20.0))
  {
  }

  /** A run of steps: ordinary updates and reductions. */
  datatype WindowStep = Update(m: Measure) | Reduce

  function AfterSteps(v: Velocity, doSlowStart: bool, steps: seq<WindowStep>): (r: Velocity)
    requires v.window >= 2.0
    requires forall k :: 0 <= k < |steps| && steps[k].Update? ==> steps[k].m.delta > 0.0
    ensures r.window >= 2.0
  {
    if steps == [] then v
    else
      var before := AfterSteps(v, doSlowStart, steps[..|steps| - 1]);
      match steps[|steps| - 1]
      case Update(m) => UpdateWindow(before, doSlowStart, m)
      case Reduce => Reduced(before)
  }

  /** In every state reachable from init the step size is a power of two, the last direction
      is 1 or -1, the window is at least 2, and slow start, once left, stays left. */
  lemma {:induction false} ReachableVelocity(doSlowStart: bool, steps: seq<WindowStep>, k: nat)
    requires forall j :: 0 <= j < |steps| && steps[j].Update? ==> steps[j].m.delta > 0.0
    requires k <= |steps|
    ensures VelocityInv(AfterSteps(Initial(), doSlowStart, steps))
    ensures AfterSteps(Initial(), doSlowStart, steps).slowStart ==>
      AfterSteps(Initial(), doSlowStart, steps[..k]).slowStart
  {
    if steps == [] {
      PowerOne();
    } else {
      var front, last := steps[..|steps| - 1], steps[|steps| - 1];
      if k < |steps| {
        assert steps[..k] == front[..k];
        ReachableVelocity(doSlowStart, front, k);
      } else {
        assert steps[..k] == steps;
        ReachableVelocity(doSlowStart, front, k - 1);
      }
      if last.Update? {
        UpdateWindowKeeps(AfterSteps(Initial(), doSlowStart, front), doSlowStart, last.m);
      }
    }
  }
}
