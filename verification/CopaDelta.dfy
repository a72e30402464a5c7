/** Copa's delta: reset in the default mode, halved on loss and increased additively (in
    1/delta) in the loss-sensitive mode (update_delta).  Doubles are real numbers. */
module CopaDelta {
  import opened ExtremeWindows

  datatype Utility = AutoMode | TcpCoop | OtherUtility

  datatype Operation = DefaultMode | LossSensitive

  datatype Delta = Delta(delta: real, lastUpdate: real, lastLoss: real, operation: Operation)

  /** One call of update_delta, with the current time and is_copa's verdict. */
  datatype Call = Call(lost: bool, curRtt: real, now: real, isCopa: bool)

  function OperationAfter(d: Delta, u: Utility, c: Call): Operation {
    if u.AutoMode? then (if c.isCopa then DefaultMode else LossSensitive) else d.operation
  }

  /** update_delta, branch by branch. */
  function UpdateDelta(d: Delta, u: Utility, def: real, c: Call): Delta
    requires d.delta > 0.0 && def > 0.0
  {
    var operation := OperationAfter(d, u, c);
    if operation.DefaultMode? && !u.TcpCoop? then
      if d.lastUpdate == 0.0 || d.lastLoss + c.curRtt < c.now then
        var raised := if d.delta < def then def else d.delta;
        Delta(RealMin(raised, def), c.now, d.lastLoss, operation)
      else d.(operation := operation)
    else
      var start := if d.lastUpdate == 0.0 then def else d.delta;
      if c.lost && d.lastLoss + c.curRtt < c.now then
        Delta(RealMin(start * 2.0, def), d.lastUpdate, c.now, operation)
      else if d.lastUpdate + c.curRtt < c.now then
        Reciprocal(start);
        Delta(RealMin(1.0 / (1.0 / start + 1.0), def), c.now, d.lastLoss, operation)
      else Delta(RealMin(start, def), d.lastUpdate, d.lastLoss, operation)
  }

  lemma Reciprocal(x: real)
    requires x > 0.0
    ensures 1.0 / x > 0.0 && 1.0 / (1.0 / x) == x
  {
  }

  /** What a call amounts to for 1/delta. */
  datatype Kind = Reset | Halve | Increase | Keep

  function KindOf(d: Delta, u: Utility, c: Call): Kind {
    if OperationAfter(d, u, c).DefaultMode? && !u.TcpCoop? then
      if d.lastUpdate == 0.0 || d.lastLoss + c.curRtt < c.now then Reset else Keep
    else if c.lost && d.lastLoss + c.curRtt < c.now then Halve
    else if d.lastUpdate + c.curRtt < c.now then Increase
    else Keep
  }

  /** The law for x = 1/delta: additive increase, halving, never below 1/default. */
  function Law(x: real, floor: real, k: Kind): real {
    match k
    case Reset => floor
    case Halve => RealMax(x / 2.0, floor)
    case Increase => x + 1.0
    case Keep => x
  }

  /** The first call after init brings delta to at most the default, and no call leaves that
      range again. */
  lemma DeltaBounded(d: Delta, u: Utility, def: real, c: Call)
    requires d.delta > 0.0 && def > 0.0
    requires d.lastUpdate == 0.0 || d.delta <= def
    ensures 0.0 < UpdateDelta(d, u, def, c).delta <= def
  {
    var start := if d.lastUpdate == 0.0 then def else d.delta;
    Reciprocal(start);
    Reciprocal(1.0 / start + 1.0);
  }

  lemma ReciprocalOrder(x: real, y: real)
    requires 0.0 < x && 0.0 < y
    ensures x <= y <==> 1.0 / y <= 1.0 / x
    ensures 1.0 / (x * 2.0) == 1.0 / x / 2.0
  {
    assert 1.0 / x - 1.0 / y == (y - x) * (1.0 / (x * y));
    assert 1.0 / (x * y) > 0.0;
  }

  lemma ReciprocalMin(x: real, y: real)
    requires 0.0 < x && 0.0 < y
    ensures 1.0 / RealMin(x, y) == RealMax(1.0 / x, 1.0 / y)
  {
    ReciprocalOrder(x, y);
  }

  /** What a call starts from: the default, until some call has set the time of the last
      update. */
  function Base(d: Delta, def: real): real {
    if d.lastUpdate == 0.0 then def else d.delta
  }

  predicate Ready(d: Delta, def: real) {
    d.delta > 0.0 && def > 0.0 && (d.lastUpdate == 0.0 || d.delta <= def)
  }

  /** Every call moves 1/delta by the law, and leaves delta where the next call starts. */
  lemma DeltaFollowsLaw(d: Delta, u: Utility, def: real, c: Call)
    requires Ready(d, def)
    ensures var d' := UpdateDelta(d, u, def, c);
            Ready(d', def) && 1.0 / d'.delta == Law(1.0 / Base(d, def), 1.0 / def, KindOf(d, u, c))
            && (c.now > 0.0 ==> Base(d', def) == d'.delta)
  {
    DeltaBounded(d, u, def, c);
    var start := Base(d, def);
    ReciprocalOrder(start, def);
    ReciprocalMin(start * 2.0, def);
    ReciprocalMin(start, def);
    Reciprocal(start);
    Reciprocal(1.0 / start + 1.0);
    ReciprocalMin(1.0 / (1.0 / start + 1.0), def);
  }

  /** In the default mode delta is the default again, once a round trip has passed since the last
      loss; 1/delta is not otherwise touched, and losses are not recorded. */
  ghost predicate DefaultLaw(d: Delta, def: real, c: Call, d': Delta) {
    && d'.lastLoss == d.lastLoss
    && (d.lastUpdate == 0.0 || c.now - d.lastLoss > c.curRtt ==> d'.delta == def && d'.lastUpdate == c.now)
    && (d.lastUpdate != 0.0 && c.now - d.lastLoss <= c.curRtt ==> d'.delta == d.delta && d'.lastUpdate == d.lastUpdate)
  }

  /** In the loss-sensitive mode a loss, at most one a round trip, halves 1/delta; without one,
      1/delta gains one each round trip. */
  ghost predicate SensitiveLaw(d: Delta, def: real, c: Call, d': Delta)
    requires Ready(d, def) && d'.delta > 0.0
  {
    var loss, due := c.lost && c.now - d.lastLoss > c.curRtt, c.now - d.lastUpdate > c.curRtt;
    && (loss ==> 1.0 / d'.delta == RealMax(1.0 / Base(d, def) / 2.0, 1.0 / def)
                 && d'.lastLoss == c.now && d'.lastUpdate == d.lastUpdate)
    && (!loss && due ==> 1.0 / d'.delta == 1.0 / Base(d, def) + 1.0
                         && d'.lastUpdate == c.now && d'.lastLoss == d.lastLoss)
    && (!loss && !due ==> d'.delta == Base(d, def) && d'.lastUpdate == d.lastUpdate && d'.lastLoss == d.lastLoss)
  }

  /** Which law a call obeys.  In the automatic mode a Copa-like spread of delays selects the
      default law and anything else the loss-sensitive one; TCP cooperation always means the
      latter; otherwise the mode stays what it was. */
  lemma ModeSelects(d: Delta, u: Utility, def: real, c: Call)
    requires Ready(d, def)
    ensures var d' := UpdateDelta(d, u, def, c);
            d'.delta > 0.0
            && (u.AutoMode? ==> if c.isCopa then DefaultLaw(d, def, c, d') else SensitiveLaw(d, def, c, d'))
            && (u.TcpCoop? ==> SensitiveLaw(d, def, c, d'))
            && (u.OtherUtility? ==>
                  d'.operation == d.operation
                  && if d.operation.DefaultMode? then DefaultLaw(d, def, c, d') else SensitiveLaw(d, def, c, d'))
  {
    DeltaFollowsLaw(d, u, def, c);
    ReciprocalOrder(Base(d, def), def);
  }

  // ------------------------------------------------------------ whole runs

  /** The state after a run of calls. */
  function After(d: Delta, u: Utility, def: real, calls: seq<Call>): (r: Delta)
    requires Ready(d, def)
    ensures r.delta > 0.0 && (calls != [] ==> r.delta <= def) && (calls == [] ==> r == d)
  {
    if calls == [] then d
    else
      var before := After(d, u, def, calls[..|calls| - 1]);
      var c := calls[|calls| - 1];
      DeltaBounded(before, u, def, c);
      UpdateDelta(before, u, def, c)
  }

  /** How many calls of the run increased 1/delta. */
  function Increases(d: Delta, u: Utility, def: real, calls: seq<Call>): nat
    requires Ready(d, def)
  {
    if calls == [] then 0
    else
      var front := calls[..|calls| - 1];
      Increases(d, u, def, front)
        + if KindOf(After(d, u, def, front), u, calls[|calls| - 1]) == Increase then 1 else 0
  }

  /** No call of the run resets or halves. */
  predicate OnlyIncreases(d: Delta, u: Utility, def: real, calls: seq<Call>)
    requires Ready(d, def)
  {
    calls != [] ==>
      var front := calls[..|calls| - 1];
      OnlyIncreases(d, u, def, front)
      && (var k := KindOf(After(d, u, def, front), u, calls[|calls| - 1]); k == Increase || k == Keep)
  }

  predicate ClockRuns(calls: seq<Call>) {
    forall k :: 0 <= k < |calls| ==> calls[k].now > 0.0
  }

  /** Additive increase, from the first call after init on: after k loss-free qualifying calls
      from the default, 1/delta = 1/default + k; in general 1/delta gains exactly the number of
      increases. */
  lemma {:induction false} IncreasesAdd(d: Delta, u: Utility, def: real, calls: seq<Call>)
    requires Ready(d, def) && ClockRuns(calls) && OnlyIncreases(d, u, def, calls)
    ensures Ready(After(d, u, def, calls), def)
    ensures 1.0 / Base(After(d, u, def, calls), def) == 1.0 / Base(d, def) + Increases(d, u, def, calls) as real
    ensures calls != [] ==> Base(After(d, u, def, calls), def) == After(d, u, def, calls).delta
  {
    if calls != [] {
      var front := calls[..|calls| - 1];
      IncreasesAdd(d, u, def, front);
      DeltaFollowsLaw(After(d, u, def, front), u, def, calls[|calls| - 1]);
      hide UpdateDelta;
    }
  }

  lemma LawBound(x: real, floor: real, k: Kind)
    requires x >= floor > 0.0
    ensures floor <= Law(x, floor, k) <= x + if k == Increase then 1.0 else 0.0
  {
  }

  /** Over any run 1/delta stays between 1/default and its start plus the increases. */
  lemma {:induction false} RunBounded(d: Delta, u: Utility, def: real, calls: seq<Call>)
    requires Ready(d, def) && ClockRuns(calls)
    ensures Ready(After(d, u, def, calls), def)
    ensures var x := 1.0 / Base(After(d, u, def, calls), def);
            1.0 / def <= x <= 1.0 / Base(d, def) + Increases(d, u, def, calls) as real
    ensures calls != [] ==> Base(After(d, u, def, calls), def) == After(d, u, def, calls).delta
  {
    if calls == [] {
      ReciprocalOrder(Base(d, def), def);
    } else {
      Reciprocal(def);
      var front, last := calls[..|calls| - 1], calls[|calls| - 1];
      RunBounded(d, u, def, front);
      var before := After(d, u, def, front);
      DeltaFollowsLaw(before, u, def, last);
      hide UpdateDelta, Law, KindOf, Base;
      LawBound(1.0 / Base(before, def), 1.0 / def, KindOf(before, u, last));
    }
  }

  /** The time of the last call that came more than its round trip after the one before it of
      that kind, counting from t. */
  function LastDue(t: real, calls: seq<Call>): real {
    if calls == [] then t
    else
      var before, c := LastDue(t, calls[..|calls| - 1]), calls[|calls| - 1];
      if c.now - before > c.curRtt then c.now else before
  }

  /** How many calls of the run were due. */
  function DueCalls(t: real, calls: seq<Call>): nat {
    if calls == [] then 0
    else
      var front, c := calls[..|calls| - 1], calls[|calls| - 1];
      DueCalls(t, front) + if c.now - LastDue(t, front) > c.curRtt then 1 else 0
  }

  /** A run in the automatic mode without losses and without Copa-like delays: from the default,
      1/delta = 1/default + k after k due calls, told from the times alone. */
  lemma {:induction false} LossFreeRun(d: Delta, def: real, calls: seq<Call>)
    requires Ready(d, def) && ClockRuns(calls)
    requires forall k :: 0 <= k < |calls| ==> !calls[k].lost && !calls[k].isCopa
    ensures var d' := After(d, AutoMode, def, calls);
            Ready(d', def) && d'.lastUpdate == LastDue(d.lastUpdate, calls)
            && 1.0 / Base(d', def) == 1.0 / Base(d, def) + DueCalls(d.lastUpdate, calls) as real
            && (calls != [] ==> Base(d', def) == d'.delta)
  {
    if calls != [] {
      var front, c := calls[..|calls| - 1], calls[|calls| - 1];
      LossFreeRun(d, def, front);
      var before := After(d, AutoMode, def, front);
      DeltaFollowsLaw(before, AutoMode, def, c);
      ModeSelects(before, AutoMode, def, c);
      hide UpdateDelta, Law, KindOf;
    }
  }
}
