/** Copa over ALCC: the sender registers packets in order, and the acknowledgement thread turns
    each cumulative ack into one acknowledgement per whole packet that the ack covers.  That no
    packet is acknowledged before it was sent follows from the sizes of the packets. */
module CopaFlows {
  import opened Bytes
  import opened AckReceiver
  import opened ExtremeWindows
  import opened RttWindows
  import opened PacketLedgers
  import opened CopaControllers
  import CopaDelta
  import CopaWindow

  /** Both threads.  seqNum is the next packet's number; pending is what is left of the
      acknowledgement loop; sentTimes never loses an entry; wire holds the packets sent, the
      first byte of which has the true position start; acked is the latest ack's position. */
  datatype Flow = Flow(
    control: Control, seqNum: nat, receiver: Receiver, pending: nat, largestAck: int,
    sentTimes: map<nat, real>, clock: real, wire: seq<seq<Byte>>, start: nat, acked: nat)

  /** The sender's guard on the window (the pacing guard only delays). */
  predicate MaySend(f: Flow) {
    f.seqNum as real < f.largestAck as real + 1.0 + f.control.velocity.window
  }

  /** The numbers above rcvSeq and below seqNum. */
  ghost function Outstanding(rcvSeq: nat, seqNum: nat): (s: set<nat>)
    ensures forall k :: k in s <==> rcvSeq < k < seqNum
    ensures |s| == if rcvSeq < seqNum then seqNum - 1 - rcvSeq else 0
  {
    if seqNum <= rcvSeq + 1 then {} else Outstanding(rcvSeq, seqNum - 1) + {seqNum - 1}
  }

  // ------------------------------------------------------------ what is kept

  /** Every packet has 1 to MTU bytes, and acks name bytes that were sent. */
  ghost predicate WireInv(f: Flow) {
    && f.seqNum == |f.wire| + 1
    && (forall k :: 0 <= k < |f.wire| ==> 1 <= |f.wire[k]| <= COPA_MTU)
    && 0 < f.start < TWO32 && f.start <= f.acked <= f.start + |Flatten(f.wire)|
  }

  /** The cursor stands for the packets counted so far, and with the pending ones they are the
      whole packets acknowledged. */
  ghost predicate CountInv(f: Flow)
    requires f.start <= f.acked
  {
    if f.receiver.tcpSeq == 0 then f.receiver.rcvSeq == f.pending == 0 && f.acked == f.start
    else ReadsAs(f.start + COPA_MTU * f.receiver.rcvSeq, f.receiver.tcpSeq)
         && f.receiver.rcvSeq + f.pending == (f.acked - f.start) / COPA_MTU
  }

  ghost predicate KeysInv(m: Unacked, rcvSeq: nat, seqNum: nat) {
    m.Keys == Outstanding(rcvSeq, seqNum)
  }

  /** The outstanding packets are exactly those sent and not yet acknowledged. */
  ghost predicate MapInv(f: Flow) {
    && KeysInv(f.control.unacked, f.receiver.rcvSeq, f.seqNum)
    && f.control.numAcked == f.receiver.rcvSeq && f.control.numSent == f.seqNum - 1
    && f.largestAck == (if f.receiver.rcvSeq == 0 then -1 else f.receiver.rcvSeq)
  }

  /** Every packet's sending time is known, and no time is ahead of the clock. */
  ghost predicate Stamped(f: Flow) {
    && f.clock >= 0.0
    && (forall k :: 0 < k < f.seqNum ==> k in f.sentTimes)
    && (forall k :: k in f.sentTimes ==> 0.0 <= f.sentTimes[k] <= f.clock)
    && NotBefore(f.clock, f.control.rtt.minRtt.history)
  }

  ghost predicate FlowInv(c: Config, f: Flow) {
    && c.variant.Alcc? && ControlInv(c, f.control)
    && WireInv(f) && CountInv(f) && MapInv(f) && Stamped(f)
  }

  // ------------------------------------------------------------ the steps

  datatype FlowEvent =
    | Send(now: real, packet: seq<Byte>)  // one turn of the sender's loop
    | Begin                               // the first outgoing packet is reported
    | Message(position: nat)              // one cumulative ack arrives
    | Next(now: real, reduce: bool)       // one turn of the acknowledgement loop

  function AckFor(f: Flow, now: real, reduce: bool): Ack
    requires f.receiver.rcvSeq + 1 in f.sentTimes
  {
    Ack(f.receiver.rcvSeq + 1, now, f.sentTimes[f.receiver.rcvSeq + 1], reduce)
  }

  /** When an event can happen.  The clock advances; packets are sent under the guard; acks come
      in stream order, name bytes already sent, and are in reach of the one before. */
  ghost predicate Allowed(c: Config, f: Flow, e: FlowEvent) {
    match e
    case Send(now, packet) => f.clock <= now <= c.lim.largest && MaySend(f) && 1 <= |packet| <= COPA_MTU
    case Begin => f.receiver.tcpSeq == 0
    case Message(p) =>
      && f.receiver.tcpSeq > 0 && f.pending == 0 && 0 < f.start <= f.acked <= p <= f.start + |Flatten(f.wire)|
      && p < Boundary(f.start, f.acked) + TWO32 && InReach(f.start, f.acked, p)
    case Next(now, reduce) => f.clock <= now <= c.lim.largest && f.pending > 0
  }

  ghost predicate FlowStep(c: Config, f: Flow, e: FlowEvent, f': Flow)
    requires ControlInv(c, f.control)
  {
    match e
    case Send(now, packet) =>
      f' == f.(control := SendStep(f.control, f.seqNum, Packet(now, f.control.rtt.unjitteredRtt.extreme)),
               seqNum := f.seqNum + 1, sentTimes := f.sentTimes[f.seqNum := now], clock := now,
               wire := f.wire + [packet])
    case Begin =>
      f' == f.(receiver := Receiver(f.receiver.rcvSeq, f.start % TWO32))
    case Message(p) =>
      f' == f.(pending := Consumed(f.receiver.tcpSeq, p % TWO32, COPA_MTU), acked := p)
    case Next(now, reduce) =>
      f.receiver.tcpSeq > 0 && f.pending > 0 && NextStep(c, f, now, reduce, f')
  }

  /** The counters move; a packet whose sending time is known is acknowledged. */
  ghost predicate NextStep(c: Config, f: Flow, now: real, reduce: bool, f': Flow)
    requires ControlInv(c, f.control) && f.receiver.tcpSeq > 0 && f.pending > 0
  {
    var n := f.receiver.rcvSeq + 1;
    && f' == f.(control := f'.control, largestAck := f'.largestAck, clock := now, pending := f.pending - 1,
                receiver := Receiver(n, Around(f.receiver.tcpSeq + COPA_MTU)))
    && if n in f.sentTimes then
         AckStep(c, f.control, AckFor(f, now, reduce), f'.control)
         && f'.largestAck == (if f.largestAck < n then n else f.largestAck)
       else f'.control == f.control && f'.largestAck == f.largestAck
  }

  // ------------------------------------------------------------ the receiver's arithmetic

  /** No more packets are counted, or about to be, than were sent. */
  lemma CountedWereSent(f: Flow)
    requires WireInv(f) && CountInv(f)
    ensures f.receiver.rcvSeq + f.pending < f.seqNum
  {
    FlattenBound(f.wire, COPA_MTU);
    if f.receiver.tcpSeq > 0 {
      WholePackets(f.acked - f.start, |f.wire|, COPA_MTU);
    }
  }

  lemma WholePackets(bytes: nat, packets: nat, mtu: nat)
    requires 0 < mtu && bytes <= mtu * packets
    ensures bytes / mtu <= packets
  {
    if bytes / mtu > packets {
      MultipleOrder(mtu, packets + 1, bytes / mtu);
    }
  }

  lemma MultipleOrder(m: nat, j: nat, k: nat)
    requires j <= k
    ensures m * j <= m * k
  {
  }

  /** An ack in reach sets the loop to go through exactly the whole packets it adds. */
  lemma MessageCounts(f: Flow, p: nat)
    requires 0 < f.start <= f.acked <= p && CountInv(f) && f.receiver.tcpSeq > 0 && f.pending == 0
    requires p < Boundary(f.start, f.acked) + TWO32 && InReach(f.start, f.acked, p)
    ensures CountInv(f.(pending := Consumed(f.receiver.tcpSeq, p % TWO32, COPA_MTU), acked := p))
  {
    AckFound(f.receiver, f.start, f.acked, p);
    hide Consumed;
  }

  /** An ack in reach is counted as the whole packets it adds. */
  lemma AckFound(r: Receiver, start: nat, acked: nat, p: nat)
    requires 0 < start && CopaTracks(r, start, acked) && acked <= p < Boundary(start, acked) + TWO32
    requires InReach(start, acked, p)
    ensures r.rcvSeq + Consumed(r.tcpSeq, p % TWO32, COPA_MTU) == (p - start) / COPA_MTU
  {
    CopaStepExact(r, start, acked, p);
    hide Consumed;
  }

  lemma BeginCounts(f: Flow)
    requires WireInv(f) && CountInv(f) && f.receiver.tcpSeq == 0
    ensures CountInv(f.(receiver := Receiver(f.receiver.rcvSeq, f.start % TWO32)))
  {
    hide Flatten;
    assert f.start % TWO32 == f.start;
  }

  lemma NextCounts(f: Flow, f': Flow)
    requires f.start <= f.acked && CountInv(f) && f.receiver.tcpSeq > 0 && f.pending > 0
    requires f'.receiver == Receiver(f.receiver.rcvSeq + 1, Around(f.receiver.tcpSeq + COPA_MTU))
    requires f'.pending == f.pending - 1 && f'.start == f.start && f'.acked == f.acked
    ensures CountInv(f')
  {
    AroundReads(f.start + COPA_MTU * f.receiver.rcvSeq, f.receiver.tcpSeq, COPA_MTU);
  }

  // ------------------------------------------------------------ one step at a time

  lemma Later(clock: real, now: real, h: seq<Sample>)
    requires NotBefore(clock, h) && clock <= now
    ensures NotBefore(now, h)
  {
  }

  lemma SendControl(c: Config, s: Control, n: nat, p: Packet)
    requires ControlInv(c, s)
    ensures ControlInv(c, SendStep(s, n, p))
  {
  }

  lemma SendStamps(f: Flow, now: real, f': Flow)
    requires Stamped(f) && f.clock <= now && f'.clock == now
    requires f'.sentTimes == f.sentTimes[f.seqNum := now] && f'.seqNum == f.seqNum + 1
    requires f'.control.rtt == f.control.rtt
    ensures Stamped(f')
  {
    Later(f.clock, now, f.control.rtt.minRtt.history);
  }

  lemma SendWire(f: Flow, packet: seq<Byte>)
    requires WireInv(f) && 1 <= |packet| <= COPA_MTU
    ensures WireInv(f.(seqNum := f.seqNum + 1, wire := f.wire + [packet]))
  {
    FlattenSnoc(f.wire, packet);
  }

  /** Sending adds the new number to the outstanding ones. */
  lemma SendKeys(m: Unacked, rcvSeq: nat, seqNum: nat, p: Packet)
    requires KeysInv(m, rcvSeq, seqNum) && rcvSeq < seqNum
    ensures KeysInv(m[seqNum := p], rcvSeq, seqNum + 1)
  {
    AddedKey(m, seqNum, p);
    assert Outstanding(rcvSeq, seqNum + 1) == Outstanding(rcvSeq, seqNum) + {seqNum};
    hide Outstanding;
  }

  lemma AddedKey(m: Unacked, k: nat, p: Packet)
    ensures m[k := p].Keys == m.Keys + {k}
  {
  }

  lemma SendKeeps(c: Config, f: Flow, e: FlowEvent, f': Flow)
    requires FlowInv(c, f) && e.Send? && Allowed(c, f, e) && FlowStep(c, f, e, f')
    ensures FlowInv(c, f')
  {
    var p := Packet(e.now, f.control.rtt.unjitteredRtt.extreme);
    CountedWereSent(f);
    SendControl(c, f.control, f.seqNum, p);
    SendStamps(f, e.now, f');
    SendWire(f, e.packet);
    hide ControlInv, Stamped, WireInv, KeysInv;
    SendKeys(f.control.unacked, f.receiver.rcvSeq, f.seqNum, p);
    SameWire(f.(seqNum := f.seqNum + 1, wire := f.wire + [e.packet]), f');
    SameCount(f, f');
  }

  lemma SameWire(f: Flow, f': Flow)
    requires WireInv(f) && f'.seqNum == f.seqNum && f'.wire == f.wire && f'.start == f.start && f'.acked == f.acked
    ensures WireInv(f')
  {
  }

  lemma SameMap(f: Flow, f': Flow)
    requires MapInv(f) && f'.control == f.control && f'.seqNum == f.seqNum
    requires f'.receiver.rcvSeq == f.receiver.rcvSeq && f'.largestAck == f.largestAck
    ensures MapInv(f')
  {
  }

  lemma SameCount(f: Flow, f': Flow)
    requires f.start <= f.acked && CountInv(f)
    requires f'.receiver == f.receiver && f'.pending == f.pending && f'.start == f.start && f'.acked == f.acked
    ensures CountInv(f')
  {
  }

  lemma SameStamps(f: Flow, f': Flow)
    requires Stamped(f) && f'.control == f.control && f'.seqNum == f.seqNum
    requires f'.sentTimes == f.sentTimes && f'.clock == f.clock
    ensures Stamped(f')
  {
  }

  /** Each send leaves fewer than window + 1 packets outstanding. */
  lemma SendBounded(c: Config, f: Flow, e: FlowEvent, f': Flow)
    requires FlowInv(c, f) && e.Send? && Allowed(c, f, e) && FlowStep(c, f, e, f')
    ensures |f'.control.unacked| as real < f'.control.velocity.window + 1.0
  {
    SendKeeps(c, f, e, f');
    CountedWereSent(f);
    hide ControlInv, Stamped, WireInv, CountInv;
    assert |f'.control.unacked| == |f'.control.unacked.Keys|;
  }

  /** A message, or the first outgoing packet, moves only the receiver. */
  lemma MessageKeeps(c: Config, f: Flow, p: nat)
    requires FlowInv(c, f) && Allowed(c, f, Message(p))
    ensures FlowInv(c, f.(pending := Consumed(f.receiver.tcpSeq, p % TWO32, COPA_MTU), acked := p))
  {
    var f' := f.(pending := Consumed(f.receiver.tcpSeq, p % TWO32, COPA_MTU), acked := p);
    MessageCounts(f, p);
    assert WireInv(f') by {
      hide ControlInv, Stamped, CountInv, MapInv;
    }
    hide ControlInv, Stamped, WireInv, CountInv, MapInv, Consumed;
    SameMap(f, f');
    SameStamps(f, f');
  }

  lemma BeginKeeps(c: Config, f: Flow)
    requires FlowInv(c, f) && Allowed(c, f, Begin)
    ensures FlowInv(c, f.(receiver := Receiver(f.receiver.rcvSeq, f.start % TWO32)))
  {
    var f' := f.(receiver := Receiver(f.receiver.rcvSeq, f.start % TWO32));
    BeginCounts(f);
    SameWire(f, f');
    hide ControlInv, Stamped, WireInv, CountInv, MapInv;
    SameMap(f, f');
    SameStamps(f, f');
  }

  /** What the controller's step needs to be defined. */
  lemma ControlReady(c: Config, s: Control)
    requires ControlInv(c, s)
    ensures DeltaInv(c, s.delta) && s.velocity.window >= 2.0
  {
  }

  lemma StepWalks(c: Config, s: Control, a: Ack, s': Control)
    requires DeltaInv(c, s.delta) && s.velocity.window >= 2.0 && AckStep(c, s, a, s')
    ensures s'.unacked == Acknowledged(c.variant, s.unacked, a.seqNum).left
    ensures s'.numAcked == s.numAcked + 1 && s'.numSent == s.numSent
  {
    hide Walk;
  }

  lemma OldestFirst(m: Unacked, rcvSeq: nat, seqNum: nat)
    requires KeysInv(m, rcvSeq, seqNum) && rcvSeq + 1 < seqNum
    ensures Least(m.Keys, rcvSeq + 1)
    ensures Acknowledged(Alcc, m, rcvSeq + 1).left == Without(m, rcvSeq + 1)
    ensures KeysInv(Without(m, rcvSeq + 1), rcvSeq + 1, seqNum)
  {
    assert rcvSeq + 1 in m.Keys;
    AlccExact(m, rcvSeq + 1);
    WithoutKey(m, rcvSeq + 1);
    assert Without(m, rcvSeq + 1).Keys == Outstanding(rcvSeq + 1, seqNum);
  }

  /** The clock allows every acknowledgement of the run. */
  lemma TimelyAck(c: Config, f: Flow, now: real, reduce: bool)
    requires Stamped(f) && f.clock <= now <= c.lim.largest && f.receiver.rcvSeq + 1 in f.sentTimes
    ensures Timely(c, f.control, AckFor(f, now, reduce))
  {
  }

  lemma NextStamps(f: Flow, now: real, f': Flow)
    requires Stamped(f) && f.clock <= now && f.receiver.rcvSeq + 1 in f.sentTimes
    requires f'.clock == now && f'.seqNum == f.seqNum && f'.sentTimes == f.sentTimes
    requires f'.control.rtt.minRtt.history
             == f.control.rtt.minRtt.history + [Sample(now, now - f.sentTimes[f.receiver.rcvSeq + 1])]
    ensures Stamped(f')
  {
  }

  /** The packet that a turn of the loop names was sent, and its sending time is known. */
  lemma NextKnown(f: Flow)
    requires WireInv(f) && CountInv(f) && Stamped(f) && f.pending > 0
    ensures f.receiver.rcvSeq + 1 < f.seqNum && f.receiver.rcvSeq + 1 in f.sentTimes
  {
    CountedWereSent(f);
  }

  /** What a turn of the loop does to a state with the invariant. */
  lemma NextFields(c: Config, f: Flow, e: FlowEvent, f': Flow)
    requires FlowInv(c, f) && e.Next? && Allowed(c, f, e) && FlowStep(c, f, e, f')
    ensures f.receiver.tcpSeq > 0 && f.pending > 0 && f.clock <= e.now <= c.lim.largest
    ensures f.receiver.rcvSeq + 1 < f.seqNum && f.receiver.rcvSeq + 1 in f.sentTimes
    ensures DeltaInv(c, f.control.delta) && f.control.velocity.window >= 2.0
    ensures AckStep(c, f.control, AckFor(f, e.now, e.reduce), f'.control)
    ensures f' == f.(control := f'.control, largestAck := f'.largestAck, clock := e.now, pending := f.pending - 1,
                     receiver := Receiver(f.receiver.rcvSeq + 1, Around(f.receiver.tcpSeq + COPA_MTU)))
    ensures f'.largestAck == if f.largestAck < f.receiver.rcvSeq + 1 then f.receiver.rcvSeq + 1 else f.largestAck
    ensures c.variant.Alcc? && ControlInv(c, f.control) && Stamped(f)
    ensures KeysInv(f.control.unacked, f.receiver.rcvSeq, f.seqNum)
  {
    NextKnown(f);
    ControlReady(c, f.control);
    hide ControlInv, DeltaInv, WireInv, CountInv, Stamped, KeysInv, AckStep, Around;
  }

  /** The packet each turn of the loop names was sent, it is the oldest outstanding one, and
      exactly it is removed. */
  lemma NamesLeast(c: Config, f: Flow, e: FlowEvent, f': Flow)
    requires FlowInv(c, f) && e.Next? && Allowed(c, f, e) && FlowStep(c, f, e, f')
    ensures f'.receiver.rcvSeq < f.seqNum && f'.receiver.rcvSeq in f.sentTimes
    ensures Least(f.control.unacked.Keys, f'.receiver.rcvSeq)
    ensures f'.control.unacked == Without(f.control.unacked, f'.receiver.rcvSeq)
    ensures KeysInv(f'.control.unacked, f'.receiver.rcvSeq, f'.seqNum)
  {
    hide *;
    NextFields(c, f, e, f');
    assert AckFor(f, e.now, e.reduce).seqNum == f.receiver.rcvSeq + 1 by {
      AckFields(f, e.now, e.reduce);
    }
    StepWalks(c, f.control, AckFor(f, e.now, e.reduce), f'.control);
    OldestFirst(f.control.unacked, f.receiver.rcvSeq, f.seqNum);
  }

  lemma NextControl(c: Config, f: Flow, e: FlowEvent, f': Flow)
    requires FlowInv(c, f) && e.Next? && Allowed(c, f, e) && FlowStep(c, f, e, f')
    ensures ControlInv(c, f'.control) && Stamped(f')
    ensures f'.control.numAcked == f.control.numAcked + 1 && f'.control.numSent == f.control.numSent
  {
    hide *;
    NextFields(c, f, e, f');
    var a := AckFor(f, e.now, e.reduce);
    AckFields(f, e.now, e.reduce);
    StepWalks(c, f.control, a, f'.control);
    TimelyAck(c, f, e.now, e.reduce);
    AckKeeps(c, f.control, a, f'.control);
    NextStamps(f, e.now, f');
  }

  lemma AckFields(f: Flow, now: real, reduce: bool)
    requires f.receiver.rcvSeq + 1 in f.sentTimes
    ensures var a := AckFor(f, now, reduce);
            a.seqNum == f.receiver.rcvSeq + 1 && a.now == now && a.sentTime == f.sentTimes[f.receiver.rcvSeq + 1]
  {
  }

  lemma NextKeeps(c: Config, f: Flow, e: FlowEvent, f': Flow)
    requires FlowInv(c, f) && e.Next? && Allowed(c, f, e) && FlowStep(c, f, e, f')
    ensures FlowInv(c, f')
  {
    NextFields(c, f, e, f');
    NamesLeast(c, f, e, f');
    NextControl(c, f, e, f');
    hide ControlInv, DeltaInv, Stamped, AckStep, Without, Least, KeysInv, Allowed, FlowStep;
    NextCounts(f, f');
    SameWire(f, f');
    hide WireInv, CountInv, Around;
  }

  lemma StepKeeps(c: Config, f: Flow, e: FlowEvent, f': Flow)
    requires FlowInv(c, f) && Allowed(c, f, e) && FlowStep(c, f, e, f')
    ensures FlowInv(c, f')
  {
    hide FlowInv, Allowed;
    match e
    case Send(_, _) => SendKeeps(c, f, e, f');
    case Next(_, _) => NextKeeps(c, f, e, f');
    case Message(p) => MessageKeeps(c, f, p);
    case Begin => BeginKeeps(c, f);
  }

  // ------------------------------------------------------------ whole runs

  ghost predicate FlowStarts(c: Config, f: Flow) {
    && c.variant.Alcc? && ControlInv(c, f.control) && f.control.unacked == map[]
    && f.control.numAcked == f.control.numSent == 0 && f.control.rtt.minRtt.history == []
    && f.seqNum == 1 && f.receiver == Receiver(0, 0) && f.pending == 0 && f.largestAck == -1
    && f.sentTimes == map[] && f.clock >= 0.0
    && f.wire == [] && 0 < f.start == f.acked < TWO32
  }

  lemma FlowStartsInv(c: Config, f: Flow)
    requires FlowStarts(c, f)
    ensures FlowInv(c, f)
  {
    hide ControlInv;
    assert f.control.unacked.Keys == Outstanding(0, 1);
  }

  /** A run of the two threads and the peer.  The steps are only defined on states with the
      controller's invariant, which is shown of every state in turn. */
  ghost predicate IsFlowRun(c: Config, states: seq<Flow>, events: seq<FlowEvent>) {
    && |states| == |events| + 1
    && FlowStarts(c, states[0])
    && forall k :: 0 <= k < |events| ==>
         (ControlInv(c, states[k].control) ==>
            Allowed(c, states[k], events[k]) && FlowStep(c, states[k], events[k], states[k + 1]))
  }

  /** In every reachable state: every packet counted was sent, the map's keys are exactly
      rcvSeq+1 .. seqNum-1, and no packet was counted as lost. */
  lemma {:induction false} FlowRunSafe(c: Config, states: seq<Flow>, events: seq<FlowEvent>, k: nat)
    requires IsFlowRun(c, states, events) && k <= |events|
    ensures FlowInv(c, states[k])
    ensures states[k].receiver.rcvSeq + states[k].pending < states[k].seqNum
    ensures states[k].control.numLost == 0
    ensures states[k].control.unacked.Keys == Outstanding(states[k].receiver.rcvSeq, states[k].seqNum)
  {
    if k == 0 {
      FlowStartsInv(c, states[0]);
    } else {
      FlowRunSafe(c, states, events, k - 1);
      assert ControlInv(c, states[k - 1].control) by {
        hide ControlInv;
      }
      StepKeeps(c, states[k - 1], events[k - 1], states[k]);
    }
    hide IsFlowRun;
    FlowFacts(c, states[k]);
  }

  /** Event i sent packet n at time t. */
  ghost predicate SentAt(states: seq<Flow>, events: seq<FlowEvent>, i: int, n: nat, t: real)
    requires |states| == |events| + 1
  {
    0 <= i < |events| && states[i].seqNum == n && events[i].Send? && events[i].now == t
  }

  ghost predicate SentBefore(states: seq<Flow>, events: seq<FlowEvent>, k: nat, n: nat, t: real)
    requires |states| == |events| + 1
  {
    exists i :: i < k && SentAt(states, events, i, n, t)
  }

  /** On every run the recorded sending time of a packet is the time of the event that sent it. */
  lemma {:induction false} TimesOfSends(c: Config, states: seq<Flow>, events: seq<FlowEvent>, k: nat)
    requires IsFlowRun(c, states, events) && k <= |events|
    ensures forall n :: n in states[k].sentTimes ==> SentBefore(states, events, k, n, states[k].sentTimes[n])
  {
    if k > 0 {
      var f, e := states[k - 1], events[k - 1];
      TimesOfSends(c, states, events, k - 1);
      FlowRunSafe(c, states, events, k - 1);
      StepTimes(c, f, e, states[k]);
      hide IsFlowRun, FlowInv;
      if e.Send? {
        assert SentAt(states, events, k - 1, f.seqNum, e.now);
      }
      forall n | n in states[k].sentTimes ensures SentBefore(states, events, k, n, states[k].sentTimes[n]) {
        if !(e.Send? && n == f.seqNum) {
          assert SentBefore(states, events, k - 1, n, f.sentTimes[n]);
        }
      }
    }
  }

  lemma StepTimes(c: Config, f: Flow, e: FlowEvent, f': Flow)
    requires ControlInv(c, f.control)
    requires FlowStep(c, f, e, f')
    ensures f'.sentTimes == if e.Send? then f.sentTimes[f.seqNum := e.now] else f.sentTimes
  {
    hide ControlInv, AckStep;
  }

  /** Each turn of the acknowledgement loop measures the time since the send of the packet it
      counts: that is the sample the controller takes. */
  lemma MeasuresRoundTrip(c: Config, states: seq<Flow>, events: seq<FlowEvent>, k: nat) returns (i: nat)
    requires IsFlowRun(c, states, events) && k < |events| && events[k].Next?
    ensures i < k && events[i].Send? && states[i].seqNum == states[k + 1].receiver.rcvSeq
    ensures states[k + 1].control.rtt.minRtt.history
            == states[k].control.rtt.minRtt.history + [Sample(events[k].now, events[k].now - events[i].now)]
  {
    hide *;
    RunLength(c, states, events);
    var f, n := states[k], states[k + 1].receiver.rcvSeq;
    FlowRunSafe(c, states, events, k);
    RunSteps(c, states, events, k);
    SampleTaken(c, f, events[k], states[k + 1]);
    TimesOfSends(c, states, events, k);
    i := Sender(states, events, k, n, f.sentTimes[n]);
  }

  lemma RunLength(c: Config, states: seq<Flow>, events: seq<FlowEvent>)
    requires IsFlowRun(c, states, events)
    ensures |states| == |events| + 1
  {
  }

  lemma RunSteps(c: Config, states: seq<Flow>, events: seq<FlowEvent>, k: nat)
    requires IsFlowRun(c, states, events) && k < |events| && FlowInv(c, states[k])
    ensures Allowed(c, states[k], events[k]) && FlowStep(c, states[k], events[k], states[k + 1])
  {
    hide ControlInv, WireInv, CountInv, MapInv, Stamped, Allowed, FlowStep;
  }

  lemma SampleTaken(c: Config, f: Flow, e: FlowEvent, f': Flow)
    requires FlowInv(c, f) && e.Next? && Allowed(c, f, e) && FlowStep(c, f, e, f')
    ensures f'.receiver.rcvSeq == f.receiver.rcvSeq + 1 && f'.receiver.rcvSeq in f.sentTimes
    ensures f'.control.rtt.minRtt.history
            == f.control.rtt.minRtt.history + [Sample(e.now, e.now - f.sentTimes[f'.receiver.rcvSeq])]
  {
    hide *;
    NextFields(c, f, e, f');
    var a := AckFor(f, e.now, e.reduce);
    AckFields(f, e.now, e.reduce);
    TimelyAck(c, f, e.now, e.reduce);
    AckKeeps(c, f.control, a, f'.control);
  }

  lemma Sender(states: seq<Flow>, events: seq<FlowEvent>, k: nat, n: nat, t: real) returns (i: nat)
    requires |states| == |events| + 1 && SentBefore(states, events, k, n, t)
    ensures i < k && i < |events| && states[i].seqNum == n && events[i].Send? && events[i].now == t
  {
    i :| i < k && SentAt(states, events, i, n, t);
  }

  lemma FlowFacts(c: Config, f: Flow)
    requires FlowInv(c, f)
    ensures f.receiver.rcvSeq + f.pending < f.seqNum && f.control.numLost == 0
    ensures f.control.unacked.Keys == Outstanding(f.receiver.rcvSeq, f.seqNum)
    ensures f.control.velocity.window >= 2.0
    ensures f.receiver.tcpSeq > 0 && f.pending == 0 ==>
      f.start <= f.acked && f.receiver.rcvSeq == (f.acked - f.start) / COPA_MTU
  {
    CountedWereSent(f);
    hide Stamped;
  }

  /** The window guard never blocks a sender with nothing outstanding, and it holds exactly
      when fewer than window packets are outstanding, or before the first acknowledgement
      fewer than window - 1. */
  lemma GuardMeaning(c: Config, f: Flow)
    requires FlowInv(c, f)
    ensures MaySend(f) <==>
      |f.control.unacked| as real < f.control.velocity.window - if f.receiver.rcvSeq == 0 then 1.0 else 0.0
    ensures f.control.unacked == map[] ==> MaySend(f)
  {
    FlowFacts(c, f);
    hide ControlInv, Stamped, WireInv, CountInv;
    assert |f.control.unacked| == |f.control.unacked.Keys|;
  }

  // ------------------------------------------------------------ the socket

  /** What one turn of the acknowledgement loop reads: the clock, and the loss estimator. */
  datatype Reading = Reading(now: real, reduce: bool)

  class CopaSocket {
    const controller: CopaController
    const receiver: CopaReceiver
    var seqNum: nat
    var largestAck: int
    var sentTimes: map<nat, real>
    /** Turns of the acknowledgement loop still to come. */
    ghost var pending: nat
    ghost var clock: real
    ghost var wire: seq<seq<Byte>>
    ghost const start: nat
    ghost var acked: nat

    ghost function View(): Flow
      reads this, receiver, controller, controller.rttWindow, controller.rttWindow.Trackers
    {
      Flow(controller.View(), seqNum, receiver.View(), pending, largestAck, sentTimes, clock, wire, start, acked)
    }

    ghost predicate Valid()
      reads this, receiver, controller, controller.rttWindow, controller.rttWindow.Trackers
    {
      controller.Valid() && FlowInv(controller.config, View())
    }

    constructor (config: Config, ghost start: nat)
      requires config.defaultDelta > 0.0 && config.variant.Alcc? && 0 < start < TWO32
      ensures Valid() && FlowStarts(config, View()) && controller.config == config && this.start == start
      ensures fresh(receiver) && fresh(controller) && fresh(controller.rttWindow) && fresh(controller.rttWindow.Trackers)
    {
      controller := new CopaController(config);
      receiver := new CopaReceiver();
      seqNum, largestAck, sentTimes, pending := 1, -1, map[], 0;
      clock, wire, acked := 0.0, [], start;
      this.start := start;
      new;
      FlowStartsInv(config, View());
    }

    /** One turn of the sender's loop with a packet at hand. */
    method SendPacket(packet: seq<Byte>, now: real) returns (sent: bool)
      requires Valid() && 1 <= |packet| <= COPA_MTU && clock <= now <= controller.config.lim.largest
      modifies this, controller
      ensures Valid() && sent == MaySend(old(View()))
      ensures sent ==> FlowStep(controller.config, old(View()), Send(now, packet), View())
      ensures sent ==> |controller.unacked| as real < controller.theWindow + 1.0
      ensures !sent ==> View() == old(View())
    {
      ghost var f := View();
      hide FlowInv, FlowStep, Allowed, ControlInv;
      sent := WindowOpen();
      if sent {
        MayRegister(controller.config, f, now, packet);
        RegisterPacket(packet, now);
        StepIsSend(controller.config, f, now, packet, View());
        SendKeeps(controller.config, f, Send(now, packet), View());
        SendBounded(controller.config, f, Send(now, packet), View());
      }
    }

    method WindowOpen() returns (open: bool)
      ensures open == MaySend(View())
    {
      open := (seqNum as real) < largestAck as real + 1.0 + controller.theWindow;
    }

    method RegisterPacket(packet: seq<Byte>, now: real)
      requires controller.Valid()
      modifies this`seqNum, this`sentTimes, this`clock, this`wire, controller
      ensures controller.Valid()
      ensures View() == Registered(old(View()), now, packet)
    {
      hide ControlInv;
      sentTimes := sentTimes[seqNum := now];
      wire := wire + [packet];
      controller.OnPktSent(seqNum, now);
      seqNum, clock := seqNum + 1, now;
    }

    /** A message of the kernel module; position is the true position behind ackSeq.  A cumulative
        ack is expanded into one acknowledgement per packet it adds, in order. */
    method OnMessage(srcPort: nat, seqField: SeqField, ackSeq: SeqField, ghost position: nat, readings: seq<Reading>)
      requires Valid() && pending == 0
      requires srcPort == DATA_PORT && receiver.tcpSeq == 0 ==> seqField == start
      requires srcPort != DATA_PORT ==>
        ackSeq == position % TWO32 && Allowed(controller.config, View(), Message(position))
      requires |readings| == if srcPort == DATA_PORT then 0 else Consumed(receiver.tcpSeq, ackSeq, COPA_MTU)
      requires forall i :: 0 <= i < |readings| ==> readings[i].now <= controller.config.lim.largest
      requires readings != [] ==> clock <= readings[0].now
      requires forall i :: 0 < i < |readings| ==> readings[i - 1].now <= readings[i].now
      modifies this, receiver, controller, controller.rttWindow, controller.rttWindow.Trackers
      ensures Valid() && pending == 0 && seqNum == old(seqNum)
      ensures srcPort != DATA_PORT ==> receiver.rcvSeq == (position - start) / COPA_MTU < seqNum
      ensures receiver.rcvSeq == old(receiver.rcvSeq) + |readings|
      ensures controller.unacked.Keys == Outstanding(receiver.rcvSeq, seqNum) && controller.numPktsLost == 0
    {
      hide FlowInv, ControlInv, Allowed, FlowStep, Consumed, Outstanding;
      var numAcks := Listen(srcPort, seqField, ackSeq, position);
      ghost var last := clock;
      for i := 0 to numAcks
        invariant Valid() && pending == numAcks - i && seqNum == old(seqNum)
        invariant receiver.rcvSeq == old(receiver.rcvSeq) + i
        invariant clock == if i == 0 then last else readings[i - 1].now
        invariant srcPort != DATA_PORT ==> acked == position && receiver.tcpSeq > 0
      {
        assert clock <= readings[i].now <= controller.config.lim.largest;
        AckPacket(readings[i]);
      }
      FlowFacts(controller.config, View());
    }

    /** The head of a message: the cursor is set, or the loop's length computed. */
    method Listen(srcPort: nat, seqField: SeqField, ackSeq: SeqField, ghost position: nat) returns (numAcks: nat)
      requires Valid() && pending == 0
      requires srcPort == DATA_PORT && receiver.tcpSeq == 0 ==> seqField == start
      requires srcPort != DATA_PORT ==>
        ackSeq == position % TWO32 && Allowed(controller.config, View(), Message(position))
      modifies this`pending, this`acked, receiver
      ensures Valid() && pending == numAcks && receiver.rcvSeq == old(receiver.rcvSeq)
      ensures numAcks == if srcPort == DATA_PORT then 0 else Consumed(old(receiver.tcpSeq), ackSeq, COPA_MTU)
      ensures srcPort != DATA_PORT ==> acked == position && receiver.tcpSeq == old(receiver.tcpSeq) > 0
    {
      ghost var f := View();
      hide ControlInv, WireInv, CountInv, MapInv, Stamped, Consumed;
      numAcks := receiver.Hear(srcPort, seqField, ackSeq);
      pending := numAcks;
      if srcPort != DATA_PORT {
        acked := position;
        MessageKeeps(controller.config, f, position);
      } else if f.receiver.tcpSeq == 0 {
        assert start % TWO32 == start by {
          StartFits(f);
        }
        BeginKeeps(controller.config, f);
      }
    }

    /** One turn of the acknowledgement loop. */
    method AckPacket(r: Reading)
      requires Valid() && pending > 0 && clock <= r.now <= controller.config.lim.largest
      modifies this, receiver, controller, controller.rttWindow, controller.rttWindow.Trackers
      ensures Valid() && FlowStep(controller.config, old(View()), Next(r.now, r.reduce), View())
      ensures seqNum == old(seqNum) && pending == old(pending) - 1 && clock == r.now && acked == old(acked)
      ensures receiver.rcvSeq == old(receiver.rcvSeq) + 1 && receiver.tcpSeq > 0
    {
      ghost var f := View();
      TurnReady(controller.config, f, r.now, r.reduce);
      hide FlowInv, ControlInv, FlowStep, Allowed, Timely;
      Consume(r);
      TurnIsNext(controller.config, f, r.now, r.reduce, View());
      NextKeeps(controller.config, f, Next(r.now, r.reduce), View());
    }

    method Consume(r: Reading)
      requires controller.Valid() && controller.config.variant.Alcc? && receiver.tcpSeq > 0 && pending > 0
      requires receiver.rcvSeq + 1 in sentTimes
      requires Timely(controller.config, controller.View(), AckFor(View(), r.now, r.reduce))
      modifies this, receiver, controller, controller.rttWindow, controller.rttWindow.Trackers
      ensures controller.Valid()
      ensures AckStep(controller.config, old(controller.View()), old(AckFor(View(), r.now, r.reduce)), controller.View())
      ensures receiver.View() == Receiver(old(receiver.rcvSeq) + 1, Around(old(receiver.tcpSeq) + COPA_MTU))
      ensures seqNum == old(seqNum) && sentTimes == old(sentTimes) && wire == old(wire) && acked == old(acked)
      ensures clock == r.now && pending == old(pending) - 1
      ensures largestAck == if old(largestAck) < receiver.rcvSeq then receiver.rcvSeq else old(largestAck)
    {
      hide ControlInv, AckStep, Timely;
      receiver.Advance();
      var n := receiver.rcvSeq;
      if n in sentTimes {
        var ok := controller.OnAck(Ack(n, r.now, sentTimes[n], r.reduce));
        assert ok;
        if largestAck < n {
          largestAck := n;
        }
      }
      clock, pending := r.now, pending - 1;
    }
  }

  ghost function Registered(f: Flow, now: real, packet: seq<Byte>): Flow {
    f.(control := SendStep(f.control, f.seqNum, Packet(now, f.control.rtt.unjitteredRtt.extreme)),
       seqNum := f.seqNum + 1, sentTimes := f.sentTimes[f.seqNum := now], clock := now, wire := f.wire + [packet])
  }

  lemma MayRegister(c: Config, f: Flow, now: real, packet: seq<Byte>)
    requires FlowInv(c, f) && MaySend(f) && f.clock <= now <= c.lim.largest && 1 <= |packet| <= COPA_MTU
    ensures Allowed(c, f, Send(now, packet)) && ControlInv(c, f.control)
  {
    hide ControlInv;
  }

  lemma StepIsSend(c: Config, f: Flow, now: real, packet: seq<Byte>, f': Flow)
    requires ControlInv(c, f.control) && f' == Registered(f, now, packet)
    ensures FlowStep(c, f, Send(now, packet), f')
  {
    hide ControlInv;
  }

  lemma StartFits(f: Flow)
    requires WireInv(f)
    ensures f.start % TWO32 == f.start
  {
  }

  /** What a turn of the loop relies on. */
  lemma TurnReady(c: Config, f: Flow, now: real, reduce: bool)
    requires FlowInv(c, f) && f.pending > 0 && f.clock <= now <= c.lim.largest
    ensures f.receiver.tcpSeq > 0 && f.receiver.rcvSeq + 1 in f.sentTimes && c.variant.Alcc?
    ensures Timely(c, f.control, AckFor(f, now, reduce)) && ControlInv(c, f.control)
    ensures DeltaInv(c, f.control.delta) && f.control.velocity.window >= 2.0
    ensures Allowed(c, f, Next(now, reduce))
  {
    NextKnown(f);
    ControlReady(c, f.control);
    TimelyAck(c, f, now, reduce);
  }

  lemma TurnIsNext(c: Config, f: Flow, now: real, reduce: bool, f': Flow)
    requires ControlInv(c, f.control) && DeltaInv(c, f.control.delta) && f.control.velocity.window >= 2.0
    requires f.receiver.tcpSeq > 0 && f.pending > 0 && f.receiver.rcvSeq + 1 in f.sentTimes
    requires AckStep(c, f.control, AckFor(f, now, reduce), f'.control)
    requires f' == f.(control := f'.control, largestAck := f'.largestAck, clock := now, pending := f.pending - 1,
                      receiver := Receiver(f.receiver.rcvSeq + 1, Around(f.receiver.tcpSeq + COPA_MTU)))
    requires f'.largestAck == if f.largestAck < f.receiver.rcvSeq + 1 then f.receiver.rcvSeq + 1 else f.largestAck
    ensures FlowStep(c, f, Next(now, reduce), f')
  {
    hide ControlInv, AckStep;
  }
}
