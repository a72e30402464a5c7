/** The base library's send / ack / tick protocol: three threads that share a ring, the
    send credit tempS and the counters of sent and acknowledged packets.  The sender hands a
    packet over, writes the two counters and registers the packet in four separate steps, and
    the other threads may run between any two of them.  True stream positions are kept beside
    the 32-bit ones. */
module AlccProtocol {
  import opened Bytes
  import opened AckReceiver
  import opened CircularQueues

  const CWND: nat := 20

  /** Where the sender stands in its loop body. */
  datatype Place = Idle | Sent | Debited | Counted

  /** The socket, the sender's place, and two histories: the bytes that alcc_send accepted and
      the packets handed to the kernel. */
  datatype State = State(
    queue: seq<Byte>,
    batch: nat,             // packets the sender's for loop may still take, this one included
    inHand: seq<Byte>,      // bytes removed from the ring and not yet sent
    place: Place,
    sentSeq: nat,
    begun: bool,            // whether the first outgoing packet was reported
    start: nat,             // true position of the first byte, 0 before it is known
    heard: Heard,
    rcvSeqLast: nat,
    tempS: int,
    pktsInFlight: int,
    registered: set<nat>,   // keys of seqNumbersList
    accepted: seq<Byte>,
    wire: seq<seq<Byte>>)

  datatype Event =
    | Offer(item: seq<Byte>, n: nat)  // the producer's copy of n bytes into the ring
    | StartBatch                      // sPkts = tempS
    | Take                            // remove one chunk, or leave the loop on an empty ring
    | Send                            // hand the chunk to the kernel
    | Debit                           // tempS -= 1
    | Count                           // pktsInFlight += 1
    | Register                        // seqNumbersList[sentSeq] = ...
    | Seen(position: nat)             // the kernel module reports an outgoing packet
    | Ack(position: nat)              // the kernel module reports a cumulative ack
    | Tick                            // one controller epoch

  /** What the tick's unsigned 64-bit subtraction yields. */
  function Credit(pktsInFlight: int, tempS: int): nat {
    (CWND - pktsInFlight - tempS) % TWO64
  }

  /** The intended credit: what is missing from the window, or nothing. */
  function IntendedCredit(pktsInFlight: int, tempS: int): nat {
    Max(0, CWND - pktsInFlight - tempS)
  }

  ghost function Initial(): State {
    State([], 0, [], Idle, 0, false, 0, FirstHeard(0), 0, 1, 0, {}, [], [])
  }

  /** The true position past the last byte sent. */
  ghost function End(s: State): nat {
    s.start + |Flatten(s.wire)|
  }

  /** What each thread and the peer may do next.  Acks name bytes already sent. */
  ghost predicate Enabled(s: State, e: Event, max: nat) {
    match e
    case Offer(item, n) => |s.queue| < max && n <= |item| < max && n <= RoomFor(|s.queue|, max)
    case StartBatch => s.place.Idle? && s.batch == 0 && s.tempS > 0
    case Take => s.place.Idle? && s.batch > 0 && s.inHand == []
    case Send => s.place.Idle? && s.inHand != []
    case Debit => s.place.Sent?
    case Count => s.place.Debited?
    case Register => s.place.Counted?
    case Seen(p) => if s.begun then Plausible(s.heard, Data(p)) && (s.heard.r.tcpSeq == 0 ==> p <= End(s)) else p < TWO32
    case Ack(p) => s.begun && Plausible(s.heard, AckOf(p)) && p <= End(s)
    case Tick => s.begun
  }

  /** The bookkeeping after an accepted ack: it settles if its packet is registered. */
  ghost function Settle(s: State): State {
    var received := s.heard.r.rcvSeq;
    if received in s.registered then
      s.(pktsInFlight := s.pktsInFlight - (received - s.rcvSeqLast),
         rcvSeqLast := if received >= s.rcvSeqLast + 1 then received else s.rcvSeqLast,
         registered := s.registered - {received})
    else s
  }

  ghost function Apply(s: State, e: Event): State {
    match e
    case Offer(item, n) =>
      var piece := if n <= |item| then item[..n] else item;
      s.(queue := s.queue + piece, accepted := s.accepted + piece)
    case StartBatch => s.(batch := if s.tempS >= 0 then s.tempS else 0)
    case Take =>
      var size := Min(BASE_MTU, |s.queue|);
      if size == 0 then s.(batch := 0)
      else s.(inHand := s.queue[..size], queue := s.queue[size..])
    case Send => s.(place := Sent, sentSeq := s.sentSeq + 1, wire := s.wire + [s.inHand], inHand := [])
    case Debit => s.(place := Debited, tempS := s.tempS - 1)
    case Count => s.(place := Counted, pktsInFlight := s.pktsInFlight + 1)
    case Register =>
      s.(place := Idle, registered := s.registered + {s.sentSeq}, batch := if s.batch > 0 then s.batch - 1 else 0)
    case Seen(p) =>
      if s.begun then s.(heard := HeardStep(s.heard, Data(p)))
      else s.(begun := true, start := p, heard := FirstHeard(p))
    case Ack(p) =>
      var t := s.(heard := HeardStep(s.heard, AckOf(p)));
      if Accepted(s.heard.r.tcpSeq, p % TWO32) then Settle(t) else t
    case Tick => s.(tempS := s.tempS + IntendedCredit(s.pktsInFlight, s.tempS))
  }

  /** No byte is lost, duplicated or reordered, and every packet has 1 to MTU bytes. */
  ghost predicate StreamInv(s: State) {
    && s.accepted == Flatten(s.wire) + s.inHand + s.queue
    && |s.inHand| <= BASE_MTU && (s.inHand != [] ==> s.place.Idle?)
    && (forall k :: 0 <= k < |s.wire| ==> 1 <= |s.wire[k]| <= BASE_MTU)
    && |s.wire| == s.sentSeq
  }

  /** The receiver's account holds, and concerns only bytes that were sent. */
  ghost predicate AckInv(s: State) {
    && HeardInv(s.heard, s.start)
    && s.heard.seen <= End(s) && s.heard.acked <= End(s)
    && (!s.begun ==> s.heard == FirstHeard(0) && s.start == 0)
  }

  /** Packets whose number is in seqNumbersList or was, and packets in pktsInFlight or were. */
  function RegisteredUpTo(s: State): int {
    if s.place.Idle? then s.sentSeq else s.sentSeq - 1
  }

  function CountedUpTo(s: State): int {
    if s.place.Sent? || s.place.Debited? then s.sentSeq - 1 else s.sentSeq
  }

  /** An ack settles only packets that are registered, hence counted: the packets in flight are
      the counted ones not yet settled. */
  ghost predicate CounterInv(s: State) {
    && s.rcvSeqLast <= s.heard.r.rcvSeq <= s.sentSeq && s.rcvSeqLast <= RegisteredUpTo(s)
    && s.pktsInFlight == CountedUpTo(s) - s.rcvSeqLast
    && s.rcvSeqLast !in s.registered
    && (forall k :: k in s.registered ==> 1 <= k <= RegisteredUpTo(s))
    && (forall k :: s.rcvSeqLast < k <= RegisteredUpTo(s) ==> k in s.registered)
  }

  /** The debit of the current packet is covered by the credit the loop started with. */
  ghost predicate BatchInv(s: State) {
    && s.tempS >= 0
    && s.batch <= s.tempS + (if s.place.Debited? || s.place.Counted? then 1 else 0)
    && (s.inHand != [] || !s.place.Idle? ==> s.batch > 0)
  }

  /** Credit out, packets in flight, and the packet that is debited but not yet counted. */
  function Load(s: State): int {
    s.tempS + s.pktsInFlight + if s.place.Debited? then 1 else 0
  }

  ghost predicate Inv(s: State) {
    StreamInv(s) && AckInv(s) && CounterInv(s) && BatchInv(s) && Load(s) <= CWND + 1
  }

  lemma StreamKept(s: State, e: Event, max: nat)
    requires StreamInv(s) && Enabled(s, e, max)
    ensures StreamInv(Apply(s, e))
  {
    hide HeardStep, Plausible, End, Accepted, Settle;
    SettleKeepsStream(s, e);
    match e
    case Offer(item, n) =>
      Reassociate(Flatten(s.wire) + s.inHand, s.queue, item[..n]);
    case Take =>
      var size := Min(BASE_MTU, |s.queue|);
      assert s.queue == s.queue[..size] + s.queue[size..];
      Reassociate(Flatten(s.wire), s.queue[..size], s.queue[size..]);
      assert Flatten(s.wire) + [] == Flatten(s.wire);
    case Send =>
      FlattenSnoc(s.wire, s.inHand);
      assert Flatten(s.wire) + s.inHand + [] == Flatten(s.wire) + s.inHand;
    case _ =>
  }

  lemma SettleKeepsStream(s: State, e: Event)
    ensures e.Ack? ==>
      var s' := Apply(s, e);
      s' == s.(heard := s'.heard, pktsInFlight := s'.pktsInFlight, rcvSeqLast := s'.rcvSeqLast, registered := s'.registered)
  {
    hide HeardStep, Accepted;
  }

  lemma AckKept(s: State, e: Event, max: nat)
    requires AckInv(s) && Enabled(s, e, max)
    ensures AckInv(Apply(s, e))
    ensures Apply(s, e).heard.r.rcvSeq >= s.heard.r.rcvSeq
  {
    match e
    case Send => FlattenSnoc(s.wire, s.inHand);
    case Seen(p) =>
      if s.begun {
        HeardKept(s.heard, Data(p), s.start);
      }
    case Ack(p) => HeardKept(s.heard, AckOf(p), s.start);
    case _ =>
  }

  /** The receiver never counts more packets than were sent. */
  lemma CountBounded(s: State)
    requires StreamInv(s) && AckInv(s)
    ensures s.heard.r.rcvSeq <= s.sentSeq
  {
    FlattenBound(s.wire, BASE_MTU);
    assert BASE_MTU * s.heard.r.rcvSeq <= BASE_MTU * s.sentSeq;
  }

  lemma CountersKept(s: State, e: Event, max: nat)
    requires Inv(s) && Enabled(s, e, max)
    ensures CounterInv(Apply(s, e))
  {
    StreamKept(s, e, max);
    AckKept(s, e, max);
    CountBounded(Apply(s, e));
    hide StreamInv, AckInv, HeardStep, Plausible, End, CounterInv, Accepted, Settle;
    match e
    case Ack(p) => AckCounters(s, p);
    case _ => OtherCounters(s, e, max);
  }

  lemma AckCounters(s: State, p: nat)
    requires CounterInv(s) && s.heard.r.rcvSeq <= HeardStep(s.heard, AckOf(p)).r.rcvSeq <= s.sentSeq
    ensures CounterInv(Apply(s, Ack(p)))
  {
    hide HeardStep, Accepted;
  }

  lemma OtherCounters(s: State, e: Event, max: nat)
    requires CounterInv(s) && Enabled(s, e, max) && !e.Ack?
    requires s.heard.r.rcvSeq <= Apply(s, e).heard.r.rcvSeq <= Apply(s, e).sentSeq
    requires !s.begun ==> s.heard.r.rcvSeq == 0
    ensures CounterInv(Apply(s, e))
  {
    hide HeardStep, Plausible, End;
  }

  /** An accepted ack settles every packet it counts, unless it counts the one the sender has yet
      to register: then it settles none, and leaves the packets in flight to a later ack. */
  lemma AckSettles(s: State, p: nat, max: nat)
    requires Inv(s) && Enabled(s, Ack(p), max) && Accepted(s.heard.r.tcpSeq, p % TWO32)
    ensures
      var t := Apply(s, Ack(p));
      var received := t.heard.r.rcvSeq;
      && (received <= RegisteredUpTo(s) ==> t.rcvSeqLast == received && t.pktsInFlight == CountedUpTo(s) - received)
      && (received > RegisteredUpTo(s) ==> t.rcvSeqLast == s.rcvSeqLast && t.pktsInFlight == s.pktsInFlight)
  {
    AckKept(s, Ack(p), max);
    CountersKept(s, Ack(p), max);
    hide StreamInv, AckInv, HeardStep, Plausible, End, Accepted;
  }

  lemma BatchKept(s: State, e: Event, max: nat)
    requires StreamInv(s) && BatchInv(s) && Enabled(s, e, max)
    ensures BatchInv(Apply(s, e))
  {
    hide Flatten, HeardStep, Plausible, End;
  }

  /** A step raises the load to at most the window, and past it only by counting a packet that
      was debited before a tick. */
  lemma LoadKept(s: State, e: Event, max: nat)
    requires Inv(s) && Enabled(s, e, max)
    ensures Load(Apply(s, e)) ==
      match e
      case Tick => Max(Load(s), if s.place.Debited? then CWND + 1 else CWND)
      case Ack(p) => Load(s) - (Apply(s, e).rcvSeqLast - s.rcvSeqLast)
      case _ => Load(s)
    ensures Apply(s, e).rcvSeqLast >= s.rcvSeqLast
  {
    CountersKept(s, e, max);
    hide StreamInv, AckInv, HeardStep, Plausible, End;
  }

  lemma InitialSafe()
    ensures Inv(Initial())
  {
    InitialStream(Initial());
    InitialAck(Initial());
    InitialCounters(Initial());
    hide StreamInv, AckInv, CounterInv, BatchInv;
  }

  lemma InitialAck(s: State)
    requires s.heard == FirstHeard(0) && s.start == 0
    ensures AckInv(s)
  {
    HeardStarts(0);
    hide HeardInv;
  }

  lemma InitialCounters(s: State)
    requires s.place.Idle? && s.inHand == [] && s.batch == s.sentSeq == s.rcvSeqLast == 0 && s.registered == {}
    requires s.heard.r.rcvSeq == 0 && s.tempS == 1 && s.pktsInFlight == 0
    ensures CounterInv(s) && BatchInv(s) && Load(s) <= CWND + 1
  {
  }

  lemma InitialStream(s: State)
    requires s.accepted == s.inHand == s.queue == [] && s.wire == [] && s.sentSeq == 0
    ensures StreamInv(s) && Flatten(s.wire) == []
  {
    assert s.accepted == [] + s.inHand + s.queue;
  }

  lemma StepSafe(s: State, e: Event, max: nat)
    requires Inv(s) && Enabled(s, e, max)
    ensures Inv(Apply(s, e))
  {
    StreamKept(s, e, max);
    AckKept(s, e, max);
    CountersKept(s, e, max);
    BatchKept(s, e, max);
    LoadKept(s, e, max);
  }

  /** A chunk is the oldest bytes of the ring, and shorter than the MTU only if it is all of
      them. */
  lemma TakeFills(s: State, max: nat)
    requires Enabled(s, Event.Take, max) && s.queue != []
    ensures
      var t := Apply(s, Event.Take);
      && 1 <= |t.inHand| <= BASE_MTU && s.queue == t.inHand + t.queue
      && (|t.inHand| == BASE_MTU || t.queue == [])
      && t == s.(inHand := t.inHand, queue := t.queue)
  {
    hide End, Plausible, HeardStep;
    var size := Min(BASE_MTU, |s.queue|);
    assert s.queue == s.queue[..size] + s.queue[size..];
  }

  /** A finite run of the three threads and the peer. */
  ghost predicate IsRun(states: seq<State>, events: seq<Event>, max: nat) {
    && |states| == |events| + 1
    && states[0] == Initial()
    && (forall k :: 0 <= k < |events| ==>
          Enabled(states[k], events[k], max) && states[k + 1] == Apply(states[k], events[k]))
  }

  /** Safety over whole runs, whatever the interleaving: the streams agree, the counters
      balance, and credit plus packets in flight never exceed the window by more than one. */
  lemma {:induction false} RunSafe(states: seq<State>, events: seq<Event>, max: nat, k: nat)
    requires IsRun(states, events, max) && k < |states|
    ensures Inv(states[k])
  {
    if k == 0 {
      InitialSafe();
    } else {
      RunSafe(states, events, max, k - 1);
      StepSafe(states[k - 1], events[k - 1], max);
    }
  }

  /** Event i took a chunk off the ring when p packets had been sent. */
  ghost predicate TakenAt(states: seq<State>, events: seq<Event>, i: int, p: nat, packet: seq<Byte>)
    requires |states| == |events| + 1
  {
    && 0 <= i < |events| && events[i].Take?
    && states[i].sentSeq == p && states[i].queue == packet + states[i + 1].queue
    && 1 <= |packet| <= BASE_MTU && (|packet| == BASE_MTU || states[i + 1].queue == [])
  }

  /** The packet p was taken before state k. */
  ghost predicate Taken(states: seq<State>, events: seq<Event>, k: nat, p: nat, packet: seq<Byte>)
    requires |states| == |events| + 1
  {
    exists i: nat :: i < k && TakenAt(states, events, i, p, packet)
  }

  ghost predicate PacketsTaken(states: seq<State>, events: seq<Event>, k: nat)
    requires k < |states| == |events| + 1
  {
    && (forall p: nat :: p < |states[k].wire| ==> Taken(states, events, k, p, states[k].wire[p]))
    && (states[k].inHand != [] ==> Taken(states, events, k, states[k].sentSeq, states[k].inHand))
  }

  /** On every run each packet on the wire, and the chunk in hand, is what one take found in
      the ring: a whole MTU of bytes, or fewer only because that emptied the ring. */
  lemma {:induction false} PacketsFull(states: seq<State>, events: seq<Event>, max: nat, k: nat)
    requires IsRun(states, events, max) && k < |states|
    ensures PacketsTaken(states, events, k)
  {
    if k > 0 {
      PacketsFull(states, events, max, k - 1);
      RunSafe(states, events, max, k - 1);
      PacketsNext(states, events, max, k);
    }
  }

  lemma PacketsNext(states: seq<State>, events: seq<Event>, max: nat, k: nat)
    requires IsRun(states, events, max) && 0 < k < |states| && StreamInv(states[k - 1])
    requires PacketsTaken(states, events, k - 1)
    ensures PacketsTaken(states, events, k)
  {
    var s, e, t := states[k - 1], events[k - 1], states[k];
    StreamSteps(s, e, max);
    hide Enabled, Apply, Inv;
    if e.Take? && s.queue != [] {
      TakeFills(s, max);
      assert TakenAt(states, events, k - 1, s.sentSeq, t.inHand);
    }
    forall p: nat | p < |t.wire| ensures Taken(states, events, k, p, t.wire[p]) {
      if p < |s.wire| {
        assert Taken(states, events, k - 1, p, s.wire[p]);
      } else {
        assert Taken(states, events, k - 1, s.sentSeq, s.inHand);
      }
    }
    if t.inHand != [] && !e.Take? {
      assert Taken(states, events, k - 1, s.sentSeq, s.inHand);
    }
  }

  /** Only a take fills the hand, and only a send puts what is in hand on the wire. */
  lemma StreamSteps(s: State, e: Event, max: nat)
    requires Enabled(s, e, max) && StreamInv(s)
    ensures
      var t := Apply(s, e);
      match e
      case Send => t.wire == s.wire + [s.inHand] && t.inHand == [] && |s.wire| == s.sentSeq
      case Take => t.wire == s.wire && t.sentSeq == s.sentSeq && (s.queue == [] ==> t.inHand == s.inHand)
      case _ => t.wire == s.wire && t.sentSeq == s.sentSeq && t.inHand == s.inHand
  {
    hide End, Plausible, HeardStep, Flatten;
    SettleKeepsStream(s, e);
  }

  /** Whether event j leaves the sender's for loop early or enters it anew. */
  ghost predicate Resets(states: seq<State>, events: seq<Event>, j: int)
    requires |states| == |events| + 1 && 0 <= j < |events|
  {
    events[j].StartBatch? || (events[j].Take? && states[j].queue == [])
  }

  /** The loop entered by event i may take as many packets as the credit it saw: until an empty
      ring ends it, what it may still take is that credit less the packets it registered. */
  lemma {:induction false} BatchLasts(states: seq<State>, events: seq<Event>, max: nat, i: nat, k: nat)
    requires IsRun(states, events, max) && i < k < |states| && events[i].StartBatch?
    requires forall j :: i < j < k ==> !Resets(states, events, j)
    ensures states[k].batch == states[i].tempS - (RegisteredUpTo(states[k]) - states[i].sentSeq)
  {
    hide *;
    StepOf(states, events, max, k - 1);
    BatchSteps(states[k - 1], events[k - 1], max);
    if k - 1 > i {
      BatchLasts(states, events, max, i, k - 1);
      NoReset(states, events, k - 1);
    }
  }

  lemma NoReset(states: seq<State>, events: seq<Event>, j: nat)
    requires |states| == |events| + 1 && j < |events| && !Resets(states, events, j)
    ensures !events[j].StartBatch? && (events[j].Take? ==> states[j].queue != [])
  {
  }

  lemma BatchSteps(s: State, e: Event, max: nat)
    requires Enabled(s, e, max) && Inv(s)
    ensures
      var t := Apply(s, e);
      if e.StartBatch? then t.batch == s.tempS && RegisteredUpTo(t) == s.sentSeq
      else if e.Take? && s.queue == [] then t.batch == 0
      else t.batch + RegisteredUpTo(t) == s.batch + RegisteredUpTo(s)
  {
    hide StreamInv, AckInv, CounterInv, End, Plausible, HeardStep, Accepted;
  }

  /** alcc_close waits for an empty ring: everything accepted has then been sent exactly
      when the sender holds no chunk between its remove and its send. */
  lemma CloseDrains(states: seq<State>, events: seq<Event>, max: nat, k: nat)
    requires IsRun(states, events, max) && k < |states|
    requires states[k].queue == []
    ensures Flatten(states[k].wire) == states[k].accepted <==> states[k].inHand == []
  {
    RunSafe(states, events, max, k);
    var s := states[k];
    assert |s.accepted| == |Flatten(s.wire)| + |s.inHand|;
    assert s.accepted == Flatten(s.wire) + s.inHand;
  }

  // ------------------------------------------------- when a tick goes wrong

  /** Before event k a tick came between the sender's two counter writes, and no ack has
      released a packet since. */
  ghost predicate Overshot(states: seq<State>, events: seq<Event>, k: nat)
    requires k < |states| && k <= |events|
  {
    k > 0 &&
    match events[k - 1]
    case Tick => states[k - 1].place.Debited? || Overshot(states, events, k - 1)
    case Ack(_) => states[k].rcvSeqLast == states[k - 1].rcvSeqLast && Overshot(states, events, k - 1)
    case _ => Overshot(states, events, k - 1)
  }

  ghost predicate TickBetweenWrites(states: seq<State>, events: seq<Event>, i: nat)
    requires i < |states| && i < |events|
  {
    events[i] == Tick && states[i].place.Debited?
  }

  /** One step of a run, from a state with the invariant. */
  lemma StepOf(states: seq<State>, events: seq<Event>, max: nat, k: nat)
    requires IsRun(states, events, max) && k + 1 < |states|
    ensures |events| == |states| - 1
    ensures Inv(states[k]) && Enabled(states[k], events[k], max) && states[k + 1] == Apply(states[k], events[k])
    ensures states[k].rcvSeqLast <= states[k + 1].rcvSeqLast
    ensures !events[k].Ack? ==> states[k].rcvSeqLast == states[k + 1].rcvSeqLast
  {
    RunSafe(states, events, max, k);
    hide Inv, Apply;
    LoadKept(states[k], events[k], max);
    SettleOnly(states[k], events[k], max);
  }

  lemma {:induction false} SettledGrows(states: seq<State>, events: seq<Event>, max: nat, i: nat, k: nat)
    requires IsRun(states, events, max) && i <= k < |states|
    ensures states[i].rcvSeqLast <= states[k].rcvSeqLast
    decreases k
  {
    hide *;
    if i < k {
      SettledGrows(states, events, max, i, k - 1);
      StepOf(states, events, max, k - 1);
    }
  }

  /** A tick came between the two writes before event i + 1, and what was settled then is what
      is settled at k. */
  ghost predicate Unreleased(states: seq<State>, events: seq<Event>, i: nat, k: nat)
    requires i < |events| < |states| && k < |states|
  {
    TickBetweenWrites(states, events, i) && states[i].rcvSeqLast == states[k].rcvSeqLast
  }

  lemma UnreleasedBefore(states: seq<State>, events: seq<Event>, max: nat, i: nat, k: nat)
    requires IsRun(states, events, max) && i < k && k + 1 < |states| == |events| + 1
    ensures Unreleased(states, events, i, k + 1)
      <==> Unreleased(states, events, i, k) && states[k].rcvSeqLast == states[k + 1].rcvSeqLast
  {
    hide IsRun, TickBetweenWrites;
    SettledGrows(states, events, max, i, k);
    StepOf(states, events, max, k);
  }

  lemma OvershotStep(states: seq<State>, events: seq<Event>, max: nat, k: nat)
    requires IsRun(states, events, max) && k + 1 < |states| == |events| + 1
    ensures Overshot(states, events, k + 1) <==>
      TickBetweenWrites(states, events, k)
      || (Overshot(states, events, k) && states[k].rcvSeqLast == states[k + 1].rcvSeqLast)
  {
    hide IsRun;
    StepOf(states, events, max, k);
    hide Inv, Enabled, Apply;
  }

  /** Overshot in terms of the run: some tick came between the two writes, and no ack has
      released a packet since. */
  lemma {:induction false} OvershotMeaning(states: seq<State>, events: seq<Event>, max: nat, k: nat)
    requires IsRun(states, events, max) && k < |states| == |events| + 1
    ensures Overshot(states, events, k) <==> exists i: nat :: i < k && Unreleased(states, events, i, k)
  {
    if k > 0 {
      OvershotMeaning(states, events, max, k - 1);
      forall i: nat | i < k - 1
        ensures Unreleased(states, events, i, k)
          <==> Unreleased(states, events, i, k - 1) && states[k - 1].rcvSeqLast == states[k].rcvSeqLast
      {
        UnreleasedBefore(states, events, max, i, k - 1);
      }
      StepOf(states, events, max, k - 1);
      OvershotStep(states, events, max, k - 1);
      TickReleasesNothing(states, events, k - 1);
      hide *;
      if Overshot(states, events, k) && !TickBetweenWrites(states, events, k - 1) {
        var i: nat :| i < k - 1 && Unreleased(states, events, i, k - 1);
        assert Unreleased(states, events, i, k);
      }
    }
  }

  lemma TickReleasesNothing(states: seq<State>, events: seq<Event>, k: nat)
    requires k < |events| < |states| && k + 1 < |states|
    requires !events[k].Ack? ==> states[k].rcvSeqLast == states[k + 1].rcvSeqLast
    ensures Unreleased(states, events, k, k + 1) <==> TickBetweenWrites(states, events, k)
  {
  }

  lemma SettleOnly(s: State, e: Event, max: nat)
    requires Enabled(s, e, max)
    ensures !e.Ack? ==> Apply(s, e).rcvSeqLast == s.rcvSeqLast
  {
    hide HeardStep, Plausible, End;
  }

  /** The load is one over the window exactly when the run has overshot. */
  lemma {:induction false} OvershotExact(states: seq<State>, events: seq<Event>, max: nat, k: nat)
    requires IsRun(states, events, max) && k < |states|
    ensures Load(states[k]) == CWND + 1 <==> Overshot(states, events, k)
  {
    if k > 0 {
      OvershotExact(states, events, max, k - 1);
      RunSafe(states, events, max, k);
      StepOf(states, events, max, k - 1);
      hide Inv, Enabled, Apply, Load, IsRun;
      LoadKept(states[k - 1], events[k - 1], max);
      BoundedLoad(states[k - 1]);
      BoundedLoad(states[k]);
    }
  }

  lemma BoundedLoad(s: State)
    requires Inv(s)
    ensures Load(s) <= CWND + 1 && s.tempS >= 0 && s.pktsInFlight >= 0
  {
    hide StreamInv, AckInv;
  }

  /** With mathematical integers the window is overshot by at most one packet. */
  lemma SplitOvershootsByOne(states: seq<State>, events: seq<Event>, max: nat, k: nat)
    requires IsRun(states, events, max) && k < |states|
    ensures 0 <= states[k].tempS && 0 <= states[k].pktsInFlight
    ensures states[k].tempS + states[k].pktsInFlight <= CWND + 1
  {
    RunSafe(states, events, max, k);
    BoundedLoad(states[k]);
  }

  /** The unsigned subtraction gives the intended credit exactly while credit and packets in
      flight do not exceed the window. */
  lemma UnsignedCreditExact(pktsInFlight: nat, tempS: nat)
    requires pktsInFlight + tempS < CWND + TWO64
    ensures Credit(pktsInFlight, tempS) == IntendedCredit(pktsInFlight, tempS) <==> pktsInFlight + tempS <= CWND
  {
  }

  /** Exactly when a tick goes wrong: its subtraction wraps if and only if the sender is not
      between its two counter writes, an earlier tick was, and no ack has released a packet in
      the meantime.  It then yields 2^64 - 1, which no 64-bit credit can hold. */
  lemma WrapsExactly(states: seq<State>, events: seq<Event>, max: nat, k: nat)
    requires IsRun(states, events, max) && k < |states|
    ensures var s := states[k];
            (Credit(s.pktsInFlight, s.tempS) != IntendedCredit(s.pktsInFlight, s.tempS)
             <==> !s.place.Debited? && Overshot(states, events, k))
            && (Credit(s.pktsInFlight, s.tempS) == IntendedCredit(s.pktsInFlight, s.tempS)
                || Credit(s.pktsInFlight, s.tempS) == TWO64 - 1)
  {
    RunSafe(states, events, max, k);
    OvershotExact(states, events, max, k);
    BoundedLoad(states[k]);
    hide Inv, IsRun, Overshot;
    UnsignedCreditExact(states[k].pktsInFlight, states[k].tempS);
  }

  ghost function After(e: seq<Event>): State {
    if e == [] then Initial() else Apply(After(e[..|e| - 1]), e[|e| - 1])
  }

  ghost predicate AllEnabled(e: seq<Event>, max: nat) {
    e == [] || (AllEnabled(e[..|e| - 1], max) && Enabled(After(e[..|e| - 1]), e[|e| - 1], max))
  }

  /** The states that a sequence of enabled events goes through form a run. */
  lemma {:induction false} RunOf(events: seq<Event>, max: nat) returns (states: seq<State>)
    requires AllEnabled(events, max)
    ensures IsRun(states, events, max) && states[|events|] == After(events)
  {
    if events == [] {
      states := [Initial()];
    } else {
      var front := events[..|events| - 1];
      states := RunOf(front, max);
      states := states + [After(events)];
      forall k | 0 <= k < |events|
        ensures Enabled(states[k], events[k], max) && states[k + 1] == Apply(states[k], events[k])
      {
        if k < |front| {
          assert events[k] == front[k];
        }
      }
    }
  }

  lemma Extend(events: seq<Event>, e: Event, max: nat) returns (longer: seq<Event>)
    requires AllEnabled(events, max) && Enabled(After(events), e, max)
    ensures longer == events + [e] && AllEnabled(longer, max) && After(longer) == Apply(After(events), e)
  {
    longer := events + [e];
    assert longer[..|longer| - 1] == events;
  }

  /** One byte offered, taken and sent; a tick falls between the two counter writes. */
  lemma BadRun() returns (events: seq<Event>)
    ensures |events| == 8 && AllEnabled(events, 2)
    ensures After(events).tempS == CWND && After(events).pktsInFlight == 1
  {
    events := OneInHand();
    hide AllEnabled, After;
    assert Flatten(After(events).wire + [After(events).inHand]) == Flatten([]) + [0] by {
      FlattenSnoc<Byte>([], [0]);
    }
    events := Extend(events, Event.Send, 2);
    events := Extend(events, Debit, 2);
    events := Extend(events, Tick, 2);
    events := Extend(events, Count, 2);
  }

  lemma OneInHand() returns (events: seq<Event>)
    ensures |events| == 4 && AllEnabled(events, 2)
    ensures var s := After(events);
            s.tempS == 1 && s.pktsInFlight == 0 && s.begun && s.place.Idle? && s.inHand == [0] && s.wire == []
  {
    events := OneQueued();
    hide AllEnabled, After;
    events := Extend(events, Event.Take, 2);
    events := Extend(events, Seen(1), 2);
  }

  lemma OneQueued() returns (events: seq<Event>)
    ensures |events| == 2 && AllEnabled(events, 2)
    ensures var s := After(events);
            s.tempS == 1 && s.pktsInFlight == 0 && !s.begun && s.place.Idle? && s.inHand == [] && s.wire == []
            && s.queue == [0] && s.batch == 1
  {
    events := [];
    assert AllEnabled(events, 2) && After(events) == Initial();
    hide AllEnabled, After, FirstHeard;
    OfferOne();
    events := Extend(events, Event.Offer([0], 1), 2);
    events := Extend(events, StartBatch, 2);
  }

  lemma OfferOne()
    ensures Enabled(Initial(), Event.Offer([0], 1), 2)
    ensures Apply(Initial(), Event.Offer([0], 1)) == Initial().(queue := [0], accepted := [0])
  {
    var one: seq<Byte> := [0];
    assert one[..1] == one && [] + one == one;
    hide FirstHeard;
  }

  /** Such a run makes the next tick's subtraction wrap. */
  lemma SplitRunWraps()
    ensures exists states: seq<State>, events ::
              IsRun(states, events, 2) && |events| == 8
              && Credit(states[8].pktsInFlight, states[8].tempS) == TWO64 - 1
  {
    var events := BadRun();
    var states := RunOf(events, 2);
    hide IsRun, After, AllEnabled;
    assert states[8] == After(events);
  }

  /** Without a tick between the two writes the window is never exceeded. */
  lemma UnsplitNeverWraps(states: seq<State>, events: seq<Event>, max: nat, k: nat)
    requires IsRun(states, events, max) && k < |states|
    requires forall i: nat :: i < |events| ==> !TickBetweenWrites(states, events, i)
    ensures Load(states[k]) <= CWND
  {
    RunSafe(states, events, max, k);
    OvershotExact(states, events, max, k);
    OvershotMeaning(states, events, max, k);
    BoundedLoad(states[k]);
    hide Inv, IsRun, Overshot, TickBetweenWrites;
  }

  // ------------------------------------------------- sending as one step

  /** A run in which nothing falls between handing a packet over and registering it. */
  ghost predicate Atomic(states: seq<State>, events: seq<Event>)
    requires |states| == |events| + 1
  {
    forall k :: 0 <= k < |events| && !states[k].place.Idle? ==>
      events[k].Debit? || events[k].Count? || events[k].Register?
  }

  /** An ack that meets no half-sent packet always settles. */
  lemma SettlesAtOnce(s: State, e: Event, max: nat)
    requires Inv(s) && Enabled(s, e, max) && s.rcvSeqLast == s.heard.r.rcvSeq
    requires !s.place.Idle? ==> e.Debit? || e.Count? || e.Register?
    ensures Apply(s, e).rcvSeqLast == Apply(s, e).heard.r.rcvSeq
  {
    CountersKept(s, e, max);
    AckKept(s, e, max);
    CountBoundedAfter(s, e, max);
    NotAccepted(s, e);
    hide StreamInv, AckInv, HeardStep, Plausible, End, Accepted;
  }

  lemma NotAccepted(s: State, e: Event)
    ensures e.Ack? && !Accepted(s.heard.r.tcpSeq, e.position % TWO32)
      ==> HeardStep(s.heard, AckOf(e.position)).r == s.heard.r
    ensures e.Seen? && s.begun ==> HeardStep(s.heard, Data(e.position)).r.rcvSeq == s.heard.r.rcvSeq
  {
    hide Accepted;
  }

  lemma CountBoundedAfter(s: State, e: Event, max: nat)
    requires Inv(s) && Enabled(s, e, max)
    ensures Apply(s, e).heard.r.rcvSeq <= Apply(s, e).sentSeq
  {
    StreamKept(s, e, max);
    AckKept(s, e, max);
    CountBounded(Apply(s, e));
  }

  /** With sending as one step: packets in flight are exactly the sent ones not yet acknowledged,
      every counted ack is settled, and the window is never exceeded. */
  lemma {:induction false} AtomicRunSafe(states: seq<State>, events: seq<Event>, max: nat, k: nat)
    requires IsRun(states, events, max) && Atomic(states, events) && k < |states|
    ensures var s := states[k];
            s.rcvSeqLast == s.heard.r.rcvSeq && Load(s) <= CWND
            && (s.place.Idle? ==> s.pktsInFlight == s.sentSeq - s.rcvSeqLast)
  {
    RunSafe(states, events, max, k);
    UnsplitNeverWraps(states, events, max, k);
    if k > 0 {
      AtomicRunSafe(states, events, max, k - 1);
      RunSafe(states, events, max, k - 1);
      SettlesAtOnce(states[k - 1], events[k - 1], max);
    }
  }

  /** The tick's unsigned subtraction is then the mathematical one in every reachable state,
      and a tick fills the credit up to exactly the window. */
  lemma CreditNeverWraps(states: seq<State>, events: seq<Event>, max: nat, k: nat)
    requires IsRun(states, events, max) && Atomic(states, events) && k < |states|
    ensures Credit(states[k].pktsInFlight, states[k].tempS) == CWND - states[k].pktsInFlight - states[k].tempS
    ensures states[k].place.Idle? ==>
      var next := Apply(states[k], Tick); next.tempS + next.pktsInFlight == CWND
  {
    RunSafe(states, events, max, k);
    AtomicRunSafe(states, events, max, k);
    BoundedLoad(states[k]);
    hide Inv, IsRun, Atomic, Credit, Apply;
    TickFills(states[k]);
  }

  lemma TickFills(s: State)
    requires s.tempS >= 0 && s.pktsInFlight >= 0 && Load(s) <= CWND
    ensures Credit(s.pktsInFlight, s.tempS) == CWND - s.pktsInFlight - s.tempS
    ensures s.place.Idle? ==> var next := Apply(s, Tick); next.tempS + next.pktsInFlight == CWND
  {
    CreditWithin(s.pktsInFlight, s.tempS);
    hide Credit;
  }

  lemma CreditWithin(pktsInFlight: nat, tempS: nat)
    requires pktsInFlight + tempS <= CWND
    ensures Credit(pktsInFlight, tempS) == CWND - pktsInFlight - tempS == IntendedCredit(pktsInFlight, tempS)
  {
  }

  // ------------------------------------------------------------------ the socket

  class AlccSocket {
    const sendingQueue: CircularQueue
    const data: array<Byte>
    var size: nat
    var sPkts: nat
    var sentSeq: nat
    var rcvSeq: nat
    var rcvSeqLast: nat
    var tcpSeq: Cursor
    var tempS: int
    var pktsInFlight: int
    var seqNumbersList: set<nat>
    ghost var place: Place
    ghost var begun: bool
    ghost var start: nat
    ghost var seen: nat
    ghost var acked: nat
    ghost var dropped: nat
    ghost var skipped: nat
    ghost var accepted: seq<Byte>
    ghost var wire: seq<seq<Byte>>

    ghost predicate Valid()
      reads this, sendingQueue, sendingQueue.buffer, data
    {
      sendingQueue.Valid() && data != sendingQueue.buffer && data.Length == BASE_MTU && size <= BASE_MTU
    }

    ghost function Account(): Heard
      reads this
    {
      Heard(Receiver(rcvSeq, tcpSeq), seen, acked, dropped, skipped)
    }

    ghost function View(): State
      requires Valid()
      reads this, sendingQueue, sendingQueue.buffer, data
    {
      State(sendingQueue.Queued, sPkts, data[..size], place, sentSeq, begun, start, Account(), rcvSeqLast,
            tempS, pktsInFlight, seqNumbersList, accepted, wire)
    }

    constructor (queueLength: nat)
      requires queueLength > 0
      ensures Valid() && View() == Initial() && sendingQueue.buffer.Length == queueLength
    {
      sendingQueue := new CircularQueue(queueLength);
      data := new Byte[BASE_MTU];
      size, sPkts := 0, 0;
      sentSeq, rcvSeq, rcvSeqLast, tcpSeq := 0, 0, 0, 0;
      tempS, pktsInFlight, seqNumbersList := 1, 0, {};
      place := Idle;
      begun, start, seen, acked, dropped, skipped := false, 0, 0, 0, 0, 0;
      accepted, wire := [], [];
    }

    /** alcc_send, for a request shorter than the ring. */
    method Send(item: seq<Byte>) returns (n: nat)
      requires Valid() && |item| < sendingQueue.buffer.Length
      modifies this, sendingQueue, sendingQueue.buffer
      ensures Valid()
      ensures n == Min(|item|, RoomFor(|old(View()).queue|, sendingQueue.buffer.Length))
      ensures Enabled(old(View()), Event.Offer(item, n), sendingQueue.buffer.Length)
      ensures View() == Apply(old(View()), Event.Offer(item, n))
    {
      n := sendingQueue.Insert(item);
      accepted := accepted + item[..n];
    }

    /** The sender enters its for loop with the credit it sees. */
    method StartBatch()
      requires Valid() && sPkts == 0 && tempS > 0
      modifies this
      ensures Valid() && View() == Apply(old(View()), Event.StartBatch)
    {
      sPkts := tempS;
    }

    /** One remove of the for loop; an empty ring ends the loop. */
    method Take()
      requires Valid() && sPkts > 0 && size == 0
      modifies this, sendingQueue, data
      ensures Valid() && View() == Apply(old(View()), Event.Take)
    {
      ghost var was := sendingQueue.Queued;
      size := sendingQueue.Remove(data, BASE_MTU);
      assert data[..size] == was[..size];
      if size == 0 {
        assert sendingQueue.Queued == was;
        sPkts := 0;
      }
    }

    /** The rest of the loop body: the kernel takes the chunk, the counters move, the packet
        is registered. */
    method Transmit()
      requires Valid() && size > 0
      modifies this
      ensures Valid()
      ensures View() == Apply(Apply(Apply(Apply(old(View()), Event.Send), Debit), Count), Register)
    {
      hide Apply, Valid;
      HandOver();
      DebitCredit();
      CountFlight();
      RegisterPacket();
    }

    method HandOver()
      requires Valid()
      modifies this`sentSeq, this`wire, this`size, this`place
      ensures Valid() && View() == Apply(old(View()), Event.Send)
    {
      sentSeq := sentSeq + 1;
      wire := wire + [data[..size]];
      size, place := 0, Sent;
      assert data[..size] == [];
    }

    method DebitCredit()
      requires Valid()
      modifies this`tempS, this`place
      ensures Valid() && View() == Apply(old(View()), Debit)
    {
      tempS, place := tempS - 1, Debited;
    }

    method CountFlight()
      requires Valid()
      modifies this`pktsInFlight, this`place
      ensures Valid() && View() == Apply(old(View()), Count)
    {
      pktsInFlight, place := pktsInFlight + 1, Counted;
    }

    method RegisterPacket()
      requires Valid()
      modifies this`seqNumbersList, this`sPkts, this`place
      ensures Valid() && View() == Apply(old(View()), Register)
    {
      seqNumbersList := seqNumbersList + {sentSeq};
      sPkts := if sPkts > 0 then sPkts - 1 else 0;
      place := Idle;
    }

    /** One message of the kernel module; position is the true position behind the field that
        the message is about. */
    method OnMessage(srcPort: nat, seqField: SeqField, ackSeq: SeqField, ghost position: nat)
      requires Valid()
      requires position % TWO32 == if srcPort == DATA_PORT then seqField else ackSeq
      requires !begun ==> Account() == FirstHeard(0) && (srcPort == DATA_PORT ==> position < TWO32)
      modifies this
      ensures Valid()
      ensures View() == Apply(old(View()), if srcPort == DATA_PORT then Seen(position) else Ack(position))
    {
      if srcPort == DATA_PORT {
        if tcpSeq == 0 {
          OnFirst(seqField, position);
        }
        return;
      }
      OnAck(ackSeq, position);
    }

    /** An outgoing packet while the cursor is 0. */
    method OnFirst(seqField: SeqField, ghost position: nat)
      requires Valid() && tcpSeq == 0 && seqField == position % TWO32
      requires !begun ==> Account() == FirstHeard(0)
      modifies this`tcpSeq, this`seen, this`acked, this`skipped, this`start, this`begun
      ensures Valid() && View() == Apply(old(View()), Seen(position))
    {
      hide HeardStep, FirstHeard;
      SetCursor(seqField, position);
      if !begun {
        start := position;
      }
      begun := true;
    }

    method SetCursor(seqField: SeqField, ghost position: nat)
      requires tcpSeq == 0 && seqField == position % TWO32
      requires !begun ==> Account() == FirstHeard(0)
      modifies this`tcpSeq, this`seen, this`acked, this`skipped
      ensures Account() == if begun then HeardStep(old(Account()), Data(position)) else FirstHeard(position)
    {
      tcpSeq := seqField;
      if begun {
        skipped := skipped + Gap(seen, position);
      } else {
        acked := position;
      }
      seen := position;
    }

    method OnAck(ackSeq: SeqField, ghost position: nat)
      requires Valid() && ackSeq == position % TWO32
      modifies this
      ensures Valid() && View() == Apply(old(View()), Ack(position))
    {
      hide Accepted, HeardStep, Settle;
      var accepts := HearAck(ackSeq, position);
      if accepts {
        SettleRegistered();
      }
    }

    /** The receiver's part of an ack. */
    method HearAck(ackSeq: SeqField, ghost position: nat) returns (accepts: bool)
      requires ackSeq == position % TWO32
      modifies this`rcvSeq, this`tcpSeq, this`seen, this`acked, this`dropped
      ensures accepts == Accepted(old(tcpSeq), ackSeq)
      ensures Account() == HeardStep(old(Account()), AckOf(position))
    {
      hide Accepted, PacketCount;
      acked := position;
      accepts := Accepted(tcpSeq, ackSeq);
      if accepts {
        rcvSeq := rcvSeq + PacketCount(tcpSeq, ackSeq, BASE_MTU);
        tcpSeq := ackSeq;
        dropped := dropped + Gap(seen, position) % BASE_MTU;
        seen := position;
      }
    }

    method SettleRegistered()
      requires Valid()
      modifies this`pktsInFlight, this`rcvSeqLast, this`seqNumbersList
      ensures Valid() && View() == Settle(old(View()))
    {
      if rcvSeq in seqNumbersList {
        pktsInFlight := pktsInFlight - (rcvSeq - rcvSeqLast);
        if rcvSeq >= rcvSeqLast + 1 {
          rcvSeqLast := rcvSeq;
        }
        seqNumbersList := seqNumbersList - {rcvSeq};
      }
    }

    /** One epoch of the fixed-window controller: the unsigned difference is added; it is the
        intended credit unless the window is exceeded. */
    method Tick()
      requires Valid()
      modifies this`tempS
      ensures Valid() && tempS == old(tempS) + Credit(pktsInFlight, old(tempS))
      ensures Credit(pktsInFlight, old(tempS)) == IntendedCredit(pktsInFlight, old(tempS))
        ==> View() == Apply(old(View()), Event.Tick)
    {
      tempS := tempS + Credit(pktsInFlight, tempS);
    }
  }
}
