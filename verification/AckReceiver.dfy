/** Turning 32-bit cumulative TCP acknowledgements into packet numbers
    (ack_receiver of the base library and of the Copa variant).  The sequence
    space is that of section 3.4 of RFC 9293; true positions are unbounded. */
module AckReceiver {
  import opened Bytes

  /** The receiver's cursor: 0 before the stream starts, 1 .. 2^32 afterwards. */
  type Cursor = x: int | 0 <= x <= TWO32
  type SeqField = x: int | 0 <= x < TWO32

  const BASE_MTU: nat := 1448
  const COPA_MTU: nat := 1484
  const DATA_PORT: nat := 60001

  /** a - b on unsigned 64-bit numbers. */
  function Sub64(a: nat, b: nat): nat {
    (a - b) % TWO64
  }

  /** The signed reading of an unsigned 64-bit number. */
  function ToInt64(x: nat): int {
    if x < TWO64 / 2 then x else x - TWO64
  }

  /** Cutting an unsigned 64-bit number down to a signed 32-bit one. */
  function ToInt32(x: nat): int {
    var low := x % TWO32;
    if low < TWO31 then low else low - TWO32
  }

  /** The receiver's guard on an ack message. */
  predicate Accepted(tcpSeq: Cursor, ackSeq: SeqField) {
    tcpSeq > 0 && (ackSeq >= tcpSeq || ToInt64(Sub64(tcpSeq, ackSeq)) > TWO31)
  }

  /** How many packets an accepted ack is taken to cover: the 32-bit quotient, and the
      wrapped distance when that quotient reads as negative. */
  function PacketCount(tcpSeq: Cursor, ackSeq: SeqField, mtu: nat): (n: nat)
    requires mtu > 0
  {
    var num := ToInt32(Sub64(ackSeq, tcpSeq) / mtu);
    QuotientNonnegative(TWO32 - tcpSeq + ackSeq, mtu);
    if num < 0 then (TWO32 - tcpSeq + ackSeq) / mtu else num
  }

  function Consumed(tcpSeq: Cursor, ackSeq: SeqField, mtu: nat): (n: nat)
    requires mtu > 0
  {
    if Accepted(tcpSeq, ackSeq) then PacketCount(tcpSeq, ackSeq, mtu) else 0
  }

  /** The sign test for wrap-around is exact: backward distances past half the
      sequence space read as negative, forward distances never do. */
  lemma SignTest(mtu: nat, d: nat)
    requires mtu == BASE_MTU || mtu == COPA_MTU
    requires d <= TWO32
    ensures TWO31 < d ==> ToInt32((TWO64 - d) / mtu) < 0
    ensures d < TWO32 ==> ToInt32(d / mtu) == d / mtu
  {
    if TWO31 < d {
      if mtu == BASE_MTU {
        UpperHalf((TWO64 - d) / BASE_MTU, 2966137);
      } else {
        UpperHalf((TWO64 - d) / COPA_MTU, 2894182);
      }
    }
    if d < TWO32 {
      SmallQuotient(d, mtu);
    }
  }

  /** A number in the upper half of a turn reads as negative. */
  lemma UpperHalf(x: nat, turns: nat)
    requires TWO32 * turns + TWO31 <= x < TWO32 * turns + TWO32
    ensures ToInt32(x) < 0
  {
    SameRemainder(x, TWO32, turns, x - TWO32 * turns);
  }

  lemma SmallQuotient(d: nat, mtu: nat)
    requires mtu == BASE_MTU || mtu == COPA_MTU
    requires d < TWO32
    ensures 0 <= d / mtu < TWO31 && ToInt32(d / mtu) == d / mtu
  {
    if mtu == BASE_MTU {
      assert d / BASE_MTU < TWO31;
    } else {
      assert d / COPA_MTU < TWO31;
    }
  }

  /** A true position that reads as tcpSeq, the receiver's cursor in 1 .. 2^32. */
  ghost predicate ReadsAs(position: int, tcpSeq: Cursor) {
    tcpSeq > 0 && (position - tcpSeq) % TWO32 == 0
  }

  /** The 32-bit ack of a true position, seen from the cursor. */
  lemma AckFromCursor(tcpSeq: Cursor, position: int, trueAck: int)
    requires ReadsAs(position, tcpSeq)
    requires -(TWO32 as int) < trueAck - position < TWO32
    ensures var x := tcpSeq + (trueAck - position);
            trueAck % TWO32 == if x < 0 then x + TWO32 else if x < TWO32 then x else x - TWO32
  {
    var x := tcpSeq + (trueAck - position);
    var turns := (position - tcpSeq) / TWO32;
    assert trueAck == x + TWO32 * turns;
  }

  lemma ForwardCount(mtu: nat, tcpSeq: Cursor, ackSeq: SeqField, ahead: nat)
    requires mtu == BASE_MTU || mtu == COPA_MTU
    requires tcpSeq > 0 && ahead < TWO32
    requires ackSeq == tcpSeq + ahead || ackSeq == tcpSeq + ahead - TWO32
    ensures Accepted(tcpSeq, ackSeq) <==> ahead < TWO31 || tcpSeq + ahead < TWO32
    ensures Accepted(tcpSeq, ackSeq) ==> PacketCount(tcpSeq, ackSeq, mtu) == ahead / mtu
  {
    if ackSeq < tcpSeq {
      assert Sub64(tcpSeq, ackSeq) == TWO32 - ahead;
      assert Sub64(ackSeq, tcpSeq) == TWO64 - (TWO32 - ahead);
      if ahead < TWO31 {
        SignTest(mtu, TWO32 - ahead);
      }
    } else {
      assert Sub64(ackSeq, tcpSeq) == ahead;
      SignTest(mtu, ahead);
    }
  }

  lemma BackwardCount(mtu: nat, tcpSeq: Cursor, ackSeq: SeqField, behind: nat)
    requires mtu == BASE_MTU || mtu == COPA_MTU
    requires tcpSeq > 0 && 0 < behind < TWO32
    requires ackSeq == tcpSeq - behind || ackSeq == tcpSeq - behind + TWO32
    ensures Accepted(tcpSeq, ackSeq) <==> behind > tcpSeq || behind > TWO31
    ensures Accepted(tcpSeq, ackSeq) ==> PacketCount(tcpSeq, ackSeq, mtu) == (TWO32 - behind) / mtu
  {
    if ackSeq < tcpSeq {
      assert Sub64(tcpSeq, ackSeq) == behind;
      assert Sub64(ackSeq, tcpSeq) == TWO64 - behind;
      SignTest(mtu, behind);
    } else {
      assert Sub64(ackSeq, tcpSeq) == TWO32 - behind;
      SignTest(mtu, TWO32 - behind);
    }
  }

  /** For every true ack within one turn of the cursor, exactly when the receiver counts
      the packets that the ack really covers (none, for an ack behind the cursor). */
  lemma WrapTestExact(mtu: nat, tcpSeq: Cursor, position: int, trueAck: int)
    requires mtu == BASE_MTU || mtu == COPA_MTU
    requires ReadsAs(position, tcpSeq)
    requires -(TWO32 as int) < trueAck - position < TWO32
    ensures
      var ahead := trueAck - position;
      Consumed(tcpSeq, trueAck % TWO32, mtu) == (if ahead >= 0 then ahead / mtu else 0)
      <==> if ahead >= 0 then ahead < TWO31 || tcpSeq + ahead < TWO32
           else (-ahead <= TWO31 && -ahead <= tcpSeq) || -ahead > TWO32 - mtu
  {
    var ahead := trueAck - position;
    AckFromCursor(tcpSeq, position, trueAck);
    if ahead >= 0 {
      ForwardCount(mtu, tcpSeq, trueAck % TWO32, ahead);
    } else {
      BackwardCount(mtu, tcpSeq, trueAck % TWO32, -ahead);
    }
  }

  /** The receiver's two counters: packets counted, and the cursor in sequence space. */
  datatype Receiver = Receiver(rcvSeq: nat, tcpSeq: Cursor)

  /** x brought into 1 .. 2^32. */
  function Around(x: nat): (t: Cursor)
    requires x > 0
    ensures t > 0
  {
    (x - 1) % TWO32 + 1
  }

  /** The position after the acks seen so far: the start when there are none. */
  function LastOf(start: nat, acks: seq<nat>): nat {
    if acks == [] then start else acks[|acks| - 1]
  }

  /** Cumulative acks in stream order, each at most gap ahead of the one before. */
  ghost predicate InOrder(start: nat, acks: seq<nat>, gap: nat) {
    forall k {:trigger acks[k]} :: 0 <= k < |acks| ==>
      var before := LastOf(start, acks[..k]);
      before <= acks[k] <= before + gap
  }

  lemma InOrderPrefix(start: nat, acks: seq<nat>, gap: nat)
    requires acks != [] && InOrder(start, acks, gap)
    ensures var front := acks[..|acks| - 1];
            InOrder(start, front, gap)
            && LastOf(start, front) <= LastOf(start, acks) <= LastOf(start, front) + gap
  {
    var front := acks[..|acks| - 1];
    forall k {:trigger front[k]} | 0 <= k < |front|
      ensures var before := LastOf(start, front[..k]); before <= front[k] <= before + gap
    {
      assert front[..k] == acks[..k] && front[k] == acks[k];
    }
    assert acks[|acks| - 1] == LastOf(start, acks);
  }

  // ---------------------------------------------------------------- Copa variant

  /** What one ack does to the Copa receiver: the packets it covers are counted and the
      cursor moves by whole packets, so a remainder is kept for the next ack. */
  function CopaStep(r: Receiver, ackSeq: SeqField): Receiver
  {
    var n := Consumed(r.tcpSeq, ackSeq, COPA_MTU);
    if n == 0 then r else Receiver(r.rcvSeq + n, Around(r.tcpSeq + COPA_MTU * n))
  }

  function CopaAfter(start: SeqField, acks: seq<nat>): Receiver {
    if acks == [] then Receiver(0, start)
    else CopaStep(CopaAfter(start, acks[..|acks| - 1]), acks[|acks| - 1] % TWO32)
  }

  /** The receiver has counted exactly the whole packets below trueAck. */
  ghost predicate CopaTracks(r: Receiver, start: nat, trueAck: nat) {
    trueAck >= start
    && r.rcvSeq == (trueAck - start) / COPA_MTU
    && ReadsAs(start + COPA_MTU * r.rcvSeq, r.tcpSeq)
  }

  /** The last packet boundary at or below trueAck. */
  function Boundary(start: nat, trueAck: nat): (b: nat)
    requires start <= trueAck
    ensures start <= b <= trueAck < b + COPA_MTU
  {
    start + COPA_MTU * ((trueAck - start) / COPA_MTU)
  }

  /** The next ack can be told apart: it lies less than half a turn past the boundary that the
      cursor stands for, or in the cursor's own turn. */
  predicate InReach(start: nat, trueAck: nat, next: nat)
    requires 0 < start <= trueAck
  {
    var b := Boundary(start, trueAck);
    next - b < TWO31 || Around(b) + (next - b) < TWO32
  }

  /** One ack is counted in full exactly when it is in reach. */
  lemma CopaStepExact(r: Receiver, start: nat, trueAck: nat, next: nat)
    requires 0 < start && CopaTracks(r, start, trueAck)
    requires trueAck <= next < Boundary(start, trueAck) + TWO32
    ensures CopaTracks(CopaStep(r, next % TWO32), start, next) <==> InReach(start, trueAck, next)
  {
    var position := start + COPA_MTU * r.rcvSeq;
    var ahead := next - position;
    AroundSelf(position);
    CursorUnique(position, r.tcpSeq, Around(position));
    AckFromCursor(r.tcpSeq, position, next);
    ForwardCount(COPA_MTU, r.tcpSeq, next % TWO32, ahead);
    var n := ahead / COPA_MTU;
    QuotientStep(next - start, r.rcvSeq, n);
    if InReach(start, trueAck, next) {
      AroundReads(position, r.tcpSeq, COPA_MTU * n);
      Distribute(COPA_MTU, r.rcvSeq + n, n);
    }
  }

  lemma AroundSelf(x: nat)
    requires x > 0
    ensures ReadsAs(x, Around(x))
  {
    assert x - Around(x) == TWO32 * ((x - 1) / TWO32);
  }

  lemma QuotientStep(total: nat, counted: nat, more: nat)
    requires COPA_MTU * counted <= total && more == (total - COPA_MTU * counted) / COPA_MTU
    ensures total / COPA_MTU == counted + more
  {
  }

  lemma AroundReads(position: int, tcpSeq: Cursor, distance: nat)
    requires ReadsAs(position, tcpSeq)
    ensures ReadsAs(position + distance, Around(tcpSeq + distance))
  {
    var x := tcpSeq + distance;
    var turns := (position - tcpSeq) / TWO32;
    assert position + distance - Around(x) == TWO32 * (turns + (x - 1) / TWO32);
  }

  /** Every ack of the run is in reach of the one before. */
  predicate AllInReach(start: nat, acks: seq<nat>)
    requires 0 < start && InOrder(start, acks, TWO32 - COPA_MTU)
  {
    acks == [] ||
    (InOrderPrefix(start, acks, TWO32 - COPA_MTU);
     var front := acks[..|acks| - 1];
     AllInReach(start, front) && InReach(start, LastOf(start, front), acks[|acks| - 1]))
  }

  /** The receiver has counted every whole packet after each ack of the run. */
  ghost predicate AlwaysTracks(start: SeqField, acks: seq<nat>) {
    && CopaTracks(CopaAfter(start, acks), start, LastOf(start, acks))
    && (acks != [] ==> AlwaysTracks(start, acks[..|acks| - 1]))
  }

  /** Over every run of in-order acks, across any number of wraps, the Copa receiver has
      counted floor((ack - start) / MTU) packets after each of them, its cursor standing for
      their end, exactly when each ack is in reach of the one before. */
  lemma {:induction false} CopaRunExact(start: SeqField, acks: seq<nat>)
    requires 0 < start && InOrder(start, acks, TWO32 - COPA_MTU)
    ensures AllInReach(start, acks) <==> AlwaysTracks(start, acks)
  {
    if acks != [] {
      var front := acks[..|acks| - 1];
      InOrderPrefix(start, acks, TWO32 - COPA_MTU);
      CopaRunExact(start, front);
      if AlwaysTracks(start, front) {
        CopaStepExact(CopaAfter(start, front), start, LastOf(start, front), LastOf(start, acks));
      }
    }
  }

  /** Acks at most 2^31 - MTU apart are always in reach. */
  lemma {:induction false} ShortGapsReach(start: SeqField, acks: seq<nat>)
    requires 0 < start && InOrder(start, acks, TWO31 - COPA_MTU)
    ensures InOrder(start, acks, TWO32 - COPA_MTU) && AllInReach(start, acks)
  {
    if acks != [] {
      InOrderPrefix(start, acks, TWO31 - COPA_MTU);
      ShortGapsReach(start, acks[..|acks| - 1]);
    }
    WiderGap(start, acks, TWO31 - COPA_MTU, TWO32 - COPA_MTU);
  }

  lemma WiderGap(start: nat, acks: seq<nat>, gap: nat, wider: nat)
    requires InOrder(start, acks, gap) && gap <= wider
    ensures InOrder(start, acks, wider)
  {
  }

  /** Gaps below 2^31 alone are not enough: the remainder kept for the next ack can push the
      boundary more than half a turn back. */
  lemma HalfTurnGapFails()
    ensures exists start: SeqField, acks ::
              0 < start && InOrder(start, acks, TWO31 - 1)
              && !CopaTracks(CopaAfter(start, acks), start, LastOf(start, acks))
  {
    var start: SeqField := TWO31 + 10;
    var first, second := start + 1483, start + 1483 + TWO31 - 1;
    FailingGap(start, first, second);
    hide CopaAfter, CopaTracks;
    assert [first, second][..1] == [first] && [first][..0] == [];
    assert InOrder(start, [first, second], TWO31 - 1);
  }

  lemma FailingGap(start: SeqField, first: nat, second: nat)
    requires start == TWO31 + 10 && first == start + 1483 && second == first + TWO31 - 1
    ensures CopaAfter(start, [first, second]) == Receiver(0, start)
    ensures !CopaTracks(Receiver(0, start), start, second)
  {
    assert first % TWO32 == first && second % TWO32 == second - TWO32;
    assert Sub64(start, second - TWO32) == TWO31 + 10 - 1492;
    assert Sub64(first, start) == 1483;
    var none := Receiver(0, start);
    assert CopaStep(none, first % TWO32) == none;
    assert CopaStep(none, second % TWO32) == none;
    assert CopaAfter(start, []) == none;
    assert [first, second][..1] == [first] && [first][..0] == [];
  }

  /** How the same acknowledged bytes are cut into acks leaves no trace in the receiver. */
  lemma BatchingIrrelevant(start: SeqField, acks: seq<nat>, others: seq<nat>)
    requires 0 < start && InOrder(start, acks, TWO32 - COPA_MTU) && InOrder(start, others, TWO32 - COPA_MTU)
    requires AllInReach(start, acks) && AllInReach(start, others)
    requires LastOf(start, acks) == LastOf(start, others)
    ensures CopaAfter(start, acks) == CopaAfter(start, others)
  {
    CopaRunExact(start, acks);
    CopaRunExact(start, others);
    CopaTracksOne(CopaAfter(start, acks), CopaAfter(start, others), start, LastOf(start, acks));
  }

  lemma CopaTracksOne(r: Receiver, o: Receiver, start: nat, trueAck: nat)
    requires CopaTracks(r, start, trueAck) && CopaTracks(o, start, trueAck)
    ensures r == o
  {
    CursorUnique(start + COPA_MTU * r.rcvSeq, r.tcpSeq, o.tcpSeq);
  }

  lemma CursorUnique(position: int, a: Cursor, b: Cursor)
    requires ReadsAs(position, a) && ReadsAs(position, b)
    ensures a == b
  {
    assert a - b == TWO32 * ((position - b) / TWO32 - (position - a) / TWO32);
  }

  class CopaReceiver {
    var rcvSeq: nat
    var tcpSeq: Cursor

    ghost function View(): Receiver
      reads this
    {
      Receiver(rcvSeq, tcpSeq)
    }

    constructor ()
      ensures View() == Receiver(0, 0)
    {
      rcvSeq, tcpSeq := 0, 0;
    }

    /** One message of the kernel module: source port, sequence and ack fields.  Returns how
        many packets the acknowledgement loop is to go through. */
    method Hear(srcPort: nat, seqField: SeqField, ackSeq: SeqField) returns (numAcks: nat)
      modifies this
      ensures View() ==
        if srcPort == DATA_PORT && old(tcpSeq) == 0 then Receiver(old(rcvSeq), seqField) else old(View())
      ensures numAcks == if srcPort == DATA_PORT then 0 else Consumed(old(tcpSeq), ackSeq, COPA_MTU)
    {
      numAcks := 0;
      if tcpSeq == 0 && srcPort == DATA_PORT {
        tcpSeq := seqField;
      } else if srcPort != DATA_PORT {
        if Accepted(tcpSeq, ackSeq) {
          numAcks := PacketCount(tcpSeq, ackSeq, COPA_MTU);
        }
      }
    }

    /** One turn of the acknowledgement loop. */
    method Advance()
      requires tcpSeq > 0
      modifies this
      ensures View() == Receiver(old(rcvSeq) + 1, Around(old(tcpSeq) + COPA_MTU))
    {
      AroundStep(tcpSeq);
      rcvSeq := rcvSeq + 1;
      var moved := tcpSeq + COPA_MTU;
      if moved > TWO32 {
        moved := moved - TWO32;
      }
      tcpSeq := moved;
    }

    /** A whole message.  The packet numbers in handed are the ones passed on to the
        controller. */
    method OnMessage(srcPort: nat, seqField: SeqField, ackSeq: SeqField) returns (handed: seq<nat>)
      modifies this
      ensures View() ==
        if srcPort == DATA_PORT then
          (if old(tcpSeq) == 0 then Receiver(old(rcvSeq), seqField) else old(View()))
        else CopaStep(old(View()), ackSeq)
      ensures handed == seq(rcvSeq - old(rcvSeq), i => old(rcvSeq) + 1 + i)
    {
      handed := [];
      var numAcks := Hear(srcPort, seqField, ackSeq);
      ghost var was := tcpSeq;
      for numAckPkts := 0 to numAcks
        invariant rcvSeq == old(rcvSeq) + numAckPkts
        invariant numAckPkts == 0 ==> tcpSeq == was
        invariant numAckPkts > 0 ==> tcpSeq == Around(was + COPA_MTU * numAckPkts)
        invariant handed == seq(numAckPkts, i => old(rcvSeq) + 1 + i)
      {
        AroundTwice(was, COPA_MTU * numAckPkts);
        Advance();
        handed := handed + [rcvSeq];
      }
    }
  }

  lemma AroundTwice(t: Cursor, x: nat)
    requires t > 0
    ensures Around(Around(t + x) + COPA_MTU) == Around(t + x + COPA_MTU)
    ensures Around(t) == t
  {
    AroundStep(t + x);
    AroundStep(Around(t + x));
  }

  lemma AroundStep(x: nat)
    requires x > 0
    ensures var t := Around(x) + COPA_MTU; Around(x + COPA_MTU) == if t > TWO32 then t - TWO32 else t
  {
  }

  // ---------------------------------------------------------------- base library

  /** What one ack does to the base receiver: the cursor jumps to the ack itself, so the
      remainder below one packet is dropped. */
  function BaseStep(r: Receiver, ackSeq: SeqField): Receiver {
    if Accepted(r.tcpSeq, ackSeq)
    then Receiver(r.rcvSeq + PacketCount(r.tcpSeq, ackSeq, BASE_MTU), ackSeq)
    else r
  }

  function BaseAfter(start: SeqField, acks: seq<nat>): Receiver {
    if acks == [] then Receiver(0, start)
    else BaseStep(BaseAfter(start, acks[..|acks| - 1]), acks[|acks| - 1] % TWO32)
  }

  /** The bytes the base receiver forgets: the remainder of every step between acks. */
  function Dropped(start: nat, acks: seq<nat>): (d: int) {
    if acks == [] then 0
    else
      var front := acks[..|acks| - 1];
      Dropped(start, front) + (LastOf(start, acks) - LastOf(start, front)) % BASE_MTU
  }

  lemma BaseStepExact(r: Receiver, trueAck: nat, next: nat)
    requires r.tcpSeq == trueAck % TWO32 > 0
    requires trueAck <= next < trueAck + TWO31
    ensures BaseStep(r, next % TWO32) == Receiver(r.rcvSeq + (next - trueAck) / BASE_MTU, next % TWO32)
  {
    AckFromCursor(r.tcpSeq, trueAck, next);
    ForwardCount(BASE_MTU, r.tcpSeq, next % TWO32, next - trueAck);
  }

  /** Over every run of in-order acks none of which is 0, the base receiver's count and the
      bytes it dropped add up to the acknowledged stream. */
  lemma {:induction false} BaseRunBalance(start: SeqField, acks: seq<nat>)
    requires 0 < start && InOrder(start, acks, TWO31 - 1)
    requires forall k :: 0 <= k < |acks| ==> acks[k] % TWO32 != 0
    ensures BaseAfter(start, acks).tcpSeq == LastOf(start, acks) % TWO32
    ensures BASE_MTU * BaseAfter(start, acks).rcvSeq + Dropped(start, acks) == LastOf(start, acks) - start
    ensures Dropped(start, acks) >= 0
  {
    if acks != [] {
      var front := acks[..|acks| - 1];
      InOrderPrefix(start, acks, TWO31 - 1);
      BaseRunBalance(start, front);
      assert front == [] || front[|front| - 1] == acks[|front| - 1];
      BaseStepExact(BaseAfter(start, front), LastOf(start, front), LastOf(start, acks));
    }
  }

  /** The base receiver never counts more than the whole packets acknowledged, and counts
      them all exactly while the remainders it dropped stay below one packet. */
  lemma BaseRunExact(start: SeqField, acks: seq<nat>)
    requires 0 < start && InOrder(start, acks, TWO31 - 1)
    requires forall k :: 0 <= k < |acks| ==> acks[k] % TWO32 != 0
    ensures BaseAfter(start, acks).rcvSeq <= (LastOf(start, acks) - start) / BASE_MTU
    ensures BaseAfter(start, acks).rcvSeq == (LastOf(start, acks) - start) / BASE_MTU
            <==> Dropped(start, acks) < BASE_MTU
  {
    BaseRunBalance(start, acks);
  }

  /** A whole number of packets past the start. */
  predicate Aligned(start: nat, position: nat) {
    start <= position && (position - start) % BASE_MTU == 0
  }

  /** Acks on packet boundaries lose nothing. */
  lemma {:induction false} AlignedDropsNothing(start: nat, acks: seq<nat>)
    requires InOrder(start, acks, TWO31 - 1)
    requires forall k :: 0 <= k < |acks| ==> Aligned(start, acks[k])
    ensures Dropped(start, acks) == 0 && Aligned(start, LastOf(start, acks))
  {
    if acks != [] {
      var front := acks[..|acks| - 1];
      InOrderPrefix(start, acks, TWO31 - 1);
      assert forall k :: 0 <= k < |front| ==> front[k] == acks[k];
      AlignedDropsNothing(start, front);
      hide Aligned, InOrder;
      AlignedGap(start, LastOf(start, front), LastOf(start, acks));
    }
  }

  lemma AlignedGap(start: nat, before: nat, now: nat)
    requires before <= now && Aligned(start, before) && Aligned(start, now)
    ensures (now - before) % BASE_MTU == 0
  {
    var j, k := (before - start) / BASE_MTU, (now - start) / BASE_MTU;
    Distribute(BASE_MTU, k, j);
    SameRemainder(now - before, BASE_MTU, k - j, 0);
  }

  // ------------------------------------------------- base library, runs of messages

  /** A message of the kernel module with the true position behind its 32-bit field: the first
      byte of an outgoing packet, or a cumulative ack. */
  datatype Message = Data(position: nat) | AckOf(position: nat)

  /** The base receiver, the true position its cursor stands for, the latest ack, and the bytes
      it will never count: the remainders of its steps, and the stretches passed over when an
      outgoing packet sets a cursor that had become 0. */
  datatype Heard = Heard(r: Receiver, seen: nat, acked: nat, dropped: nat, skipped: nat)

  /** The receiver after its first outgoing packet. */
  ghost function FirstHeard(start: nat): Heard {
    Heard(Receiver(0, start % TWO32), start, start, 0, 0)
  }

  /** Acks come in stream order, less than half a turn apart.  An outgoing packet has not been
      acked; when the cursor is 0 it lies less than half a turn past where the cursor stood. */
  ghost predicate Plausible(h: Heard, m: Message) {
    match m
    case Data(p) => h.r.tcpSeq == 0 ==> h.acked <= p < h.seen + TWO31
    case AckOf(p) => h.acked <= p < h.acked + TWO31
  }

  /** A cursor of 0 is taken for "not started". */
  ghost function HeardStep(h: Heard, m: Message): Heard {
    match m
    case Data(p) =>
      if h.r.tcpSeq == 0 then
        h.(r := Receiver(h.r.rcvSeq, p % TWO32), seen := p, skipped := h.skipped + Gap(h.seen, p))
      else h
    case AckOf(p) =>
      if Accepted(h.r.tcpSeq, p % TWO32) then
        h.(r := BaseStep(h.r, p % TWO32), seen := p, acked := p,
           dropped := h.dropped + Gap(h.seen, p) % BASE_MTU)
      else h.(acked := p)
  }

  function Gap(from: nat, upTo: nat): (d: nat) {
    if from <= upTo then upTo - from else 0
  }

  /** What every run keeps.  Every byte up to the cursor was counted, dropped or skipped; and
      an ack behind the cursor cannot be mistaken for one ahead of it. */
  ghost predicate HeardInv(h: Heard, start: nat) {
    && h.r.tcpSeq == h.seen % TWO32
    && start <= h.seen && start <= h.acked
    && BASE_MTU * h.r.rcvSeq + h.dropped + h.skipped == h.seen - start
    && if h.r.tcpSeq == 0 then h.seen <= h.acked
       else h.acked <= h.seen <= h.acked + h.r.tcpSeq && h.seen < h.acked + TWO31
  }

  lemma HeardStarts(start: nat)
    ensures HeardInv(FirstHeard(start), start)
  {
  }

  /** An ack behind the cursor is ignored, one at or past it is counted. */
  lemma AckHeard(h: Heard, p: nat, start: nat)
    requires HeardInv(h, start) && h.r.tcpSeq > 0 && Plausible(h, AckOf(p))
    ensures Accepted(h.r.tcpSeq, p % TWO32) <==> h.seen <= p
    ensures h.seen <= p ==>
      BaseStep(h.r, p % TWO32) == Receiver(h.r.rcvSeq + (p - h.seen) / BASE_MTU, p % TWO32)
  {
    if h.seen <= p {
      BaseStepExact(h.r, h.seen, p);
      AckFromCursor(h.r.tcpSeq, h.seen, p);
      ForwardCount(BASE_MTU, h.r.tcpSeq, p % TWO32, p - h.seen);
    } else {
      AckFromCursor(h.r.tcpSeq, h.seen, p);
      BackwardCount(BASE_MTU, h.r.tcpSeq, p % TWO32, h.seen - p);
    }
  }

  lemma ModuloFrom(base: nat, p: nat)
    requires base % TWO32 == 0 && base <= p < base + TWO32
    ensures p % TWO32 == p - base
  {
    SameRemainder(p, TWO32, base / TWO32, p - base);
  }

  lemma HeardKept(h: Heard, m: Message, start: nat)
    requires HeardInv(h, start) && Plausible(h, m)
    ensures HeardInv(HeardStep(h, m), start)
    ensures HeardStep(h, m).r.rcvSeq >= h.r.rcvSeq
  {
    match m
    case Data(p) =>
      if h.r.tcpSeq == 0 {
        ModuloFrom(h.seen, p);
      }
    case AckOf(p) =>
      if h.r.tcpSeq > 0 {
        AckHeard(h, p, start);
        hide Accepted, BaseStep;
        if h.seen <= p {
          DropExact(h.r.rcvSeq, p - h.seen);
        }
      }
  }

  lemma DropExact(counted: nat, more: nat)
    ensures BASE_MTU * (counted + more / BASE_MTU) + more % BASE_MTU == BASE_MTU * counted + more
  {
  }

  ghost function HeardFrom(h: Heard, ms: seq<Message>): Heard {
    if ms == [] then h else HeardStep(HeardFrom(h, ms[..|ms| - 1]), ms[|ms| - 1])
  }

  ghost predicate AllPlausible(h: Heard, ms: seq<Message>) {
    ms == [] ||
    (AllPlausible(h, ms[..|ms| - 1]) && Plausible(HeardFrom(h, ms[..|ms| - 1]), ms[|ms| - 1]))
  }

  /** Over any run of messages, acks of value 0 included: packets counted times MTU, plus the
      bytes dropped and skipped, are the bytes up to the cursor. */
  lemma {:induction false} HeardRunBalance(start: nat, ms: seq<Message>)
    requires AllPlausible(FirstHeard(start), ms)
    ensures HeardInv(HeardFrom(FirstHeard(start), ms), start)
  {
    if ms != [] {
      var front := ms[..|ms| - 1];
      HeardRunBalance(start, front);
      HeardKept(HeardFrom(FirstHeard(start), front), ms[|ms| - 1], start);
    }
  }

  /** An accepted ack stops the receiver exactly when its 32-bit value is 0: from then on every
      ack is ignored, however far it goes, until the next outgoing packet.  That packet sets the
      cursor to its own first byte, and exactly the bytes between the zero ack and it are never
      counted. */
  lemma ZeroAckStalls(h: Heard, p: nat, start: nat, acks: seq<Message>, next: nat)
    requires HeardInv(h, start) && h.r.tcpSeq > 0 && h.seen <= p && Plausible(h, AckOf(p))
    requires var z := HeardStep(h, AckOf(p)); AllPlausible(z, acks) && (forall m :: m in acks ==> m.AckOf?)
    ensures HeardStep(h, AckOf(p)).r.tcpSeq == 0 <==> p % TWO32 == 0
    ensures var z := HeardStep(h, AckOf(p));
            p % TWO32 == 0 ==>
              HeardFrom(z, acks) == z.(acked := HeardFrom(z, acks).acked)
              && (Plausible(HeardFrom(z, acks), Data(next)) ==>
                    var again := HeardStep(HeardFrom(z, acks), Data(next));
                    again.r == Receiver(z.r.rcvSeq, next % TWO32)
                    && again.skipped == h.skipped + (next - p)
                    && BASE_MTU * again.r.rcvSeq + again.dropped + again.skipped == next - start)
  {
    var z := HeardStep(h, AckOf(p));
    AckHeard(h, p, start);
    HeardKept(h, AckOf(p), start);
    if p % TWO32 == 0 {
      AcksIgnored(z, acks);
      var w := HeardFrom(z, acks);
      AcksAdvance(z, acks);
      if Plausible(w, Data(next)) {
        assert HeardInv(w, start);
        HeardKept(w, Data(next), start);
      }
    }
  }

  lemma {:induction false} AcksIgnored(z: Heard, acks: seq<Message>)
    requires z.r.tcpSeq == 0 && AllPlausible(z, acks) && forall m :: m in acks ==> m.AckOf?
    ensures HeardFrom(z, acks) == z.(acked := HeardFrom(z, acks).acked)
  {
    if acks != [] {
      assert acks[|acks| - 1] in acks;
      AcksIgnored(z, acks[..|acks| - 1]);
    }
  }

  lemma {:induction false} AcksAdvance(z: Heard, acks: seq<Message>)
    requires AllPlausible(z, acks) && forall m :: m in acks ==> m.AckOf?
    ensures HeardFrom(z, acks).acked >= z.acked
  {
    if acks != [] {
      assert acks[|acks| - 1] in acks;
      AcksAdvance(z, acks[..|acks| - 1]);
    }
  }
}
