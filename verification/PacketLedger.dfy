/** The map of unacknowledged packets: what an acknowledgement removes from it and what it
    counts as lost.  The two controllers walk the map in key order and differ only in how
    they treat keys below the acknowledged one. */
module PacketLedgers {
  datatype Packet = Packet(sentTime: real, rtt: real)

  type Unacked = map<nat, Packet>

  /** std::map::erase. */
  function Without(m: Unacked, k: nat): (r: Unacked) {
    m - {k}
  }

  /** Native removes every key up to the acknowledged one, the ones below it as lost; Alcc
      removes one smaller key, uncounted, and stops. */
  datatype Variant = Native | Alcc

  ghost predicate Least(keys: set<nat>, k: nat) {
    k in keys && forall j :: j in keys ==> k <= j
  }

  /** The key the walk starts at. */
  method LeastKey(m: Unacked) returns (k: nat)
    requires m.Keys != {}
    ensures Least(m.Keys, k)
  {
    k :| k in m.Keys;
    var rest := m.Keys - {k};
    while rest != {}
      invariant rest <= m.Keys && k in m && k !in rest
      invariant forall j :: j in m ==> j in rest || k <= j
      decreases |rest|
    {
      var j :| j in rest;
      rest := rest - {j};
      if j < k {
        k := j;
      }
    }
  }

  lemma {:induction false} LeastExists(keys: set<nat>)
    requires keys != {}
    ensures exists k: nat :: Least(keys, k)
    decreases |keys|
  {
    var k: nat :| k in keys;
    var rest := keys - {k};
    assert forall j :: j in keys ==> j in rest || j == k;
    if rest == {} {
      assert Least(keys, k);
    } else {
      LeastExists(rest);
      var least: nat :| Least(rest, least);
      assert Least(keys, if least < k then least else k);
    }
  }

  lemma LeastUnique(keys: set<nat>, j: nat, k: nat)
    requires Least(keys, j) && Least(keys, k)
    ensures j == k
  {
  }

  ghost function Below(keys: set<nat>, seqNum: nat): set<nat> {
    set k | k in keys && k < seqNum
  }

  ghost function Above(m: Unacked, seqNum: nat): Unacked {
    map k | k in m && k > seqNum :: m[k]
  }

  /** The least key of a nonempty map. */
  ghost function Oldest(m: Unacked): (k: nat)
    requires m.Keys != {}
    ensures Least(m.Keys, k)
  {
    LeastExists(m.Keys);
    var k: nat :| Least(m.Keys, k);
    k
  }

  /** The map and the number of packets counted as lost after a walk. */
  datatype Walked = Walked(left: Unacked, lost: nat)

  /** What the walk over the map leaves, and how many packets it counts as lost.  Keys come in
      increasing order.  Alcc erases a key below the acknowledged one at once and stops; past
      that, both variants share the rest of the loop body. */
  ghost function Walk(v: Variant, m: Unacked, seqNum: nat): (r: Walked)
    decreases |m.Keys|
  {
    if m.Keys == {} then Walked(m, 0)
    else
      var k := Oldest(m);
      if v.Alcc? && k < seqNum then Walked(Without(m, k), 0)
      else if k > seqNum then Walked(m, 0)
      else
        var rest := Walk(v, Without(m, k), seqNum);
        AddLost(rest, if k < seqNum then 1 else 0)
  }

  /** What onACK does with the map: the walk, if the acknowledged packet is in it. */
  ghost function Acknowledged(v: Variant, m: Unacked, seqNum: nat): Walked {
    if seqNum in m then Walk(v, m, seqNum) else Walked(m, 0)
  }

  /** The walk of onACK. */
  method Acknowledge(v: Variant, m: Unacked, seqNum: nat) returns (m': Unacked, lost: nat)
    ensures Walked(m', lost) == Acknowledged(v, m, seqNum)
  {
    m', lost := m, 0;
    if seqNum in m {
      var done := false;
      hide Walk;
      while !done
        invariant Remains(v, m', seqNum, lost, done, Walk(v, m, seqNum)) && (!done ==> m'.Keys != {})
        decreases !done, |m'.Keys|
      {
        m', lost, done := OneKey(v, m', seqNum, lost, Walk(v, m, seqNum));
      }
    }
  }

  /** The walk so far, and what it is still to do, make up the whole walk. */
  ghost predicate Remains(v: Variant, m: Unacked, seqNum: nat, lost: nat, done: bool, whole: Walked) {
    whole == if done then Walked(m, lost) else AddLost(Walk(v, m, seqNum), lost)
  }

  /** The loop body, with the source's branches. */
  method OneKey(v: Variant, m: Unacked, seqNum: nat, lost: nat, ghost whole: Walked)
    returns (m': Unacked, lost': nat, done: bool)
    requires m.Keys != {} && Remains(v, m, seqNum, lost, false, whole)
    ensures Remains(v, m', seqNum, lost', done, whole)
    ensures !done ==> m'.Keys != {} && |m'.Keys| < |m.Keys|
  {
    var k := LeastKey(m);
    WalkStep(v, m, seqNum, k);
    WithoutKey(m, k);
    var rest := Without(m, k);
    WalkEnds(v, rest, seqNum);
    hide Walk, Least, Without;
    if v.Alcc? && k < seqNum {
      m', lost', done := rest, lost, true;
    } else if k > seqNum {
      m', lost', done := m, lost, true;
    } else {
      m', lost', done := rest, lost, rest.Keys == {};
      if k < seqNum {
        lost' := lost' + 1;
      }
    }
  }

  lemma WalkStep(v: Variant, m: Unacked, seqNum: nat, k: nat)
    requires Least(m.Keys, k)
    ensures k in m
    ensures Walk(v, m, seqNum) ==
      if v.Alcc? && k < seqNum then Walked(Without(m, k), 0)
      else if k > seqNum then Walked(m, 0)
      else AddLost(Walk(v, Without(m, k), seqNum), if k < seqNum then 1 else 0)
  {
    LeastUnique(m.Keys, k, Oldest(m));
  }

  lemma WalkEnds(v: Variant, m: Unacked, seqNum: nat)
    ensures m.Keys == {} ==> Walk(v, m, seqNum) == Walked(m, 0)
  {
  }

  ghost function AddLost(r: Walked, lost: nat): Walked {
    Walked(r.left, r.lost + lost)
  }

  /** Native Copa: every key up to the acknowledged one goes, the smaller ones as lost. */
  lemma {:induction false} NativeWalk(m: Unacked, seqNum: nat)
    ensures Walk(Native, m, seqNum) == Walked(Above(m, seqNum), |Below(m.Keys, seqNum)|)
    decreases |m.Keys|
  {
    if m.Keys == {} {
      assert Above(m, seqNum) == m && Below(m.Keys, seqNum) == {};
    } else {
      var k := Oldest(m);
      WalkStep(Native, m, seqNum, k);
      if k > seqNum {
        assert Above(m, seqNum) == m && Below(m.Keys, seqNum) == {};
      } else {
        var rest := Without(m, k);
        WithoutKey(m, k);
        AboveKey(m, k, seqNum);
        hide *;
        NativeWalk(rest, seqNum);
        BelowGrows(rest.Keys, k, seqNum);
      }
    }
  }

  lemma AboveKey(m: Unacked, k: nat, seqNum: nat)
    requires k <= seqNum
    ensures Above(Without(m, k), seqNum) == Above(m, seqNum)
  {
  }

  lemma WithoutKey(m: Unacked, k: nat)
    requires k in m
    ensures m.Keys == Without(m, k).Keys + {k} && k !in Without(m, k).Keys && |Without(m, k).Keys| < |m.Keys|
  {
    assert Without(m, k).Keys == m.Keys - {k};
  }

  lemma BelowGrows(keys: set<nat>, k: nat, seqNum: nat)
    requires k !in keys
    ensures |Below(keys + {k}, seqNum)| == |Below(keys, seqNum)| + if k < seqNum then 1 else 0
  {
    if k < seqNum {
      assert Below(keys + {k}, seqNum) == Below(keys, seqNum) + {k};
    } else {
      assert Below(keys + {k}, seqNum) == Below(keys, seqNum);
    }
  }

  /** The ALCC variant: the early erase leaves the counting branch no smaller key, so nothing
      is ever lost; one packet is removed, the oldest, whichever was acknowledged. */
  lemma AlccWalk(m: Unacked, seqNum: nat)
    requires seqNum in m
    ensures Walk(Alcc, m, seqNum) == Walked(Without(m, Oldest(m)), 0)
  {
    var k := Oldest(m);
    if k == seqNum {
      var rest := Without(m, k);
      if rest.Keys != {} {
        var next := Oldest(rest);
        assert next in m.Keys;
      }
    }
  }

  /** The ALCC walk removes exactly the acknowledged packet if and only if that packet is the
      oldest one. */
  lemma AlccExact(m: Unacked, seqNum: nat)
    requires seqNum in m
    ensures Walk(Alcc, m, seqNum).left == Without(m, seqNum) <==> Least(m.Keys, seqNum)
  {
    AlccWalk(m, seqNum);
    var k := Oldest(m);
    if Least(m.Keys, seqNum) {
      LeastUnique(m.Keys, k, seqNum);
    } else {
      assert seqNum in Without(m, k);
    }
  }

  // ------------------------------------------------------------ whole runs

  /** Where every sent packet went.  The multisets hold sequence numbers. */
  datatype Ledger = Ledger(unacked: Unacked, sent: multiset<nat>, hit: multiset<nat>, lost: multiset<nat>,
                           displaced: multiset<nat>)

  datatype LedgerEvent = Sent(seqNum: nat, packet: Packet) | Acked(seqNum: nat)

  ghost function Empty(): Ledger {
    Ledger(map[], multiset{}, multiset{}, multiset{}, multiset{})
  }

  /** One event of native Copa.  A send that reuses an outstanding number displaces its entry. */
  ghost function Booked(l: Ledger, e: LedgerEvent): Ledger {
    match e
    case Sent(n, p) =>
      l.(unacked := l.unacked[n := p], sent := l.sent + multiset{n},
         displaced := l.displaced + if n in l.unacked then multiset{n} else multiset{})
    case Acked(n) =>
      if n in l.unacked then
        l.(unacked := Above(l.unacked, n), hit := l.hit + multiset{n},
           lost := l.lost + multiset(Below(l.unacked.Keys, n)))
      else l
  }

  ghost function BookedAll(events: seq<LedgerEvent>): Ledger {
    if events == [] then Empty()
    else Booked(BookedAll(events[..|events| - 1]), events[|events| - 1])
  }

  ghost predicate Balanced(l: Ledger) {
    l.sent == multiset(l.unacked.Keys) + l.hit + l.lost + l.displaced
  }

  lemma Disjoint(a: set<nat>, b: set<nat>)
    requires a !! b
    ensures multiset(a + b) == multiset(a) + multiset(b)
  {
  }

  lemma SentSplits(m: Unacked, n: nat, p: Packet)
    ensures multiset(m[n := p].Keys) + (if n in m then multiset{n} else multiset{}) == multiset(m.Keys) + multiset{n}
  {
    assert m[n := p].Keys == m.Keys + {n};
  }

  lemma AckSplits(m: Unacked, n: nat)
    requires n in m
    ensures multiset(m.Keys) == multiset(Above(m, n).Keys) + multiset{n} + multiset(Below(m.Keys, n))
  {
    var above, below := Above(m, n).Keys, Below(m.Keys, n);
    assert m.Keys == above + {n} + below;
    Disjoint(above, {n});
    Disjoint(above + {n}, below);
    assert multiset({n}) == multiset{n};
  }

  lemma BookedBalances(l: Ledger, e: LedgerEvent)
    requires Balanced(l)
    ensures Balanced(Booked(l, e))
  {
    hide Above, Below;
    match e
    case Sent(n, p) => SentSplits(l.unacked, n, p);
    case Acked(n) =>
      if n in l.unacked {
        AckSplits(l.unacked, n);
      }
  }

  /** Every packet sent is, number by number, outstanding, acknowledged, lost or displaced; so
      sent = outstanding + hits + num_pkts_lost holds exactly when no send reused an
      outstanding number. */
  lemma {:induction false} LedgerBalance(events: seq<LedgerEvent>)
    ensures Balanced(BookedAll(events))
    ensures var l := BookedAll(events);
            |l.sent| == |l.unacked| + |l.hit| + |l.lost| <==> l.displaced == multiset{}
  {
    if events != [] {
      LedgerBalance(events[..|events| - 1]);
      BookedBalances(BookedAll(events[..|events| - 1]), events[|events| - 1]);
    }
    var l := BookedAll(events);
    assert |multiset(l.unacked.Keys)| == |l.unacked.Keys| == |l.unacked|;
    assert |l.displaced| == 0 <==> l.displaced == multiset{};
  }

  /** The native walk is the ledger's acknowledgement, and its count of losses the ledger's. */
  lemma NativeBooks(l: Ledger, n: nat)
    ensures Booked(l, Acked(n)).unacked == Acknowledged(Native, l.unacked, n).left
    ensures |Booked(l, Acked(n)).lost| == |l.lost| + Acknowledged(Native, l.unacked, n).lost
  {
    if n in l.unacked {
      NativeWalk(l.unacked, n);
    }
  }
}
