/** The block-copy ring between the application and the packet sender
    (class Circular_Queue).  One producer calls insert, one consumer calls
    remove; insert chooses its length before it takes the lock. */
module CircularQueues {
  import opened Bytes

  /** Number of bytes between front and rear on a ring of max cells. */
  function Span(front: nat, rear: nat, max: nat): (n: nat)
    requires front < max && rear < max
    ensures n < max
  {
    if front <= rear then rear - front else max - front + rear
  }

  /** An index moved n cells on, going round at most once. */
  function Advance(i: nat, n: nat, max: nat): (j: nat)
    requires i < max && n <= max
    ensures j < max
  {
    if i + n < max then i + n else i + n - max
  }

  /** The remainder that keeps an index on the ring. */
  method Wrapped(i: nat, n: nat, max: nat) returns (j: nat)
    requires i < max && n <= max
    ensures j == Advance(i, n, max)
  {
    ModuloOnce(i + n, max);
    j := (i + n) % max;
  }

  /** The queued bytes, oldest first. */
  ghost function Stored(cells: seq<Byte>, front: nat, rear: nat): (s: seq<Byte>)
    requires front < |cells| && rear < |cells|
    ensures |s| == Span(front, rear, |cells|)
  {
    if front <= rear then cells[front..rear] else cells[front..] + cells[..rear]
  }

  /** What insert sees as free: everything on a ring that looks empty, otherwise one
      byte less than the unused cells. */
  function RoomFor(queued: nat, max: nat): (r: nat)
    requires queued < max
  {
    if queued == 0 then max else max - 1 - queued
  }

  /** A buffer after memcpy: n elements of src, from sat on, placed at dat. */
  ghost function Spliced(dst: seq<Byte>, dat: nat, src: seq<Byte>, sat: nat, n: nat): (s: seq<Byte>)
    requires dat + n <= |dst| && sat + n <= |src|
    ensures |s| == |dst|
  {
    dst[..dat] + src[sat..sat + n] + dst[dat + n..]
  }

  lemma ContiguousWrite(cells: seq<Byte>, front: nat, rear: nat, item: seq<Byte>, n: nat)
    requires front < |cells| && rear < |cells| && 0 < n <= |item|
    requires n <= RoomFor(Span(front, rear, |cells|), |cells|)
    requires (front <= rear && |cells| - rear - 1 >= n) || rear < front
    ensures rear + n < |cells|
    ensures Stored(Spliced(cells, rear, item, 0, n), front, rear + n) == Stored(cells, front, rear) + item[..n]
  {
    var written := cells[..rear] + item[..n];
    assert Spliced(cells, rear, item, 0, n) == written + cells[rear + n..];
    if front <= rear {
      DropInPrefix(cells[..rear], item[..n], front);
      assert (written + cells[rear + n..])[front..rear + n] == written[front..];
    } else {
      DropPastPrefix(written, cells, front);
      Reassociate(cells[front..], cells[..rear], item[..n]);
    }
  }

  lemma SplitWrite(cells: seq<Byte>, front: nat, rear: nat, item: seq<Byte>, n: nat)
    requires front <= rear < |cells| && |cells| - rear <= n <= |item| && n < |cells|
    requires n <= RoomFor(Span(front, rear, |cells|), |cells|)
    ensures var first := |cells| - rear;
            n - first < |cells|
            && Stored(Spliced(Spliced(cells, rear, item, 0, first), 0, item, first, n - first), front, n - first)
               == Stored(cells, front, rear) + item[..n]
  {
    var first := |cells| - rear;
    var once := Spliced(cells, rear, item, 0, first);
    var twice := Spliced(once, 0, item, first, n - first);
    var head, tail := item[..first], item[first..n];
    assert once == cells[..rear] + head;
    assert twice == tail + once[n - first..];
    DropPastPrefix(tail, once, front);
    DropInPrefix(cells[..rear], head, front);
    Reassociate(cells[front..rear], head, tail);
    assert item[..n] == head + tail;
  }

  lemma DropPastPrefix(tail: seq<Byte>, s: seq<Byte>, k: nat)
    requires |tail| <= k <= |s|
    ensures (tail + s[|tail|..])[k..] == s[k..]
  {
  }

  lemma DropInPrefix(s: seq<Byte>, t: seq<Byte>, k: nat)
    requires k <= |s|
    ensures (s + t)[k..] == s[k..] + t
  {
  }

  /** memcpy. */
  method CopyIn(dst: array<Byte>, dat: nat, src: seq<Byte>, sat: nat, n: nat)
    requires dat + n <= dst.Length && sat + n <= |src|
    modifies dst
    ensures dst[..] == Spliced(old(dst[..]), dat, src, sat, n)
  {
    forall i | 0 <= i < n {
      dst[dat + i] := src[sat + i];
    }
  }

  lemma RemoveFront(cells: seq<Byte>, front: nat, rear: nat, n: nat)
    requires front < |cells| && rear < |cells| && n <= Span(front, rear, |cells|)
    ensures Stored(cells, Advance(front, n, |cells|), rear) == Stored(cells, front, rear)[n..]
  {
    if rear < front {
      if front + n < |cells| {
        DropInPrefix(cells[front..], cells[..rear], n);
      } else {
        DropOver(cells[front..], cells[..rear], n);
      }
    }
  }

  lemma DropOver(s: seq<Byte>, t: seq<Byte>, k: nat)
    requires |s| <= k <= |s| + |t|
    ensures (s + t)[k..] == t[k - |s|..]
  {
  }

  lemma ContiguousRead(cells: seq<Byte>, front: nat, rear: nat, chunk: seq<Byte>, n: nat)
    requires front < |cells| && rear < |cells| && n <= Span(front, rear, |cells|)
    requires front + n <= |cells| && n <= |chunk|
    ensures Spliced(chunk, 0, cells, front, n) == Stored(cells, front, rear)[..n] + chunk[n..]
  {
  }

  lemma SplitRead(cells: seq<Byte>, front: nat, rear: nat, chunk: seq<Byte>, n: nat)
    requires rear < front < |cells| && |cells| - front <= n <= Span(front, rear, |cells|) && n <= |chunk|
    ensures var first := |cells| - front;
            Spliced(Spliced(chunk, 0, cells, front, first), first, cells, 0, n - first)
            == Stored(cells, front, rear)[..n] + chunk[n..]
  {
    var first := |cells| - front;
    var once := Spliced(chunk, 0, cells, front, first);
    assert once == cells[front..] + chunk[first..];
    DropPastPrefix(cells[front..], chunk, n);
    TakeAcross(cells[front..], cells[..rear], n - first);
    assert cells[..rear][..n - first] == cells[..n - first];
  }

  lemma TakeAcross(s: seq<Byte>, t: seq<Byte>, k: nat)
    requires k <= |t|
    ensures (s + t)[..|s| + k] == s + t[..k]
  {
  }

  // ------------------------------------------------------------ the abstract queue

  /** What the two threads do in one run: the consumer removes, or the producer inserts while
      the consumer removes between its snapshot of front and its copy. */
  datatype QueueStep = Take(len: nat) | Offer(item: seq<Byte>, takes: seq<nat>)

  /** A first-in first-out queue, the bytes it has accepted and those it has handed out. */
  datatype Fifo = Fifo(queued: seq<Byte>, accepted: seq<Byte>, delivered: seq<Byte>)

  ghost function Sum(ns: seq<nat>): (total: nat) {
    if ns == [] then 0 else Sum(ns[..|ns| - 1]) + ns[|ns| - 1]
  }

  /** The oldest len bytes, or all there are, go out. */
  ghost function Popped(f: Fifo, len: nat): Fifo {
    var n := Min(len, |f.queued|);
    Fifo(f.queued[n..], f.accepted, f.delivered + f.queued[..n])
  }

  /** The bytes an offer adds: as many as were free, out of capacity, when it looked. */
  ghost function Admitted(seen: Fifo, item: seq<Byte>, capacity: nat): seq<Byte> {
    if |seen.queued| > capacity then [] else item[..Min(|item|, capacity - |seen.queued|)]
  }

  /** The admitted bytes join behind whatever the removes in between left. */
  ghost function FifoStep(f: Fifo, step: QueueStep, capacity: nat): Fifo {
    match step
    case Take(len) => Popped(f, len)
    case Offer(item, takes) =>
      var left, added := Popped(f, Sum(takes)), Admitted(f, item, capacity);
      Fifo(left.queued + added, left.accepted + added, left.delivered)
  }

  ghost function FifoRun(queued: seq<Byte>, steps: seq<QueueStep>, capacity: nat): Fifo {
    if steps == [] then Fifo(queued, [], [])
    else FifoStep(FifoRun(queued, steps[..|steps| - 1], capacity), steps[|steps| - 1], capacity)
  }

  /** Nothing is lost, repeated, reordered or over capacity, whatever the steps. */
  lemma {:induction false} FifoFaithful(queued: seq<Byte>, steps: seq<QueueStep>, capacity: nat)
    requires |queued| <= capacity
    ensures var f := FifoRun(queued, steps, capacity);
            queued + f.accepted == f.delivered + f.queued && |f.queued| <= capacity
  {
    if steps == [] {
      assert queued + [] == [] + queued;
    } else {
      var before, step := FifoRun(queued, steps[..|steps| - 1], capacity), steps[|steps| - 1];
      FifoFaithful(queued, steps[..|steps| - 1], capacity);
      var n := Min(match step case Take(len) => len case Offer(item, takes) => Sum(takes), |before.queued|);
      var added := if step.Take? then [] else Admitted(before, step.item, capacity);
      FifoStepFaithful(queued, before, n, added);
      assert before.queued[n..] + [] == before.queued[n..] && before.accepted + [] == before.accepted;
    }
  }

  lemma FifoStepFaithful(start: seq<Byte>, f: Fifo, n: nat, added: seq<Byte>)
    requires start + f.accepted == f.delivered + f.queued && n <= |f.queued|
    ensures start + (f.accepted + added) == (f.delivered + f.queued[..n]) + (f.queued[n..] + added)
  {
    var out, left := f.queued[..n], f.queued[n..];
    assert f.queued == out + left;
    Reassociate(start, f.accepted, added);
    Reassociate(f.delivered, out, left);
    Reassociate(f.delivered + out, left, added);
  }

  /** A stale look at front never admits more than a fresh one would, and admits a prefix. */
  lemma StaleAdmitsLess(f: Fifo, item: seq<Byte>, taken: nat, capacity: nat)
    requires |f.queued| <= capacity
    ensures Admitted(f, item, capacity) <= Admitted(Popped(f, taken), item, capacity)
  {
    var free := capacity - |f.queued|;
    var n := Min(taken, |f.queued|);
    assert |Popped(f, taken).queued| == |f.queued| - n;
    PrefixGrows(item, Min(|item|, free), Min(|item|, free + n));
  }

  /** An offer is cut only by a full queue, and a take only by an empty one. */
  lemma OnlyTheEndsCut(f: Fifo, item: seq<Byte>, len: nat, capacity: nat)
    requires |f.queued| <= capacity
    ensures
      var added, left := Admitted(f, item, capacity), Popped(f, len);
      var out := left.delivered[|f.delivered|..];
      && added <= item && (added == item || |f.queued| + |added| == capacity)
      && left.delivered == f.delivered + out && f.queued == out + left.queued
      && |out| <= len && (|out| == len || left.queued == [])
  {
    var n := Min(len, |f.queued|);
    assert Popped(f, len).delivered[|f.delivered|..] == f.queued[..n];
  }

  lemma PrefixGrows(s: seq<Byte>, j: nat, k: nat)
    requires j <= k <= |s|
    ensures s[..j] <= s[..k]
  {
  }

  class CircularQueue {
    const buffer: array<Byte>
    var front: nat
    var rear: nat
    /** The bytes waiting in the ring, oldest first. */
    ghost var Queued: seq<Byte>

    ghost predicate Valid()
      reads this, buffer
    {
      front < buffer.Length && rear < buffer.Length && Queued == Stored(buffer[..], front, rear)
    }

    constructor (queueLength: nat)
      requires queueLength > 0
      ensures Valid() && Queued == [] && buffer.Length == queueLength
      ensures fresh(buffer)
    {
      buffer := new Byte[queueLength];
      front, rear, Queued := 0, 0, [];
    }

    /** insert, before the lock: clamp the request by one snapshot of front. */
    method ChooseLength(len: nat) returns (n: nat)
      requires Valid()
      ensures n == Min(len, RoomFor(|Queued|, buffer.Length))
    {
      if front == rear {
        n := Min(len, buffer.Length);
      } else if front < rear {
        n := Min(len, buffer.Length - rear + front - 1);
      } else {
        n := Min(len, front - rear - 1);
      }
    }

    /** insert, under the lock: the contiguous or the two-piece copy of n bytes.
        A full-capacity write makes front and rear meet again, so all of it is lost. */
    method Write(item: seq<Byte>, n: nat)
      requires Valid() && 0 < n <= |item| && n <= RoomFor(|Queued|, buffer.Length)
      modifies this`rear, this`Queued, buffer
      ensures Valid()
      ensures Queued == if n == buffer.Length then [] else old(Queued) + item[..n]
    {
      if (front <= rear && buffer.Length - rear - 1 >= n) || rear < front {
        WriteOnce(item, n);
      } else {
        WriteTwice(item, n);
      }
    }

    method WriteOnce(item: seq<Byte>, n: nat)
      requires Valid() && 0 < n <= |item| && n <= RoomFor(|Queued|, buffer.Length)
      requires (front <= rear && buffer.Length - rear - 1 >= n) || rear < front
      modifies this`rear, this`Queued, buffer
      ensures Valid() && n < buffer.Length
      ensures Queued == old(Queued) + item[..n]
    {
      ContiguousWrite(buffer[..], front, rear, item, n);
      CopyIn(buffer, rear, item, 0, n);
      rear := Wrapped(rear, n, buffer.Length);
      Queued := Stored(buffer[..], front, rear);
    }

    method WriteTwice(item: seq<Byte>, n: nat)
      requires Valid() && 0 < n <= |item| && n <= RoomFor(|Queued|, buffer.Length)
      requires front <= rear && buffer.Length - rear <= n
      modifies this`rear, this`Queued, buffer
      ensures Valid()
      ensures Queued == if n == buffer.Length then [] else old(Queued) + item[..n]
    {
      if n < buffer.Length {
        SplitWrite(buffer[..], front, rear, item, n);
      }
      var first := buffer.Length - rear;
      CopyIn(buffer, rear, item, 0, first);
      CopyIn(buffer, 0, item, first, n - first);
      rear := n - first;
      Queued := Stored(buffer[..], front, rear);
    }

    /** insert as one uninterrupted call.  The accepted bytes are queued exactly when
        the request is not a full-ring request on an empty ring. */
    method Insert(item: seq<Byte>) returns (n: nat)
      requires Valid()
      modifies this`rear, this`Queued, buffer
      ensures Valid()
      ensures n == Min(|item|, RoomFor(|old(Queued)|, buffer.Length))
      ensures Queued == if n == buffer.Length then [] else old(Queued) + item[..n]
      ensures Queued == old(Queued) + item[..n] <==> (old(Queued) == [] ==> |item| < buffer.Length)
    {
      n := ChooseLength(|item|);
      if n > 0 {
        Write(item, n);
      }
    }

    /** remove: hands out at most len bytes, oldest first. */
    method Remove(chunk: array<Byte>, len: nat) returns (n: nat)
      requires Valid() && chunk != buffer && len <= chunk.Length
      modifies this`front, this`Queued, chunk
      ensures Valid()
      ensures n == Min(len, |old(Queued)|)
      ensures chunk[..] == old(Queued)[..n] + old(chunk[n..])
      ensures Queued == old(Queued)[n..]
    {
      if front == rear {
        assert [] + chunk[..] == chunk[..];
        return 0;
      } else if front < rear {
        n := Min(len, rear - front);
      } else {
        n := Min(len, buffer.Length - front + rear);
      }
      if front < rear || (rear < front && buffer.Length - front >= n) {
        ReadOnce(chunk, n);
      } else {
        ReadTwice(chunk, n);
      }
    }

    method ReadOnce(chunk: array<Byte>, n: nat)
      requires Valid() && chunk != buffer && n <= chunk.Length
      requires n <= |Queued| && front + n <= buffer.Length
      modifies this`front, this`Queued, chunk
      ensures Valid()
      ensures chunk[..] == old(Queued)[..n] + old(chunk[n..])
      ensures Queued == old(Queued)[n..]
    {
      RemoveFront(buffer[..], front, rear, n);
      ContiguousRead(buffer[..], front, rear, chunk[..], n);
      CopyIn(chunk, 0, buffer[..], front, n);
      front := Wrapped(front, n, buffer.Length);
      Queued := Queued[n..];
    }

    method ReadTwice(chunk: array<Byte>, n: nat)
      requires Valid() && chunk != buffer && n <= chunk.Length
      requires rear < front && n <= |Queued| && buffer.Length - front <= n
      modifies this`front, this`Queued, chunk
      ensures Valid()
      ensures chunk[..] == old(Queued)[..n] + old(chunk[n..])
      ensures Queued == old(Queued)[n..]
    {
      var first := buffer.Length - front;
      RemoveFront(buffer[..], front, rear, n);
      SplitRead(buffer[..], front, rear, chunk[..], n);
      CopyIn(chunk, 0, buffer[..], front, first);
      CopyIn(chunk, first, buffer[..], 0, n - first);
      front := n - first;
      Queued := Queued[n..];
    }

    method Length() returns (len: nat)
      requires Valid()
      ensures len == |Queued|
    {
      if front <= rear {
        len := rear - front;
      } else {
        len := buffer.Length - front + rear;
      }
    }

    /** One insert whose length was chosen from a front that the consumer has since
        moved: takes are the removes that ran between the snapshot and the lock. */
    method InsertWhileRemoving(item: seq<Byte>, takes: seq<nat>) returns (n: nat, taken: seq<Byte>)
      requires Valid() && |item| < buffer.Length
      modifies this, buffer
      ensures Valid()
      ensures n == Min(|item|, buffer.Length - 1 - |old(Queued)|)
      ensures var k := Min(Sum(takes), |old(Queued)|);
        taken == old(Queued)[..k] && Queued == old(Queued)[k..] + item[..n]
    {
      n := ChooseLength(|item|);
      taken := TakeAll(takes);
      if n > 0 {
        Write(item, n);
      }
    }

    /** One remove, with the bytes handed out as a value. */
    method TakeOne(len: nat) returns (piece: seq<Byte>)
      requires Valid()
      modifies this`front, this`Queued
      ensures Valid()
      ensures var k := Min(len, |old(Queued)|); piece == old(Queued)[..k] && Queued == old(Queued)[k..]
    {
      var chunk := new Byte[len];
      var got := Remove(chunk, len);
      piece := chunk[..got];
    }

    /** The consumer's removes, one after another: together one remove of their sum. */
    method TakeAll(takes: seq<nat>) returns (taken: seq<Byte>)
      requires Valid()
      modifies this`front, this`Queued
      ensures Valid() && Halved(old(Queued), Sum(takes), taken, Queued)
    {
      taken := [];
      ghost var total := 0;
      assert Halved(old(Queued), 0, taken, Queued);
      for i := 0 to |takes|
        invariant Valid() && total == Sum(takes[..i])
        invariant Halved(old(Queued), total, taken, Queued)
      {
        ghost var was := taken;
        var piece := TakeOne(takes[i]);
        taken := taken + piece;
        HalvedAgain(old(Queued), total, was, takes[i], piece, Queued);
        assert takes[..i + 1][..i] == takes[..i];
        total := total + takes[i];
      }
      assert takes[..|takes|] == takes;
    }
  }

  /** s in two parts, the first of n bytes or all there are. */
  ghost predicate Halved(s: seq<Byte>, n: nat, front: seq<Byte>, back: seq<Byte>) {
    var k := Min(n, |s|);
    front == s[..k] && back == s[k..]
  }

  lemma HalvedAgain(s: seq<Byte>, n: nat, front: seq<Byte>, more: nat, piece: seq<Byte>, back: seq<Byte>)
    requires |front| <= |s| && Halved(s, n, front, s[|front|..])
    requires Halved(s[|front|..], more, piece, back)
    ensures Halved(s, n + more, front + piece, back)
  {
    TakeTwice(s, |front|, |piece|);
  }

  lemma TakeTwice(s: seq<Byte>, k: nat, more: nat)
    requires k + more <= |s|
    ensures s[..k] + s[k..][..more] == s[..k + more] && s[k..][more..] == s[k + more..]
  {
  }

  /** Any run of the two threads, from any state of the ring, is the run of a first-in
      first-out queue of capacity MAX - 1: the same bytes accepted, delivered and left. */
  method Run(q: CircularQueue, steps: seq<QueueStep>) returns (accepted: seq<Byte>, delivered: seq<Byte>)
    requires q.Valid()
    requires forall k :: 0 <= k < |steps| && steps[k].Offer? ==> |steps[k].item| < q.buffer.Length
    modifies q, q.buffer
    ensures q.Valid()
    ensures Fifo(q.Queued, accepted, delivered) == FifoRun(old(q.Queued), steps, q.buffer.Length - 1)
  {
    accepted, delivered := [], [];
    for k := 0 to |steps|
      invariant q.Valid()
      invariant Fifo(q.Queued, accepted, delivered) == FifoRun(old(q.Queued), steps[..k], q.buffer.Length - 1)
    {
      assert steps[..k + 1][..k] == steps[..k];
      match steps[k] {
        case Take(len) =>
          var piece := q.TakeOne(len);
          delivered := delivered + piece;
        case Offer(item, takes) =>
          var n, taken := q.InsertWhileRemoving(item, takes);
          accepted, delivered := accepted + item[..n], delivered + taken;
      }
    }
    assert steps[..|steps|] == steps;
  }
}
