/** The receive ring of the DTLS transport: filled by the Ethernet interrupt, emptied by the receive callback,
    which the interrupt may preempt between any two of its steps, inside its copy loop included. */
module RxRing {
  import opened Words

  const DTLS_RX_SLOTS: nat := 8
  const DTLS_MAX_DGRAM: nat := 1536
  const WOLFSSL_CBIO_ERR_WANT_READ: int := -2

  type Datagram = seq<byte>

  // ----- the bounded queue the ring stands for -----------------------------------------------

  /** A datagram handed over by the network, or one taken out by the receive callback. */
  datatype Event = Arrival(datagram: Datagram) | Take

  datatype Queue = Queue(unread: seq<Datagram>, delivered: seq<Datagram>, lost: seq<Datagram>)

  function Clip(d: Datagram, n: nat): Datagram { if |d| > n then d[..n] else d }

  /** A queue for seven datagrams. */
  function Step(q: Queue, e: Event): Queue {
    match e
    case Arrival(d) =>
      if |q.unread| == DTLS_RX_SLOTS - 1 then q.(lost := q.lost + [d])
      else q.(unread := q.unread + [Clip(d, DTLS_MAX_DGRAM)])
    case Take =>
      if q.unread == [] then q
      else q.(unread := q.unread[1..], delivered := q.delivered + [q.unread[0]])
  }

  function Replay(events: seq<Event>): Queue {
    if events == [] then Queue([], [], [])
    else Step(Replay(events[..|events| - 1]), events[|events| - 1])
  }

  /** How many datagrams are unread, from the number of arrivals and takes alone. */
  function Backlog(events: seq<Event>): (b: nat)
    ensures b < DTLS_RX_SLOTS
  {
    if events == [] then 0
    else
      var b := Backlog(events[..|events| - 1]);
      if events[|events| - 1].Take? then (if b == 0 then 0 else b - 1)
      else if b == DTLS_RX_SLOTS - 1 then b else b + 1
  }

  function Arrivals(events: seq<Event>): seq<Datagram> {
    if events == [] then []
    else
      Arrivals(events[..|events| - 1])
      + (match events[|events| - 1] case Arrival(d) => [d] case Take => [])
  }

  /** The arrivals that found room, or that did not. */
  function Sorted(events: seq<Event>, accepted: bool): seq<Datagram> {
    if events == [] then []
    else
      var before := events[..|events| - 1];
      var room := Backlog(before) < DTLS_RX_SLOTS - 1;
      Sorted(before, accepted)
      + (match events[|events| - 1] case Arrival(d) => if room == accepted then [d] else [] case Take => [])
  }

  function ClipEach(ds: seq<Datagram>): (r: seq<Datagram>)
    ensures |r| == |ds|
  {
    seq(|ds|, i requires 0 <= i < |ds| => Clip(ds[i], DTLS_MAX_DGRAM))
  }

  /** First in, first out: what was delivered and what is unread are the accepted datagrams in order of arrival,
      each cut to 1536 bytes; a datagram is lost exactly when seven are unread as it arrives. */
  lemma {:induction false} FirstInFirstOut(events: seq<Event>)
    ensures var q := Replay(events);
      && q.delivered + q.unread == ClipEach(Sorted(events, true))
      && q.lost == Sorted(events, false)
      && |q.unread| == Backlog(events)
  {
    if events != [] {
      FirstInFirstOut(events[..|events| - 1]);
      var q, u := Replay(events[..|events| - 1]), Replay(events);
      if events[|events| - 1].Arrival? && Backlog(events[..|events| - 1]) < DTLS_RX_SLOTS - 1 {
        var d := events[|events| - 1].datagram;
        assert Sorted(events, true) == Sorted(events[..|events| - 1], true) + [d];
        assert u.delivered + u.unread == (q.delivered + q.unread) + [Clip(d, DTLS_MAX_DGRAM)];
      } else {
        assert u.delivered + u.unread == q.delivered + q.unread;
      }
    }
  }

  lemma {:induction false} AcceptedOrLost(events: seq<Event>)
    ensures multiset(Arrivals(events)) == multiset(Sorted(events, true)) + multiset(Sorted(events, false))
  {
    if events != [] {
      AcceptedOrLost(events[..|events| - 1]);
    }
  }

  /** Every arrival is delivered, unread or lost, and is so once. */
  lemma NothingElseIsLost(events: seq<Event>)
    ensures var q := Replay(events);
      |Arrivals(events)| == |q.delivered| + |q.unread| + |q.lost|
  {
    FirstInFirstOut(events);
    AcceptedOrLost(events);
    hide Replay, Arrivals, Sorted;
    assert |multiset(Arrivals(events))| == |multiset(Sorted(events, true))| + |multiset(Sorted(events, false))|;
    assert |Replay(events).delivered + Replay(events).unread| == |Sorted(events, true)|;
  }

  /** A consumer that never lets seven datagrams wait gets all of them, in order. */
  lemma {:induction false} KeepingUpLosesNothing(events: seq<Event>)
    requires forall i :: 0 <= i < |events| && events[i].Arrival? ==> Backlog(events[..i]) < DTLS_RX_SLOTS - 1
    ensures Replay(events).lost == []
    ensures Replay(events).delivered + Replay(events).unread == ClipEach(Arrivals(events))
  {
    if events != [] {
      var before := events[..|events| - 1];
      forall i | 0 <= i < |before| && before[i].Arrival? ensures Backlog(before[..i]) < DTLS_RX_SLOTS - 1 {
        assert before[..i] == events[..i];
      }
      KeepingUpLosesNothing(before);
      FirstInFirstOut(before);
      FirstInFirstOut(events);
      var q := Replay(before);
      if events[|events| - 1].Arrival? {
        assert q.delivered + (q.unread + [Clip(events[|events| - 1].datagram, DTLS_MAX_DGRAM)])
            == ClipEach(Arrivals(before)) + [Clip(events[|events| - 1].datagram, DTLS_MAX_DGRAM)];
      } else if q.unread != [] {
        assert (q.delivered + [q.unread[0]]) + q.unread[1..] == q.delivered + q.unread;
      }
    }
  }

  // ----- the ring in memory --------------------------------------------------------------------

  /** The datagrams the interrupt handler drains when it preempts the callback at its i-th step. */
  type Schedule = nat -> seq<Datagram>

  function AsEvents(ds: seq<Datagram>): (es: seq<Event>)
    ensures |es| == |ds|
  {
    seq(|ds|, i requires 0 <= i < |ds| => Arrival(ds[i]))
  }

  /** What arrives at steps i up to j. */
  function During(isr: Schedule, i: nat, j: nat): seq<Event>
    requires i <= j
    decreases j - i
  {
    if i == j then [] else During(isr, i, j - 1) + AsEvents(isr(j - 1))
  }

  lemma DuringNone(isr: Schedule, i: nat, start: seq<Event>)
    ensures start + During(isr, i, i) == start
  {
  }

  class Ring {
    const rxBuf: array2<byte>
    const rxLen: array<word16>
    var rxHead: nat
    var rxTail: nat
    ghost var events: seq<Event>

    /** The slot k places after rxTail. */
    ghost function Place(k: nat): nat
      reads this`rxTail
    {
      if rxTail + k < DTLS_RX_SLOTS then rxTail + k else rxTail + k - DTLS_RX_SLOTS
    }

    ghost predicate Shape()
      reads this`rxHead, this`rxTail
    {
      && rxBuf.Length0 == DTLS_RX_SLOTS && rxBuf.Length1 == DTLS_MAX_DGRAM && rxLen.Length == DTLS_RX_SLOTS
      && rxHead < DTLS_RX_SLOTS && rxTail < DTLS_RX_SLOTS
    }

    ghost predicate InSlot(i: nat, d: Datagram)
      reads rxBuf, rxLen
      requires i < rxLen.Length && i < rxBuf.Length0
    {
      |d| == rxLen[i] <= rxBuf.Length1 && forall j :: 0 <= j < |d| ==> rxBuf[i, j] == d[j]
    }

    /** The slots from rxTail up to rxHead hold the unread datagrams, oldest first. */
    ghost predicate Holds(unread: seq<Datagram>)
      reads this`rxHead, this`rxTail, rxBuf, rxLen
    {
      && Shape()
      && |unread| < DTLS_RX_SLOTS && rxHead == Place(|unread|)
      && forall k {:trigger unread[k]} :: 0 <= k < |unread| ==> InSlot(Place(k), unread[k])
    }

    ghost predicate Valid()
      reads this, rxBuf, rxLen
    {
      Holds(Replay(events).unread)
    }

    constructor ()
      ensures Valid() && events == [] && fresh(rxBuf) && fresh(rxLen)
    {
      rxBuf := new byte[DTLS_RX_SLOTS, DTLS_MAX_DGRAM];
      rxLen := new word16[DTLS_RX_SLOTS];
      rxHead, rxTail := 0, 0;
      events := [];
    }

    /** dtls_rx_cb: what the interrupt does with one datagram. */
    method RxCb(data: Datagram)
      requires Valid()
      modifies this`rxHead, this`events, rxBuf, rxLen
      ensures Valid() && events == old(events) + [Arrival(data)]
      ensures Replay(old(events)).unread <= Replay(events).unread
    {
      assert (events + [Arrival(data)])[..|events|] == events;
      Put(data, Replay(events).unread);
      events := events + [Arrival(data)];
    }

    method Put(data: Datagram, ghost unread: seq<Datagram>)
      requires Holds(unread)
      modifies this`rxHead, rxBuf, rxLen
      ensures Holds(Step(Queue(unread, [], []), Arrival(data)).unread)
    {
      var next := (rxHead + 1) % DTLS_RX_SLOTS;
      if next == rxTail {
        return;
      }
      var n := |data|;
      if n > DTLS_MAX_DGRAM {
        n := DTLS_MAX_DGRAM;
      }
      forall j | 0 <= j < n {
        rxBuf[rxHead, j] := data[j];
      }
      rxLen[rxHead] := n;
      assert forall k {:trigger unread[k]} :: 0 <= k < |unread| ==> InSlot(Place(k), unread[k]);
      assert InSlot(rxHead, Clip(data, DTLS_MAX_DGRAM));
      rxHead := next;
    }

    /** ethmac_rx_isr: drains every pending datagram. */
    method Isr(ds: seq<Datagram>)
      requires Valid()
      modifies this`rxHead, this`events, rxBuf, rxLen
      ensures Valid() && events == old(events) + AsEvents(ds)
      ensures Replay(old(events)).unread <= Replay(events).unread
    {
      var i := 0;
      while i < |ds|
        invariant 0 <= i <= |ds| && Valid()
        invariant events == old(events) + AsEvents(ds[..i])
        invariant Replay(old(events)).unread <= Replay(events).unread
      {
        assert AsEvents(ds[..i + 1]) == AsEvents(ds[..i]) + [Arrival(ds[i])];
        RxCb(ds[i]);
        i := i + 1;
      }
      assert ds[..i] == ds;
    }

    /** The preemption at step k of a callback that started after start. */
    method Preempt(isr: Schedule, k: nat, ghost start: seq<Event>, ghost first: nat)
      requires Valid() && first <= k && events == start + During(isr, first, k)
      modifies this`rxHead, this`events, rxBuf, rxLen
      ensures Valid() && events == start + During(isr, first, k + 1)
      ensures Replay(old(events)).unread <= Replay(events).unread
    {
      hide Replay, Holds;
      Isr(isr(k));
      assert start + During(isr, first, k) + AsEvents(isr(k)) == start + During(isr, first, k + 1);
    }

    /** memcpy from the slot at rxTail, preempted before every byte. */
    method CopyOut(buf: array<byte>, n: nat, isr: Schedule, ghost start: seq<Event>, ghost front: Datagram)
      requires Valid() && events == start + During(isr, 0, 4)
      requires Replay(events).unread != [] && Replay(events).unread[0] == front && n <= |front| && n <= buf.Length
      modifies this`rxHead, this`events, rxBuf, rxLen, buf
      ensures Valid() && events == start + During(isr, 0, 4 + n)
      ensures Replay(events).unread != [] && Replay(events).unread[0] == front
      ensures buf[..] == front[..n] + old(buf[n..])
    {
      hide Replay, During;
      var i := 0;
      while i < n
        invariant 0 <= i <= n
        invariant Valid() && events == start + During(isr, 0, 4 + i)
        invariant Replay(events).unread != [] && Replay(events).unread[0] == front
        invariant forall k :: 0 <= k < buf.Length ==> buf[k] == if k < i then front[k] else old(buf[k])
      {
        Preempt(isr, 4 + i, start, 0);
        assert InSlot(Place(0), front);
        buf[i] := rxBuf[rxTail, i];
        i := i + 1;
      }
    }

    /** The step that gives the slot back. */
    method Advance(tail: nat)
      requires Valid() && Replay(events).unread != [] && tail == rxTail
      modifies this`rxTail, this`events
      ensures Valid() && events == old(events) + [Take]
    {
      assert (events + [Take])[..|events|] == events;
      Release(tail, Replay(events).unread);
      hide Holds;
      events := events + [Take];
    }

    method Release(tail: nat, ghost unread: seq<Datagram>)
      requires Holds(unread) && unread != [] && tail == rxTail
      modifies this`rxTail
      ensures Holds(unread[1..])
    {
      rxTail := (tail + 1) % DTLS_RX_SLOTS;
      forall k | 0 <= k < |unread| - 1 ensures InSlot(Place(k), unread[1..][k]) {
        assert old(InSlot(Place(k + 1), unread[k + 1]));
      }
    }

    /** The rest of dtls_recv_cb once a datagram was seen to be there. */
    method Deliver(buf: array<byte>, sz: nat, isr: Schedule, ghost start: seq<Event>, ghost front: Datagram)
      returns (n: nat)
      requires Valid() && sz <= buf.Length && events == start + During(isr, 0, 2)
      requires Replay(events).unread != [] && Replay(events).unread[0] == front
      modifies this`rxHead, this`rxTail, this`events, rxBuf, rxLen, buf
      ensures Valid()
      ensures n == |Clip(front, sz)| && buf[..] == Clip(front, sz) + old(buf[n..])
      ensures events == start + During(isr, 0, 5 + n) + [Take] + During(isr, 5 + n, 6 + n)
    {
      hide Replay, During;
      Preempt(isr, 2, start, 0);
      assert InSlot(Place(0), front);
      n := rxLen[rxTail];
      hide Holds, InSlot;
      Preempt(isr, 3, start, 0);
      if n > sz {
        n := sz;
      }
      CopyOut(buf, n, isr, start, front);
      var tail := rxTail;
      Preempt(isr, 4 + n, start, 0);
      Advance(tail);
      DuringNone(isr, 5 + n, events);
      Preempt(isr, 5 + n, events, 5 + n);
    }

    /** dtls_recv_cb, preempted before each of its reads and writes of shared memory as the schedule says.
        Whether a datagram is there is decided by the read of rxHead; the datagram is out of the queue once
        rxTail is written, and until then it still takes one of the seven places. */
    method RecvCb(buf: array<byte>, sz: nat, isr: Schedule) returns (r: int)
      requires Valid() && sz <= buf.Length
      modifies this`rxHead, this`rxTail, this`events, rxBuf, rxLen, buf
      ensures Valid()
      ensures var q := Replay(old(events) + During(isr, 0, 1)).unread;
        if q == [] then
          && r == WOLFSSL_CBIO_ERR_WANT_READ && buf[..] == old(buf[..])
          && events == old(events) + During(isr, 0, 2)
        else
          && r == |Clip(q[0], sz)| && buf[..] == Clip(q[0], sz) + old(buf[r..])
          && events == old(events) + During(isr, 0, 5 + r) + [Take] + During(isr, 5 + r, 6 + r)
    {
      hide Replay, During;
      ghost var start := events;
      DuringNone(isr, 0, start);
      Preempt(isr, 0, start, 0);
      ghost var unread := Replay(events).unread;
      var head := rxHead;
      assert head == rxTail <==> unread == [];
      hide Holds;
      Preempt(isr, 1, start, 0);
      if head == rxTail {
        return WOLFSSL_CBIO_ERR_WANT_READ;
      }
      r := Deliver(buf, sz, isr, start, unread[0]);
    }
  }
}
