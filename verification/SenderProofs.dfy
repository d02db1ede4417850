/** What every run of the sender keeps: record numbers repeat only in epochs whose counter was lost, every record on the
    retransmission list tracks only numbers used for it, the latest among them. */
module SenderProofs {
  import opened Words
  import opened EpochTable
  import opened RtxQueue
  import opened SenderSpec

  /** No two records were given the same epoch and sequence number. */
  ghost predicate NumbersUnique(log: seq<Entry>) {
    forall j, k :: 0 <= j < k < |log| ==> log[j].epoch != log[k].epoch || log[j].seqNumber != log[k].seqNumber
  }

  ghost predicate Below(slots: seq<Slot>, n: word64, q: word64) {
    Find(slots, n) >= 0 && q < LiveCounter(slots, n)
  }

  /** Was the k-th number handed out after the counter of its epoch was lost? */
  ghost predicate Stale(h: Trace, k: nat)
    requires k < |h.log|
  {
    h.log[k].epoch in h.spent && h.spent[h.log[k].epoch] <= k
  }

  ghost predicate NoneStale(h: Trace) {
    forall k :: 0 <= k < |h.log| ==> !Stale(h, k)
  }

  /** Numbers are below the counter of their live epoch unless its counter was lost; none repeats exactly
      if none is stale, and then an epoch whose counter was lost has sent nothing since. */
  ghost predicate NumbersOk(slots: seq<Slot>, h: Trace) {
    && (forall k :: 0 <= k < |h.log| ==> h.log[k].epoch in h.spent || Below(slots, h.log[k].epoch, h.log[k].seqNumber))
    && (forall n :: n in h.spent ==> h.spent[n] <= |h.log|)
    && (NumbersUnique(h.log) <==> NoneStale(h))
    && (NumbersUnique(h.log) ==> forall n :: n in h.spent ==> LiveCounter(slots, n) == 0)
  }

  ghost predicate HandedOut(log: seq<Entry>, n: word64, q: int) {
    exists k :: 0 <= k < |log| && log[k].epoch == n && log[k].seqNumber == q
  }

  /** Every number below the counter of a live epoch was handed out, and so was number 0 of every epoch
      whose counter was lost. */
  ghost predicate Gapless(slots: seq<Slot>, h: Trace) {
    && (forall i, q :: 0 <= i < |slots| && slots[i].isValid && 0 <= q < slots[i].nextSeq ==>
          HandedOut(h.log, slots[i].epochNumber, q))
    && (forall n :: n in h.spent ==> HandedOut(h.log, n, 0))
  }

  /** Was the number used to write or queue the record's fragment in its epoch? */
  ghost predicate UsedBy(log: seq<Entry>, r: Rec, q: word64) {
    Entry(r.epoch, q, r.id, true, Handshake(r.hsType, r.frag)) in log
  }

  /** The numbers with which the record was written or queued, in order. */
  function NumbersOf(log: seq<Entry>, owner: int): seq<word64> {
    if log == [] then []
    else
      var e, before := log[|log| - 1], NumbersOf(log[..|log| - 1], owner);
      if e.owner == owner && e.queued then before + [e.seqNumber] else before
  }

  /** How many of n numbers are still tracked in an array of the given size that is emptied when it is full. */
  function StillTracked(n: nat, size: nat): (k: nat)
    ensures k <= n && (n > 0 ==> k > 0) && (size > 0 ==> k <= size)
  {
    if size == 0 || n <= size then n else StillTracked(n - size, size)
  }

  lemma {:induction false} OneMoreTracked(n: nat, size: nat)
    requires n > 0 && size > 0
    ensures StillTracked(n + 1, size) == if StillTracked(n, size) == size then 1 else StillTracked(n, size) + 1
  {
    if n > size {
      OneMoreTracked(n - size, size);
    }
  }

  lemma FarFromZero(d: int, size: int)
    requires size > 0
    ensures (d >= 1 ==> d * size >= size) && (d <= -1 ==> d * size <= -size)
  {
  }

  lemma Multiples(d: int, size: nat, x: int, y: int)
    requires size > 0 && d * size == x - y && 0 <= x < size && 0 <= y < size
    ensures d == 0
  {
    FarFromZero(d, size);
  }

  lemma OneTurnLess(n: nat, size: nat)
    requires n >= size > 0
    ensures n % size == (n - size) % size
  {
    var q, q1, x, x1 := n / size, (n - size) / size, n % size, (n - size) % size;
    assert n == q * size + x && n - size == q1 * size + x1;
    assert (q1 + 1 - q) * size == q1 * size + size - q * size;
    Multiples(q1 + 1 - q, size, x, x1);
  }

  /** They are those sent since the array was emptied last. */
  lemma {:induction false} StillTrackedIs(n: nat, size: nat)
    requires n > 0 && size > 0
    ensures StillTracked(n, size) == (n - 1) % size + 1
  {
    if n > size {
      StillTrackedIs(n - size, size);
      OneTurnLess(n - 1, size);
    }
  }

  /** A record tracks the last of the numbers it was sent with in its epoch, all of them until the array is full. */
  ghost predicate RecOk(h: Trace, r: Rec, rnSize: nat) {
    var sent := NumbersOf(h.log, r.id);
    && r.id < h.nextId && sent != []
    && r.tracked == sent[|sent| - StillTracked(|sent|, rnSize)..]
    && (forall i :: 0 <= i < |r.tracked| ==> UsedBy(h.log, r, r.tracked[i]))
  }

  ghost predicate RtxOk(h: Trace, rtx: seq<Rec>, rnSize: nat) {
    && (forall i :: 0 <= i < |rtx| ==> RecOk(h, rtx[i], rnSize))
    && (forall i, j :: 0 <= i < j < |rtx| ==> rtx[i].id != rtx[j].id)
    && (forall k :: 0 <= k < |h.log| ==> h.log[k].owner < h.nextId)
  }

  ghost predicate Inv(s: State) {
    && WellFormed(s)
    && s.rnSize > 0
    && NumbersOk(s.table.slots, s.trace)
    && Gapless(s.table.slots, s.trace)
    && RtxOk(s.trace, s.rtx, s.rnSize)
  }

  // ----- one number ----------------------------------------------------------------------------

  lemma TakeSeqCounters(t: Table, n: word64)
    requires Valid(t)
    ensures Valid(TakeSeq(t))
    ensures Find(TakeSeq(t).slots, n) == Find(t.slots, n)
    ensures LiveCounter(TakeSeq(t).slots, n)
         == if n == SendingEpoch(t) then Increment64(NextSeq(t)) else LiveCounter(t.slots, n)
    ensures LiveCounter(t.slots, SendingEpoch(t)) == NextSeq(t)
  {
    var u := TakeSeq(t);
    assert forall i :: 0 <= i < |t.slots| ==>
      u.slots[i].epochNumber == t.slots[i].epochNumber && u.slots[i].isValid == t.slots[i].isValid;
    FindIs(t.slots, t.enc);
    if Find(t.slots, n) >= 0 {
      FindIs(u.slots, Find(t.slots, n));
    }
  }

  /** From numbers that do not repeat, the next one repeats none exactly if its epoch's counter was not lost. */
  lemma NumberStaysUnique(s: State, owner: int, payload: Payload, plain: bool, wire: Wire)
    requires Valid(s.table) && NumbersOk(s.table.slots, s.trace) && Gapless(s.table.slots, s.trace)
    requires NumbersUnique(s.trace.log) && wire != FailedEarly
    ensures NumbersUnique(Emit(s, owner, payload, plain, wire).1.trace.log) <==> SendingEpoch(s.table) !in s.trace.spent
  {
    var e, q := SendingEpoch(s.table), NextSeq(s.table);
    var log := Emit(s, owner, payload, plain, wire).1.trace.log;
    TakeSeqCounters(s.table, e);
    assert log[|s.trace.log|].epoch == e && log[|s.trace.log|].seqNumber == q;
    assert forall k :: 0 <= k < |s.trace.log| ==> log[k] == s.trace.log[k];
    if e in s.trace.spent {
      assert HandedOut(s.trace.log, e, 0);
    }
  }

  /** The new number is stale exactly if its epoch's counter was lost; the others are as stale as they were. */
  lemma EmitStale(s: State, owner: int, payload: Payload, plain: bool, wire: Wire)
    requires s.table.enc < |s.table.slots|
    requires forall n :: n in s.trace.spent ==> s.trace.spent[n] <= |s.trace.log|
    requires wire != FailedEarly
    ensures NoneStale(Emit(s, owner, payload, plain, wire).1.trace)
        <==> NoneStale(s.trace) && SendingEpoch(s.table) !in s.trace.spent
  {
    var h := Emit(s, owner, payload, plain, wire).1.trace;
    assert forall k :: 0 <= k < |s.trace.log| ==> h.log[k] == s.trace.log[k] && (Stale(h, k) <==> Stale(s.trace, k));
    assert Stale(h, |s.trace.log|) <==> SendingEpoch(s.table) in s.trace.spent;
  }

  lemma PrefixUnique(log: seq<Entry>, e: Entry)
    requires NumbersUnique(log + [e])
    ensures NumbersUnique(log)
  {
    assert forall k :: 0 <= k < |log| ==> log[k] == (log + [e])[k];
  }

  lemma EmitKeepsNumbers(s: State, owner: int, payload: Payload, plain: bool, wire: Wire)
    requires Valid(s.table) && NumbersOk(s.table.slots, s.trace) && Gapless(s.table.slots, s.trace)
    ensures var s1 := Emit(s, owner, payload, plain, wire).1;
      Valid(s1.table) && NumbersOk(s1.table.slots, s1.trace)
  {
    if wire != FailedEarly {
      var s1 := Emit(s, owner, payload, plain, wire).1;
      var e := Entry(SendingEpoch(s.table), NextSeq(s.table), owner, EmitRet(s.table, plain, wire).Queued(), payload);
      assert s1.trace.log == s.trace.log + [e];
      EmitStale(s, owner, payload, plain, wire);
      if NumbersUnique(s.trace.log) {
        NumberStaysUnique(s, owner, payload, plain, wire);
      }
      if NumbersUnique(s1.trace.log) {
        PrefixUnique(s.trace.log, e);
      }
      TakeSeqCounters(s.table, e.epoch);
      EmitKeepsBounds(s, s1, e);
    }
  }

  lemma EmitKeepsBounds(s: State, s1: State, e: Entry)
    requires Valid(s.table) && NumbersOk(s.table.slots, s.trace)
    requires e.epoch == SendingEpoch(s.table) && e.seqNumber == NextSeq(s.table)
    requires s1.table == TakeSeq(s.table) && s1.trace.log == s.trace.log + [e]
    requires s1.trace.spent ==
      if e.seqNumber == TWO_64 - 1 then s1.trace.(spent := s.trace.spent).Spend(e.epoch).spent else s.trace.spent
    ensures forall k :: 0 <= k < |s1.trace.log| ==>
      s1.trace.log[k].epoch in s1.trace.spent || Below(s1.table.slots, s1.trace.log[k].epoch, s1.trace.log[k].seqNumber)
    ensures NumbersUnique(s.trace.log) && e.epoch !in s.trace.spent ==>
      forall n :: n in s1.trace.spent ==> LiveCounter(s1.table.slots, n) == 0
  {
    hide NumbersUnique, NoneStale;
    forall k | 0 <= k < |s1.trace.log|
      ensures s1.trace.log[k].epoch in s1.trace.spent
           || Below(s1.table.slots, s1.trace.log[k].epoch, s1.trace.log[k].seqNumber)
    {
      TakeSeqCounters(s.table, s1.trace.log[k].epoch);
    }
    if NumbersUnique(s.trace.log) && e.epoch !in s.trace.spent {
      forall n | n in s1.trace.spent ensures LiveCounter(s1.table.slots, n) == 0 {
        TakeSeqCounters(s.table, n);
      }
    }
  }

  lemma HandedOutGrows(log: seq<Entry>, e: Entry, n: word64, q: int)
    ensures HandedOut(log, n, q) ==> HandedOut(log + [e], n, q)
    ensures HandedOut(log + [e], e.epoch, e.seqNumber)
  {
    var l := log + [e];
    assert l[|log|] == e;
    assert forall k :: 0 <= k < |log| ==> l[k] == log[k];
  }

  lemma EmitKeepsGapless(s: State, owner: int, payload: Payload, plain: bool, wire: Wire)
    requires Valid(s.table) && Gapless(s.table.slots, s.trace)
    ensures var s1 := Emit(s, owner, payload, plain, wire).1; Gapless(s1.table.slots, s1.trace)
  {
    var s1 := Emit(s, owner, payload, plain, wire).1;
    if wire != FailedEarly {
      var e := Entry(SendingEpoch(s.table), NextSeq(s.table), owner, EmitRet(s.table, plain, wire).Queued(), payload);
      assert s1.trace.log == s.trace.log + [e];
      forall i, q | 0 <= i < |s1.table.slots| && s1.table.slots[i].isValid && 0 <= q < s1.table.slots[i].nextSeq
        ensures HandedOut(s1.trace.log, s1.table.slots[i].epochNumber, q)
      {
        HandedOutGrows(s.trace.log, e, s1.table.slots[i].epochNumber, q);
      }
      TakeSeqCounters(s.table, e.epoch);
      forall n | n in s1.trace.spent ensures HandedOut(s1.trace.log, n, 0) {
        assert n in s.trace.spent
            || (n == e.epoch && HandedOut(s.trace.log, s.table.slots[s.table.enc].epochNumber, 0));
        HandedOutGrows(s.trace.log, e, n, 0);
      }
    }
  }

  /** A longer log: what was used stays used, and only the owner of the new entry has a new latest number. */
  lemma LogGrows(log: seq<Entry>, e: Entry, r: Rec, q: word64)
    ensures UsedBy(log, r, q) ==> UsedBy(log + [e], r, q)
    ensures e == Entry(r.epoch, q, r.id, true, Handshake(r.hsType, r.frag)) ==> UsedBy(log + [e], r, q)
    ensures NumbersOf(log + [e], r.id)
         == NumbersOf(log, r.id) + if e.owner == r.id && e.queued then [e.seqNumber] else []
  {
    var l := log + [e];
    assert l[..|l| - 1] == log && l[|l| - 1] == e;
  }

  lemma RecSurvives(h: Trace, e: Entry, h1: Trace, r: Rec, rnSize: nat)
    requires RecOk(h, r, rnSize) && h1.log == h.log + [e] && h1.nextId >= h.nextId
    requires e.owner != r.id || !e.queued
    ensures RecOk(h1, r, rnSize)
  {
    LogGrows(h.log, e, r, 0);
    forall i | 0 <= i < |r.tracked| ensures UsedBy(h1.log, r, r.tracked[i]) {
      LogGrows(h.log, e, r, r.tracked[i]);
    }
  }

  /** Emitting a record that is not on the list, or that is not queued, leaves every record's tracking right. */
  lemma EmitKeepsRtx(s: State, owner: int, payload: Payload, plain: bool, wire: Wire)
    requires s.table.enc < |s.table.slots|
    requires RtxOk(s.trace, s.rtx, s.rnSize) && owner < s.trace.nextId
    requires EmitRet(s.table, plain, wire).Queued() ==> forall i :: 0 <= i < |s.rtx| ==> s.rtx[i].id != owner
    ensures var s1 := Emit(s, owner, payload, plain, wire).1; RtxOk(s1.trace, s1.rtx, s1.rnSize)
  {
    var s1 := Emit(s, owner, payload, plain, wire).1;
    if wire != FailedEarly {
      var e := s1.trace.log[|s.trace.log|];
      forall i | 0 <= i < |s.rtx| ensures RecOk(s1.trace, s.rtx[i], s.rnSize) {
        RecSurvives(s.trace, e, s1.trace, s.rtx[i], s.rnSize);
      }
    }
  }

  lemma ListGrows(h: Trace, rtx: seq<Rec>, r: Rec, rnSize: nat)
    requires RtxOk(h, rtx, rnSize) && RecOk(h, r, rnSize)
    requires forall i :: 0 <= i < |rtx| ==> rtx[i].id != r.id
    ensures RtxOk(h, rtx + [r], rnSize)
  {
  }

  lemma ListStarts(h: Trace, r: Rec, rtx: seq<Rec>, rnSize: nat)
    requires RtxOk(h, rtx, rnSize) && RecOk(h, r, rnSize)
    requires forall i :: 0 <= i < |rtx| ==> rtx[i].id != r.id
    ensures RtxOk(h, [r] + rtx, rnSize)
  {
    var l := [r] + rtx;
    assert forall i :: 0 < i < |l| ==> l[i] == rtx[i - 1];
  }

  /** The entry that a queued record appends. */
  lemma EmitAppends(s: State, owner: int, payload: Payload, plain: bool, wire: Wire)
    requires s.table.enc < |s.table.slots|
    requires EmitRet(s.table, plain, wire).Queued()
    ensures Emit(s, owner, payload, plain, wire).1.trace.log
         == s.trace.log + [Entry(SendingEpoch(s.table), NextSeq(s.table), owner, true, payload)]
  {
  }

  /** A queued fragment joins the list tracking exactly the number it was sent with. */
  /** A new record has not been sent yet. */
  lemma {:induction false} NothingSent(log: seq<Entry>, id: int)
    requires forall k :: 0 <= k < |log| ==> log[k].owner != id
    ensures NumbersOf(log, id) == []
  {
    if log != [] {
      NothingSent(log[..|log| - 1], id);
    }
  }

  lemma NewRecOk(h: Trace, h1: Trace, r: Rec, rnSize: nat)
    requires rnSize > 0 && r.id < h1.nextId && |r.tracked| == 1
    requires forall k :: 0 <= k < |h.log| ==> h.log[k].owner != r.id
    requires h1.log == h.log + [Entry(r.epoch, r.tracked[0], r.id, true, Handshake(r.hsType, r.frag))]
    ensures RecOk(h1, r, rnSize)
  {
    LogGrows(h.log, Entry(r.epoch, r.tracked[0], r.id, true, Handshake(r.hsType, r.frag)), r, r.tracked[0]);
    NothingSent(h.log, r.id);
    assert NumbersOf(h1.log, r.id) == [r.tracked[0]];
  }

  lemma SendOneFragmentKeepsRtx(s: State, hsType: HandshakeType, frag: Fragment, wire: Wire)
    requires s.table.enc < |s.table.slots| && s.rnSize > 0
    requires RtxOk(s.trace, s.rtx, s.rnSize)
    ensures var s1 := SendOneFragment(s, hsType, frag, wire).1; RtxOk(s1.trace, s1.rtx, s1.rnSize)
  {
    var plain, payload := !IsEncrypted(hsType), Handshake(hsType, frag);
    if hsType == HELLO_RETRY_REQUEST {
      EmitKeepsRtx(s, -1, payload, plain, wire);
    } else {
      var id := s.trace.nextId;
      var s0 := s.(trace := s.trace.(nextId := id + 1));
      var e := Emit(s0, id, payload, plain, wire).1;
      EmitKeepsRtx(s0, id, payload, plain, wire);
      assert SendOneFragment(s, hsType, frag, wire).1.trace == e.trace;
      if EmitRet(s.table, plain, wire).Queued() {
        EmitAppends(s0, id, payload, plain, wire);
        var r := Rec(id, SendingEpoch(s.table), hsType, frag, [NextSeq(s.table)]);
        NewRecOk(s.trace, e.trace, r, s.rnSize);
        hide RecOk, RtxOk, Emit;
        ListGrows(e.trace, s.rtx, r, s.rnSize);
      }
    }
  }

  lemma NumbersFrame(slots: seq<Slot>, h: Trace, h1: Trace)
    requires h1 == h.(nextId := h1.nextId)
    ensures NumbersOk(slots, h1) == NumbersOk(slots, h) && Gapless(slots, h1) == Gapless(slots, h)
  {
    assert forall k :: 0 <= k < |h.log| ==> (Stale(h1, k) <==> Stale(h, k));
  }

  lemma SendOneFragmentKeeps(s: State, hsType: HandshakeType, frag: Fragment, wire: Wire)
    requires Inv(s)
    ensures Inv(SendOneFragment(s, hsType, frag, wire).1)
  {
    hide Emit, EmitRet, IsEncrypted, RtxOk, NumbersOk, Gapless;
    var owner := if hsType == HELLO_RETRY_REQUEST then -1 else s.trace.nextId;
    var s0 := Emit(s, owner, Handshake(hsType, frag), !IsEncrypted(hsType), wire).1;
    var s1 := SendOneFragment(s, hsType, frag, wire).1;
    SendOneFragmentKeepsRtx(s, hsType, frag, wire);
    EmitKeepsGapless(s, owner, Handshake(hsType, frag), !IsEncrypted(hsType), wire);
    EmitKeepsNumbers(s, owner, Handshake(hsType, frag), !IsEncrypted(hsType), wire);
    assert s1 == s0.(rtx := s1.rtx, trace := s0.trace.(nextId := s1.trace.nextId));
    NumbersFrame(s0.table.slots, s0.trace, s1.trace);
  }

  // ----- loops -----------------------------------------------------------------------------------

  lemma SwitchKeeps(s: State, n: word64, side: Side)
    requires Inv(s) && side != NoSide
    ensures Inv(s.(table := SwitchTo(s.table, n).1))
    ensures Inv(s.(table := UseKeys(s.table, n, side).1))
  {
  }

  lemma NotedKeeps(s: State, f: Fragment, b: FragBuffer)
    requires Inv(s) && (b.Pending? ==> b.offset <= |b.message|)
    ensures Inv(s.(buffer := b, output := Noted(s.output, f)))
  {
  }

  lemma FragmentTurnKeeps(s: State, maxFrag: nat, attempt: Attempt)
    requires Inv(s) && s.buffer.Pending? && s.buffer.offset < |s.buffer.message|
    requires maxFrag > HeadersLength(s.cidSize, s.buffer.hsType)
    ensures Inv(FragmentTurn(s, maxFrag, attempt).1)
  {
    hide SendOneFragment;
    if attempt.Build? {
      var f := NextFragment(s, maxFrag);
      SendOneFragmentKeeps(s, s.buffer.hsType, f, attempt.wire);
      NotedKeeps(SendOneFragment(s, s.buffer.hsType, f, attempt.wire).1, f,
                 s.buffer.(offset := s.buffer.offset + |f.body|));
    }
  }

  lemma {:induction false} SendPendingKeeps(s: State, maxFrag: nat, plan: seq<Attempt>)
    requires Inv(s) && s.buffer.Pending?
    requires maxFrag > HeadersLength(s.cidSize, s.buffer.hsType)
    ensures Inv(SendPending(s, maxFrag, plan).1)
    decreases |s.buffer.message| - s.buffer.offset
  {
    hide FragmentTurn;
    if s.buffer.offset < |s.buffer.message| {
      FragmentTurnKeeps(s, maxFrag, FirstAttempt(plan));
      var (ret, s1) := FragmentTurn(s, maxFrag, FirstAttempt(plan));
      if ret.Ok? {
        SendPendingKeeps(s1, maxFrag, Rest(plan));
      }
    }
  }

  lemma SendWholeKeeps(s: State, hsType: HandshakeType, body: seq<byte>, wire: Wire)
    requires Inv(s)
    ensures Inv(SendWhole(s, hsType, body, wire).1)
  {
    var f := Fragment(s.hsNumber, |body|, 0, body);
    SendOneFragmentKeeps(s, hsType, f, wire);
  }

  lemma ContinueFragmentsKeeps(s: State, maxFrag: nat, plan: seq<Attempt>)
    requires Inv(s) && s.buffer.Pending?
    requires maxFrag > HeadersLength(s.cidSize, s.buffer.hsType)
    ensures Inv(ContinueFragments(s, maxFrag, plan).1)
  {
    SendPendingKeeps(s, maxFrag, plan);
  }

  lemma SendFragmentedKeeps(s: State, hsType: HandshakeType, body: seq<byte>, maxFrag: nat, plan: seq<Attempt>)
    requires Inv(s) && maxFrag > HeadersLength(s.cidSize, hsType)
    ensures Inv(SendFragmented(s, hsType, body, maxFrag, plan).1)
  {
    if s.buffer.Idle? {
      ContinueFragmentsKeeps(TakenOn(s, hsType, body), maxFrag, plan);
    }
  }

  lemma HandshakeSendKeeps(s: State, hsType: HandshakeType, body: seq<byte>, maxFrag: nat, wire: Wire,
                           plan: seq<Attempt>)
    requires Inv(s) && maxFrag > HeadersLength(s.cidSize, hsType)
    ensures Inv(HandshakeSend(s, hsType, body, maxFrag, wire, plan).1)
  {
    var (ok, t) := SwitchTo(s.table, s.table.sendEpoch);
    var s1 := s.(table := t, waitKeyUpdateAck := s.waitKeyUpdateAck || hsType == KEY_UPDATE);
    var s2 := HandshakeSend(s, hsType, body, maxFrag, wire, plan).1;
    SwitchKeeps(s, s.table.sendEpoch, EncryptOnly);
    assert Inv(s1);
    if ok && HeadersLength(s.cidSize, hsType) + |body| < maxFrag {
      SendWholeKeeps(s1, hsType, body, wire);
      assert s2 == SendWhole(s1, hsType, body, wire).1;
    } else if ok {
      SendFragmentedKeeps(s1, hsType, body, maxFrag, plan);
      assert s2 == SendFragmented(s1, hsType, body, maxFrag, plan).1;
    } else {
      assert s2 == s;
    }
  }

  /** Replacing one record by another with the same id. */
  lemma ListUpdated(h: Trace, rtx: seq<Rec>, i: nat, r: Rec, rnSize: nat)
    requires i < |rtx| && r.id == rtx[i].id && RecOk(h, r, rnSize)
    requires forall j :: 0 <= j < |rtx| && j != i ==> RecOk(h, rtx[j], rnSize)
    requires forall j, k :: 0 <= j < k < |rtx| ==> rtx[j].id != rtx[k].id
    requires forall k :: 0 <= k < |h.log| ==> h.log[k].owner < h.nextId
    ensures RtxOk(h, rtx[i := r], rnSize)
  {
  }

  lemma ListReordered(h: Trace, rtx: seq<Rec>, i: nat, rnSize: nat)
    requires i < |rtx| && RtxOk(h, rtx, rnSize)
    ensures RtxOk(h, RemoveAt(rtx, i), rnSize)
    ensures RtxOk(h, MovedToEnd(rtx, i), rnSize)
  {
    var ws := RemoveAt(rtx, i);
    assert forall j, k :: 0 <= j < k < |ws| ==> ws[j].id != ws[k].id;
    forall j | 0 <= j < |ws| ensures ws[j].id != rtx[i].id && RecOk(h, ws[j], rnSize) {
    }
    ListGrows(h, ws, rtx[i], rnSize);
  }

  /** After a retransmission the record tracks the number just used, and nothing it did not use. */
  lemma TrackKeeps(h: Trace, h1: Trace, e: Entry, r: Rec, rnSize: nat)
    requires RecOk(h, r, rnSize) && h1.log == h.log + [e] && h1.nextId == h.nextId && rnSize > 0
    requires e == Entry(r.epoch, e.seqNumber, r.id, true, Handshake(r.hsType, r.frag))
    ensures RecOk(h1, r.(tracked := Track(r.tracked, rnSize, e.seqNumber)), rnSize)
  {
    var r1 := r.(tracked := Track(r.tracked, rnSize, e.seqNumber));
    LogGrows(h.log, e, r, 0);
    var sent, n := NumbersOf(h.log, r.id), |NumbersOf(h.log, r.id)|;
    OneMoreTracked(n, rnSize);
    assert r1.tracked == (sent + [e.seqNumber])[n + 1 - StillTracked(n + 1, rnSize)..];
    forall i | 0 <= i < |r1.tracked| ensures UsedBy(h1.log, r1, r1.tracked[i]) {
      LogGrows(h.log, e, r, r1.tracked[i]);
    }
  }

  lemma RetransmitTracks(s: State, i: nat, h1: Trace, e: Entry)
    requires RtxOk(s.trace, s.rtx, s.rnSize) && i < |s.rtx| && s.rnSize > 0
    requires h1.log == s.trace.log + [e] && h1.nextId == s.trace.nextId
    requires e == Entry(s.rtx[i].epoch, e.seqNumber, s.rtx[i].id, true, Handshake(s.rtx[i].hsType, s.rtx[i].frag))
    ensures var rs := s.rtx[i := s.rtx[i].(tracked := Track(s.rtx[i].tracked, s.rnSize, e.seqNumber))];
      RtxOk(h1, rs, s.rnSize) && RtxOk(h1, MovedToEnd(rs, i), s.rnSize)
  {
    var r1 := s.rtx[i].(tracked := Track(s.rtx[i].tracked, s.rnSize, e.seqNumber));
    TrackKeeps(s.trace, h1, e, s.rtx[i], s.rnSize);
    forall j | 0 <= j < |s.rtx| && j != i ensures RecOk(h1, s.rtx[j], s.rnSize) {
      RecSurvives(s.trace, e, h1, s.rtx[j], s.rnSize);
    }
    ListUpdated(h1, s.rtx, i, r1, s.rnSize);
    ListReordered(h1, s.rtx[i := r1], i, s.rnSize);
  }

  lemma RetransmitOneKeeps(s: State, i: nat, wire: Wire)
    requires Inv(s) && i < |s.rtx|
    ensures Inv(RetransmitOne(s, i, wire).1)
  {
    hide IsEncrypted, SendingEpoch, TakeSeq;
    var r := s.rtx[i];
    var (ok, t) := SwitchTo(s.table, r.epoch);
    if ok {
      var st := s.(table := t);
      SwitchKeeps(s, r.epoch, EncryptOnly);
      var payload, plain := Handshake(r.hsType, r.frag), !IsEncrypted(r.hsType);
      EmitKeepsNumbers(st, r.id, payload, plain, wire);
      EmitKeepsGapless(st, r.id, payload, plain, wire);
      if EmitRet(t, plain, wire).Queued() {
        EmitAppends(st, r.id, payload, plain, wire);
        RetransmitTracks(s, i, Emit(st, r.id, payload, plain, wire).1.trace,
                         Entry(r.epoch, NextSeq(t), r.id, true, payload));
      } else {
        EmitKeepsRtx(st, r.id, payload, plain, wire);
      }
    }
  }

  lemma InvHasKeys(s: State)
    requires Inv(s)
    ensures s.table.enc < |s.table.slots|
  {
  }

  lemma {:induction false} RetransmitKeeps(s: State, i: nat, plan: seq<Attempt>)
    requires Inv(s)
    ensures Inv(Retransmit(s, i, plan).1)
    decreases |s.rtx| - i
  {
    hide RetransmitOne, Inv;
    InvHasKeys(s);
    if i < |s.rtx| && FirstAttempt(plan).Build? {
      RetransmitOneKeeps(s, i, FirstAttempt(plan).wire);
      RetransmitKeeps(RetransmitOne(s, i, FirstAttempt(plan).wire).1, i + 1, Rest(plan));
    }
  }

  // ----- installations and acknowledgements --------------------------------------------------------

  lemma InstallKeepsGapless(s: State, n: word64, side: Side)
    requires Inv(s) && side != NoSide
    ensures var s1 := InstallEpoch(s, n, side).1; Gapless(s1.table.slots, s1.trace)
  {
    hide NumbersOk, RtxOk, Install;
    if SlotFor(s.table, n) >= 0 {
      InstallSlots(s.table, n, side);
      hide Filled, SlotFor;
      var t := Install(s.table, n, side).1;
      forall i, q | 0 <= i < |t.slots| && t.slots[i].isValid && 0 <= q < t.slots[i].nextSeq
        ensures HandedOut(s.trace.log, t.slots[i].epochNumber, q)
      {
        FilledCounter(s.table, n, side);
        assert s.table.slots[i].isValid && s.table.slots[i].epochNumber == t.slots[i].epochNumber
            && s.table.slots[i].nextSeq == t.slots[i].nextSeq;
      }
    } else {
      InstallKeeps(s.table, n, side);
    }
  }

  /** A slot that is refilled starts at zero, or goes on as the same epoch. */
  lemma FilledCounter(t: Table, n: word64, side: Side)
    requires SlotFor(t, n) >= 0
    ensures var s := Filled(t, n, side);
      s.nextSeq > 0 ==> t.slots[SlotFor(t, n)].isValid && s.epochNumber == t.slots[SlotFor(t, n)].epochNumber
                        && s.nextSeq == t.slots[SlotFor(t, n)].nextSeq
  {
  }

  /** A number handed out before the counter is lost does not become stale. */
  lemma RetireStale(h: Trace, t: Table, n: word64)
    ensures NoneStale(Retire(h, t, n)) == NoneStale(h)
  {
    var h1 := Retire(h, t, n);
    assert forall k :: 0 <= k < |h.log| ==> (Stale(h1, k) <==> Stale(h, k));
  }

  lemma InstallKeepsBounds(s: State, n: word64, side: Side)
    requires Inv(s) && side != NoSide && SlotFor(s.table, n) >= 0
    ensures var t := Install(s.table, n, side).1; var h := Retire(s.trace, s.table, n);
      forall k :: 0 <= k < |h.log| ==> h.log[k].epoch in h.spent || Below(t.slots, h.log[k].epoch, h.log[k].seqNumber)
  {
    hide NumbersUnique, NoneStale, Install, Gapless, RtxOk;
    var t, h := Install(s.table, n, side).1, Retire(s.trace, s.table, n);
    forall k | 0 <= k < |h.log| && h.log[k].epoch !in h.spent
      ensures Below(t.slots, h.log[k].epoch, h.log[k].seqNumber)
    {
      assert Below(s.table.slots, h.log[k].epoch, h.log[k].seqNumber);
      InstallCounters(s.table, n, side, h.log[k].epoch);
    }
  }

  lemma InstallKeepsNumbers(s: State, n: word64, side: Side)
    requires Inv(s) && side != NoSide
    ensures var s1 := InstallEpoch(s, n, side).1; NumbersOk(s1.table.slots, s1.trace)
  {
    hide NumbersUnique, NoneStale, Install, Gapless, RtxOk;
    var (ok, t) := Install(s.table, n, side);
    var h := Retire(s.trace, s.table, n);
    InstallKeeps(s.table, n, side);
    RetireStale(s.trace, s.table, n);
    if ok {
      InstallKeepsBounds(s, n, side);
      forall m | m in h.spent && NumbersUnique(h.log) ensures LiveCounter(t.slots, m) == 0 {
        EvictedCounter(s.table, n, side, m);
      }
    }
  }

  /** An installation leaves an epoch's counter alone or loses it together with the epoch. */
  lemma EvictedCounter(t: Table, n: word64, side: Side, m: word64)
    requires Valid(t) && side != NoSide && SlotFor(t, n) >= 0
    ensures var u := Install(t, n, side).1;
      LiveCounter(u.slots, m) == if m != n && Find(t.slots, m) == SlotFor(t, n) then 0 else LiveCounter(t.slots, m)
  {
    if m == n || (Find(t.slots, m) >= 0 && Find(t.slots, m) != SlotFor(t, n)) {
      InstallCounters(t, n, side, m);
    } else {
      EvictedIsGone(t, n, side, m);
    }
    hide Install, SlotFor, Find;
  }

  lemma EvictedIsGone(t: Table, n: word64, side: Side, m: word64)
    requires Valid(t) && side != NoSide && SlotFor(t, n) >= 0
    requires m != n && (Find(t.slots, m) < 0 || Find(t.slots, m) == SlotFor(t, n))
    ensures Find(Install(t, n, side).1.slots, m) < 0
  {
    InstallSlots(t, n, side);
    hide Install, Filled;
    var u := Install(t, n, side).1;
    forall i | 0 <= i < |u.slots| ensures !(u.slots[i].isValid && u.slots[i].epochNumber == m) {
      if i != SlotFor(t, n) && t.slots[i].isValid {
        FindIs(t.slots, i);
      }
    }
  }

  lemma InstallKeepsInv(s: State, n: word64, side: Side)
    requires Inv(s) && side != NoSide
    ensures Inv(InstallEpoch(s, n, side).1)
  {
    hide NumbersOk, Gapless, Install;
    InstallKeeps(s.table, n, side);
    InstallKeepsGapless(s, n, side);
    InstallKeepsNumbers(s, n, side);
  }

  lemma {:induction false} SublistIn(rtx: seq<Rec>, p: Rec -> bool, i: nat)
    requires i < |Filter(rtx, p)|
    ensures Filter(rtx, p)[i] in rtx
  {
    if !p(rtx[0]) {
      SublistIn(rtx[1..], p, i);
    } else if i > 0 {
      SublistIn(rtx[1..], p, i - 1);
    }
  }

  lemma {:induction false} SublistKeeps(h: Trace, rtx: seq<Rec>, p: Rec -> bool, rnSize: nat)
    requires RtxOk(h, rtx, rnSize)
    ensures RtxOk(h, Filter(rtx, p), rnSize)
  {
    if rtx != [] {
      var tail := Filter(rtx[1..], p);
      SublistKeeps(h, rtx[1..], p, rnSize);
      if p(rtx[0]) {
        forall i | 0 <= i < |tail| ensures tail[i].id != rtx[0].id {
          SublistIn(rtx[1..], p, i);
        }
        ListStarts(h, rtx[0], tail, rnSize);
      }
    }
  }

  lemma {:induction false} RemoveEachKeeps(h: Trace, rtx: seq<Rec>, rns: seq<RecordNumber>, rnSize: nat)
    requires RtxOk(h, rtx, rnSize)
    ensures RtxOk(h, RemoveEach(rtx, rns), rnSize)
    decreases |rns|
  {
    if rns != [] {
      var p := (r: Rec) => r.IsTrackedBy(rns[0]);
      var k := WithoutFirstSplits(rtx, p);
      if k < |rtx| {
        ListReordered(h, rtx, k, rnSize);
      }
      RemoveEachKeeps(h, WithoutFirst(rtx, p), rns[1..], rnSize);
    }
  }

  lemma KeyUpdateAckedKeeps(s: State, derived: bool)
    requires Inv(s)
    ensures Inv(KeyUpdateAcked(s, derived).1)
  {
    hide Inv, InstallEpoch, UseKeys;
    var n := Increment64(s.table.sendEpoch);
    InstallKeepsInv(s, n, EncryptOnly);
    var s1 := InstallEpoch(s, n, EncryptOnly).1;
    AdoptionKeeps(s1, n);
    SwitchKeeps(s1.(table := s1.table.(sendEpoch := n)), n, EncryptOnly);
  }

  lemma ReceiveAckKeeps(s: State, rns: seq<RecordNumber>, derived: bool)
    requires Inv(s)
    ensures Inv(ReceiveAck(s, rns, derived).1)
  {
    RemoveEachKeeps(s.trace, s.rtx, rns, s.rnSize);
    var s1 := s.(rtx := RemoveEach(s.rtx, rns));
    var s2 := s1.(waitKeyUpdateAck := false);
    if s1.waitKeyUpdateAck && !HasKeyUpdate(s1.rtx) {
      KeyUpdateAckedKeeps(s2, derived);
    } else {
    }
  }

  lemma SendOtherKeeps(s: State, attempt: Attempt)
    requires Inv(s)
    ensures Inv(SendOther(s, attempt).1)
  {
    hide Emit, RtxOk, NumbersOk, Gapless;
    if attempt.Build? {
      var plain := SendingEpoch(s.table) == 0;
      EmitKeepsNumbers(s, -1, Other, plain, attempt.wire);
      EmitKeepsGapless(s, -1, Other, plain, attempt.wire);
      assert -1 < s.trace.nextId;
      assert forall i :: 0 <= i < |s.rtx| ==> s.rtx[i].id != -1;
      EmitKeepsRtx(s, -1, Other, plain, attempt.wire);
    }
  }

  lemma SendAckKeeps(s: State, attempt: Attempt)
    requires Inv(s)
    ensures Inv(SendAck(s, attempt).1)
  {
    assert s.table.enc < |s.table.slots|;
    hide SendOther, Inv;
    SwitchKeeps(s, DTLS13_EPOCH_HANDSHAKE, EncryptOnly);
    SwitchKeeps(s, s.table.sendEpoch, EncryptOnly);
    SendOtherKeeps(s.(table := SwitchForAck(s).1), attempt);
  }

  lemma SendDataKeeps(s: State, early: bool, attempt: Attempt)
    requires Inv(s)
    ensures Inv(SendData(s, early, attempt).1)
  {
    assert s.table.enc < |s.table.slots|;
    hide SendOther, Inv;
    SwitchKeeps(s, DTLS13_EPOCH_EARLYDATA, EncryptOnly);
    SwitchKeeps(s, s.table.sendEpoch, EncryptOnly);
    SendOtherKeeps(s.(table := UseKeys(s.table, DTLS13_EPOCH_EARLYDATA, EncryptOnly).1), attempt);
    SendOtherKeeps(s.(table := SwitchTo(s.table, s.table.sendEpoch).1), attempt);
  }

  lemma FlushKeeps(s: State, keepTickets: bool)
    requires Inv(s)
    ensures Inv(s.(rtx := Flushed(s.rtx, keepTickets)))
    ensures Inv(s.(rtx := WithoutFirst(s.rtx, (r: Rec) => r.hsType == CLIENT_HELLO)))
  {
    SublistKeeps(s.trace, s.rtx, (r: Rec) => keepTickets && r.hsType == SESSION_TICKET, s.rnSize);
    var k := WithoutFirstSplits(s.rtx, (r: Rec) => r.hsType == CLIENT_HELLO);
    if k < |s.rtx| {
      ListReordered(s.trace, s.rtx, k, s.rnSize);
    }
  }

  lemma AdoptionKeeps(s: State, n: word64)
    requires Inv(s)
    ensures Inv(s.(table := s.table.(sendEpoch := n)))
    ensures Inv(s.(table := s.table.(peerEpoch := n)))
    ensures Inv(s.(table := s.table.(handShakeDone := true)))
  {
  }

  lemma BookkeepingKeeps(s: State, op: Op)
    requires Inv(s) && Enabled(s, op)
    requires !op.SendMessage? && !op.ResumeMessage? && !op.SendAckOp? && !op.SendDataOp? && !op.RetransmitOp?
    ensures Inv(Step(s, op).1)
  {
    hide Inv, Flushed, WithoutFirst, InstallEpoch, ReceiveAck;
    match op
    case InstallOp(n, side) => InstallKeepsInv(s, n, side);
    case UseKeysOp(n, side) => SwitchKeeps(s, n, side);
    case AdoptSendEpoch(n) => AdoptionKeeps(s, n);
    case AdoptPeerEpoch(n) => AdoptionKeeps(s, n);
    case FinishHandshake => AdoptionKeeps(s, 0);
    case AckReceived(rns, derived) => ReceiveAckKeeps(s, rns, derived);
    case FlushOp(keepTickets) => FlushKeeps(s, keepTickets);
    case SaveClientHelloOp => FlushKeeps(s, false);
  }

  /** Every step keeps the invariant. */
  lemma StepKeeps(s: State, op: Op)
    requires Inv(s) && Enabled(s, op)
    ensures Inv(Step(s, op).1)
  {
    assert WellFormed(s);
    hide Inv, UseKeys, Flushed, WithoutFirst, InstallEpoch, HandshakeSend, ContinueFragments, SendAck, SendData,
         Retransmit, ReceiveAck;
    match op
    case SendMessage(hsType, body, maxFrag, wire, plan) => HandshakeSendKeeps(s, hsType, body, maxFrag, wire, plan);
    case ResumeMessage(maxFrag, plan) => ContinueFragmentsKeeps(s, maxFrag, plan);
    case SendAckOp(attempt) => SendAckKeeps(s, attempt);
    case SendDataOp(early, attempt) => SendDataKeeps(s, early, attempt);
    case RetransmitOp(plan) => RetransmitKeeps(s, 0, plan);
    case _ => BookkeepingKeeps(s, op);
  }

  // ----- whole runs ---------------------------------------------------------------------------------

  /** A run in which every step respects what its caller guarantees. */
  ghost predicate LegalRun(s: State, ops: seq<Op>)
    requires Inv(s)
    decreases |ops|
  {
    ops == [] || (Enabled(s, ops[0]) && LegalRun(Next(s, ops[0]), ops[1..]))
  }

  ghost function Next(s: State, op: Op): (s1: State)
    requires Inv(s) && Enabled(s, op)
    ensures Inv(s1)
  {
    StepKeeps(s, op);
    Step(s, op).1
  }

  ghost function Run(s: State, ops: seq<Op>): (s1: State)
    requires Inv(s) && LegalRun(s, ops)
    ensures Inv(s1)
    decreases |ops|
  {
    if ops == [] then s else Run(Next(s, ops[0]), ops[1..])
  }

  /** The state after InitSSL. */
  ghost function Start(epochs: nat, rnSize: nat, server: bool, cidSize: byte): (s: State)
    requires epochs > 0 && rnSize > 0
    ensures Inv(s)
  {
    InitialInv(epochs, rnSize, server, cidSize);
    Initial(epochs, rnSize, server, cidSize)
  }

  lemma InitialInv(epochs: nat, rnSize: nat, server: bool, cidSize: byte)
    requires epochs > 0 && rnSize > 0
    ensures Inv(Initial(epochs, rnSize, server, cidSize))
  {
    var s := Initial(epochs, rnSize, server, cidSize);
    assert s.table.slots[0].isValid && forall i :: 0 < i < epochs ==> s.table.slots[i] == ZEROED;
  }

  /** Over every run: no two records were given the same number if and only if no record was sent in an epoch
      whose counter had been lost before, because the epoch was thrown out after use or its counter wrapped. */
  lemma RecordNumbersNeverRepeat(epochs: nat, rnSize: nat, server: bool, cidSize: byte, ops: seq<Op>)
    requires epochs > 0 && rnSize > 0 && LegalRun(Start(epochs, rnSize, server, cidSize), ops)
    ensures var h := Run(Start(epochs, rnSize, server, cidSize), ops).trace;
      NumbersUnique(h.log) <==> NoneStale(h)
  {
  }

  /** While numbers do not repeat, the counter of a live epoch tells exactly which of its numbers have been
      handed out if and only if the counter was never lost. */
  lemma CounterIsExact(s: State, i: nat)
    requires Inv(s) && NumbersUnique(s.trace.log) && i < |s.table.slots| && s.table.slots[i].isValid
    ensures (forall q: word64 ::
               HandedOut(s.trace.log, s.table.slots[i].epochNumber, q) <==> q < s.table.slots[i].nextSeq)
       <==> s.table.slots[i].epochNumber !in s.trace.spent
  {
    var n := s.table.slots[i].epochNumber;
    FindIs(s.table.slots, i);
    if n in s.trace.spent {
      assert HandedOut(s.trace.log, n, 0) && !(0 < s.table.slots[i].nextSeq);
    } else {
      forall q: word64 ensures HandedOut(s.trace.log, n, q) <==> q < s.table.slots[i].nextSeq {
      }
    }
  }

  lemma OneOwner(log: seq<Entry>, r: Rec, r': Rec, q: word64)
    requires NumbersUnique(log) && UsedBy(log, r, q) && UsedBy(log, r', q) && r.epoch == r'.epoch
    ensures r.id == r'.id
  {
  }

  /** While numbers do not repeat, the records on the list track disjoint sets of them. */
  lemma ListTracksApart(s: State)
    requires Inv(s) && NumbersUnique(s.trace.log)
    ensures TracksApart(s.rtx)
  {
    forall i, j, rn | 0 <= i < j < |s.rtx| && s.rtx[i].IsTrackedBy(rn)
      ensures !s.rtx[j].IsTrackedBy(rn)
    {
      if rn.seqNumber in s.rtx[j].tracked && s.rtx[j].epoch == rn.epoch {
        OneOwner(s.trace.log, s.rtx[i], s.rtx[j], rn.seqNumber);
      }
    }
  }

  /** Section 7.2 of RFC 9147, after every run in which numbers do not repeat: an ACK leaves exactly the records that
      none of its numbers track, in order, and asks for a retransmission when some are left. */
  lemma AckLeavesTheUntracked(s: State, rns: seq<RecordNumber>, derived: bool)
    requires Inv(s) && NumbersUnique(s.trace.log)
    ensures var (ret, s1) := ReceiveAck(s, rns, derived);
      && s1.rtx == Filter(s.rtx, (r: Rec) => !r.IsTrackedByAny(rns))
      && (ret.Ok? ==> s1.retransmit == (s.retransmit || s1.rtx != []))
  {
    ListTracksApart(s);
    hide Inv;
    RemoveEachIsFilter(s.rtx, rns);
    AckRemoves(s, rns, derived);
  }

  lemma AckRemoves(s: State, rns: seq<RecordNumber>, derived: bool)
    ensures var (ret, s1) := ReceiveAck(s, rns, derived);
      s1.rtx == RemoveEach(s.rtx, rns) && (ret.Ok? ==> s1.retransmit == (s.retransmit || s1.rtx != []))
  {
    hide RemoveEach, HasKeyUpdate, Install, Retire, UseKeys;
  }

  /** Section 7.2 of RFC 9147, in every reachable state: of the n numbers with which a record was written or queued
      exactly the last (n - 1) % rnSize + 1 are tracked, the latest among them, and every one of them was really used
      for its fragment in its epoch. */
  lemma LatestTransmissionIsTracked(s: State, i: nat)
    requires Inv(s) && i < |s.rtx|
    ensures var r := s.rtx[i]; var sent := NumbersOf(s.trace.log, r.id); var n := |sent|;
      && n > 0 && (n - 1) % s.rnSize + 1 <= n
      && r.tracked == sent[n - ((n - 1) % s.rnSize + 1)..]
      && r.IsTrackedBy(RecordNumber(r.epoch, sent[n - 1]))
      && forall rn :: r.IsTrackedBy(rn) ==> rn.epoch == r.epoch && UsedBy(s.trace.log, r, rn.seqNumber)
  {
    var r := s.rtx[i];
    var sent := NumbersOf(s.trace.log, r.id);
    StillTrackedIs(|sent|, s.rnSize);
    assert r.tracked[|r.tracked| - 1] == sent[|sent| - 1];
  }

  /** In particular an ACK of any transmission names the record until it was sent more often than the array is long. */
  lemma FirstTransmissionsAreTracked(s: State, i: nat, k: nat)
    requires Inv(s) && i < |s.rtx|
    requires k < |NumbersOf(s.trace.log, s.rtx[i].id)| <= s.rnSize
    ensures s.rtx[i].IsTrackedBy(RecordNumber(s.rtx[i].epoch, NumbersOf(s.trace.log, s.rtx[i].id)[k]))
  {
  }

  // ----- counters that are lost ---------------------------------------------------------------------------

  /** An epoch brought back to decrypt is refused for sending, ... */
  lemma BroughtBackToDecrypt(s: State, n: word64)
    requires Inv(s) && n > 0 && Find(s.table.slots, n) < 0 && SlotFor(s.table, n) >= 0
    ensures !UseKeys(InstallEpoch(s, n, DecryptOnly).1.table, n, EncryptOnly).0
  {
    InstallSlots(s.table, n, DecryptOnly);
    InstallKeeps(s.table, n, DecryptOnly);
  }

  /** ... until an epoch at least two above it is installed to decrypt: then it is kept for encryption only, records
      can be sent in it again, and if its counter was lost the first of them repeats a number. */
  lemma SendingAgainRepeats(s: State, n: word64, m: word64)
    requires Inv(s) && NumbersUnique(s.trace.log) && s.table.handShakeDone && n + 1 < m
    requires Find(s.table.slots, n) >= 0 && SlotFor(s.table, m) >= 0 && SlotFor(s.table, m) != Find(s.table.slots, n)
    ensures var s1 := InstallEpoch(s, m, DecryptOnly).1; var (ok, t) := UseKeys(s1.table, n, EncryptOnly);
      && ok && (NumbersUnique(Emit(s1.(table := t), -1, Other, false, Sent).1.trace.log) <==> n !in s1.trace.spent)
  {
    hide NumbersOk, Gapless, RtxOk;
    var s1 := InstallEpoch(s, m, DecryptOnly).1;
    InstallSlots(s.table, m, DecryptOnly);
    InstallCounters(s.table, m, DecryptOnly, n);
    InstallKeepsInv(s, m, DecryptOnly);
    Demoted(s.table, n, m);
    SwitchKeeps(s1, n, EncryptOnly);
    NumberStaysUnique(s1.(table := UseKeys(s1.table, n, EncryptOnly).1), -1, Other, false, Sent);
  }

  lemma Demoted(t: Table, n: word64, m: word64)
    requires Valid(t) && t.handShakeDone && n + 1 < m
    requires Find(t.slots, n) >= 0 && SlotFor(t, m) >= 0 && SlotFor(t, m) != Find(t.slots, n)
    ensures UseKeys(Install(t, m, DecryptOnly).1, n, EncryptOnly).0
  {
    InstallSlots(t, m, DecryptOnly);
    InstallKeeps(t, m, DecryptOnly);
    FindIs(Install(t, m, DecryptOnly).1.slots, Find(t.slots, n));
  }

  /** The wrap error is ignored: a protected record sent with the largest number succeeds, the counter is lost by it,
      and the one after it repeats number zero. */
  lemma WrapRepeats(s: State)
    requires Inv(s) && NextSeq(s.table) == TWO_64 - 1
    ensures var (ret, s1) := Emit(s, -1, Other, false, Sent);
      && ret.Ok? && SendingEpoch(s1.table) in s1.trace.spent
      && !NumbersUnique(Emit(s1, -1, Other, false, Sent).1.trace.log)
  {
    assert HandedOut(s.trace.log, s.table.slots[s.table.enc].epochNumber, 0);
    var k :| 0 <= k < |s.trace.log| && s.trace.log[k].epoch == SendingEpoch(s.table) && s.trace.log[k].seqNumber == 0;
    var s1 := Emit(s, -1, Other, false, Sent).1;
    var log := Emit(s1, -1, Other, false, Sent).1.trace.log;
    assert log[k] == s.trace.log[k];
    assert log[|s.trace.log| + 1].epoch == SendingEpoch(s.table) && log[|s.trace.log| + 1].seqNumber == 0;
  }
}
