/** Section 5.8 of RFC 9147: a retransmission sends every record on the list again, in order, each in its own epoch and
    with the next number of that epoch; and exactly where it stops when one cannot be sent. */
module RetransmissionProofs {
  import opened Words
  import opened EpochTable
  import opened RtxQueue
  import opened SenderSpec
  import opened SenderProofs

  // ----- what is expected of the k-th turn -----------------------------------------------------------

  function AttemptAt(plan: seq<Attempt>, k: nat): Attempt { if k < |plan| then plan[k] else Build(Sent) }

  /** How many of the first k records belong to epoch n. */
  function CountIn(rtx: seq<Rec>, k: nat, n: word64): nat
    requires k <= |rtx|
  {
    if k == 0 then 0 else CountIn(rtx, k - 1, n) + if rtx[k - 1].epoch == n then 1 else 0
  }

  /** The number of the k-th record, when all before it have taken theirs. */
  function NumberAt(s: State, k: nat): word64
    requires k < |s.rtx|
  {
    var n := s.rtx[k].epoch;
    (LiveCounter(s.table.slots, n) + CountIn(s.rtx, k, n)) % TWO_64
  }

  /** The epoch in use when the turn of the k-th record comes. */
  function EpochBefore(s: State, k: nat): word64
    requires s.table.enc < |s.table.slots| && k <= |s.rtx|
  {
    if k == 0 then SendingEpoch(s.table) else s.rtx[k - 1].epoch
  }

  /** Are there keys to send in the epoch of the k-th record? */
  predicate KeysFor(s: State, k: nat)
    requires s.table.enc < |s.table.slots| && k < |s.rtx|
  {
    var n := s.rtx[k].epoch;
    EpochBefore(s, k) == n
    || (Find(s.table.slots, n) >= 0 && Serves(s.table.slots[Find(s.table.slots, n)].side, EncryptOnly))
  }

  /** The record takes the last number of a plaintext epoch, which is reported as an error. */
  predicate UsesUp(s: State, k: nat)
    requires k < |s.rtx|
  {
    !IsEncrypted(s.rtx[k].hsType) && NumberAt(s, k) == TWO_64 - 1
  }

  /** The k-th record is written out. */
  predicate Goes(s: State, plan: seq<Attempt>, k: nat)
    requires s.table.enc < |s.table.slots| && k < |s.rtx|
  {
    AttemptAt(plan, k) == Build(Sent) && KeysFor(s, k) && !UsesUp(s, k)
  }

  /** The entry of the log for the k-th record. */
  function EntryAt(s: State, k: nat, queued: bool): Entry
    requires k < |s.rtx|
  {
    var r := s.rtx[k];
    Entry(r.epoch, NumberAt(s, k), r.id, queued, Handshake(r.hsType, r.frag))
  }

  /** The record as it was, but tracking one more number, the latest. */
  ghost predicate TracksToo(r: Rec, r1: Rec, q: word64) {
    r1 == r.(tracked := r1.tracked) && r1.tracked != [] && r1.tracked[|r1.tracked| - 1] == q
  }

  /** The log has grown by exactly the first n records, in order. */
  ghost predicate LoggedAgain(s: State, log: seq<Entry>, n: nat) {
    && n <= |s.rtx| && |log| == |s.trace.log| + n && s.trace.log <= log
    && forall k :: 0 <= k < n ==> log[|s.trace.log| + k] == EntryAt(s, k, true)
  }

  /** The first n records were written out again, in order; nothing else happened to the log and the list. */
  ghost predicate SentAgain(s: State, log: seq<Entry>, rtx: seq<Rec>, n: nat) {
    && LoggedAgain(s, log, n) && |rtx| == |s.rtx|
    && (forall k :: 0 <= k < n ==> TracksToo(s.rtx[k], rtx[k], NumberAt(s, k)))
    && (forall k :: n <= k < |rtx| ==> rtx[k] == s.rtx[k])
  }

  // ----- the state before the i-th turn ----------------------------------------------------------------------

  ghost predicate SameKeys(slots: seq<Slot>, us: seq<Slot>) {
    && |us| == |slots|
    && forall k :: 0 <= k < |slots| ==>
         us[k].isValid == slots[k].isValid && us[k].epochNumber == slots[k].epochNumber && us[k].side == slots[k].side
  }

  /** The counters have moved on by the records sent. */
  ghost predicate Counted(s: State, t: Table, i: nat)
    requires i <= |s.rtx|
  {
    forall n: word64 :: Find(s.table.slots, n) >= 0 ==>
      LiveCounter(t.slots, n) == (LiveCounter(s.table.slots, n) + CountIn(s.rtx, i, n)) % TWO_64
  }

  ghost predicate TableAt(s: State, t: Table, i: nat)
    requires s.table.enc < |s.table.slots| && i <= |s.rtx|
  {
    Valid(t) && SameKeys(s.table.slots, t.slots) && SendingEpoch(t) == EpochBefore(s, i) && Counted(s, t, i)
  }

  ghost predicate Midway(s: State, st: State, i: nat)
    requires s.table.enc < |s.table.slots|
  {
    SentAgain(s, st.trace.log, st.rtx, i) && TableAt(s, st.table, i)
  }

  lemma SameFind(slots: seq<Slot>, us: seq<Slot>, n: word64)
    requires SameKeys(slots, us) && Distinct(slots) && Distinct(us)
    ensures Find(us, n) == Find(slots, n)
  {
    if Find(slots, n) >= 0 {
      FindIs(us, Find(slots, n));
    }
  }

  /** The switch succeeds if there are keys, and the next number is the one expected. */
  lemma SwitchTurn(s: State, t: Table, i: nat)
    requires Valid(s.table) && i < |s.rtx| && TableAt(s, t, i)
    ensures var (ok, u) := SwitchTo(t, s.rtx[i].epoch);
      && (ok <==> KeysFor(s, i))
      && (ok ==> Valid(u) && u.slots == t.slots && SendingEpoch(u) == s.rtx[i].epoch && NextSeq(u) == NumberAt(s, i))
      && (!ok ==> u == t)
  {
    var n := s.rtx[i].epoch;
    SameFind(s.table.slots, t.slots, n);
    hide Valid, Counted, CountIn, LiveCounter, NextSeq;
    SwitchKeepsValid(t, n);
    var (ok, u) := SwitchTo(t, n);
    if ok {
      TakeSeqCounters(u, n);
      assert Find(s.table.slots, n) >= 0;
      CountedAt(s, t, i, n);
    }
  }

  lemma SwitchKeepsValid(t: Table, n: word64)
    requires Valid(t)
    ensures Valid(SwitchTo(t, n).1)
  {
  }

  lemma CountedAt(s: State, t: Table, i: nat, n: word64)
    requires i <= |s.rtx| && Counted(s, t, i) && Find(s.table.slots, n) >= 0
    ensures LiveCounter(t.slots, n) == (LiveCounter(s.table.slots, n) + CountIn(s.rtx, i, n)) % TWO_64
  {
  }

  lemma OneMore(c: nat)
    ensures Increment64(c % TWO_64) == (c + 1) % TWO_64
  {
  }

  lemma CountedNext(s: State, t: Table, u: Table, i: nat, n: word64)
    requires Valid(u) && i < |s.rtx| && Counted(s, t, i) && Find(s.table.slots, n) >= 0
    requires u.slots == t.slots && SendingEpoch(u) == s.rtx[i].epoch
    ensures LiveCounter(TakeSeq(u).slots, n) == (LiveCounter(s.table.slots, n) + CountIn(s.rtx, i + 1, n)) % TWO_64
  {
    hide Valid, Counted, LiveCounter, TakeSeq;
    CountedAt(s, t, i, n);
    TakeSeqCounters(u, n);
    OneMore(LiveCounter(s.table.slots, n) + CountIn(s.rtx, i, n));
  }

  /** Taking a number in the epoch of the i-th record moves on to the next turn. */
  lemma TakenAt(s: State, t: Table, u: Table, i: nat)
    requires Valid(s.table) && i < |s.rtx| && TableAt(s, t, i)
    requires Valid(u) && u.slots == t.slots && SendingEpoch(u) == s.rtx[i].epoch && NextSeq(u) == NumberAt(s, i)
    ensures TableAt(s, TakeSeq(u), i + 1)
  {
    hide LiveCounter, NumberAt, NextSeq, CountIn, Find;
    TakeSeqCounters(u, s.rtx[i].epoch);
    forall n: word64 | Find(s.table.slots, n) >= 0
      ensures LiveCounter(TakeSeq(u).slots, n) == (LiveCounter(s.table.slots, n) + CountIn(s.rtx, i + 1, n)) % TWO_64
    {
      CountedNext(s, t, u, i, n);
    }
  }

  // ----- one turn -----------------------------------------------------------------------------------------------

  /** What a record in the epoch in use does to the log, the counter and the list. */
  lemma EmitTurn(s: State, owner: int, payload: Payload, plain: bool, wire: Wire)
    requires s.table.enc < |s.table.slots|
    ensures var (ret, s1) := Emit(s, owner, payload, plain, wire); var q := NextSeq(s.table);
      && s1 == s.(table := s1.table, trace := s1.trace)
      && ret == (if !wire.FailedEarly? && plain && q == TWO_64 - 1 then BadState else WireRet(wire))
      && (wire.FailedEarly? ==> ret.Failed? && s1 == s)
      && (!wire.FailedEarly? ==>
            && (ret.Queued() <==> (wire.Sent? || wire.WouldBlock?) && !(plain && q == TWO_64 - 1))
            && (ret.Ok? <==> wire.Sent? && !(plain && q == TWO_64 - 1))
            && s1.table == TakeSeq(s.table)
            && s1.trace.log == s.trace.log + [Entry(SendingEpoch(s.table), q, owner, ret.Queued(), payload)])
  {
    hide TakeSeq, SendingEpoch, NextSeq;
  }

  /** The record takes no number: there is no room for it, there are no keys, or it cannot be built. */
  predicate Untouched(s: State, attempt: Attempt, k: nat)
    requires s.table.enc < |s.table.slots| && k < |s.rtx|
  {
    attempt.NoRoom? || !KeysFor(s, k) || attempt.wire.FailedEarly?
  }

  /** What Dtls13RtxSendBuffered returns when the k-th record is not written out. */
  function StopRet(s: State, attempt: Attempt, k: nat): Ret
    requires s.table.enc < |s.table.slots| && k < |s.rtx|
  {
    match attempt
    case NoRoom(wantWrite) => if wantWrite then WantWrite else Failed
    case Build(wire) =>
      if !KeysFor(s, k) then BadState
      else if wire.FailedEarly? then Failed
      else if UsesUp(s, k) then BadState
      else if wire.WouldBlock? then WantWrite else Failed
  }

  /** The record that would block has gone to the end of the list. */
  ghost predicate BlockedLast(s: State, rtx: seq<Rec>, k: nat)
    requires k < |s.rtx|
  {
    && |rtx| == |s.rtx|
    && (forall j :: 0 <= j < k ==> TracksToo(s.rtx[j], rtx[j], NumberAt(s, j)))
    && (forall j :: k <= j < |rtx| - 1 ==> rtx[j] == s.rtx[j + 1])
    && TracksToo(s.rtx[k], rtx[|rtx| - 1], NumberAt(s, k))
  }

  /** The k-th record is not written out: its number is handed out if it was built, and a record that would block tracks
      the number and is the last one of the list then. */
  ghost predicate StopsAt(s: State, s1: State, attempt: Attempt, k: nat)
    requires s.table.enc < |s.table.slots| && k < |s.rtx|
  {
    var blocks := attempt == Build(WouldBlock) && KeysFor(s, k) && !UsesUp(s, k);
    if Untouched(s, attempt, k) then SentAgain(s, s1.trace.log, s1.rtx, k)
    else
      && s1.trace.log != []
      && var log, e := s1.trace.log[..|s1.trace.log| - 1], s1.trace.log[|s1.trace.log| - 1];
      && e == EntryAt(s, k, blocks)
      && if blocks then LoggedAgain(s, log, k) && BlockedLast(s, s1.rtx, k) else SentAgain(s, log, s1.rtx, k)
  }

  lemma TracksMore(r: Rec, size: nat, q: word64)
    ensures TracksToo(r, r.(tracked := Track(r.tracked, size, q)), q)
  {
  }

  /** The keys of the i-th record are in use, and its turn has come. */
  ghost predicate Ready(s: State, st: State, i: nat)
    requires s.table.enc < |s.table.slots|
  {
    && i < |s.rtx| && SentAgain(s, st.trace.log, st.rtx, i)
    && st.table.enc < |st.table.slots|
    && SendingEpoch(st.table) == s.rtx[i].epoch && NextSeq(st.table) == NumberAt(s, i)
  }

  /** Sending it again when it is written out ... */
  lemma ResendGoes(s: State, st: State, i: nat)
    requires s.table.enc < |s.table.slots| && Ready(s, st, i) && !UsesUp(s, i)
    ensures var (ret, s1) := Resend(st, i, Sent);
      ret.Ok? && SentAgain(s, s1.trace.log, s1.rtx, i + 1) && s1.table == TakeSeq(st.table)
  {
    hide NumberAt, Track, TakeSeq, SendingEpoch, NextSeq, IsEncrypted;
    var r := s.rtx[i];
    EmitTurn(st, r.id, Handshake(r.hsType, r.frag), !IsEncrypted(r.hsType), Sent);
    TracksMore(r, st.rnSize, NumberAt(s, i));
    hide Emit;
  }

  lemma MovedLast(s: State, rtx: seq<Rec>, i: nat, r: Rec)
    requires i < |s.rtx| == |rtx| && TracksToo(s.rtx[i], r, NumberAt(s, i))
    requires forall k :: 0 <= k < i ==> TracksToo(s.rtx[k], rtx[k], NumberAt(s, k))
    requires forall k :: i <= k < |rtx| ==> rtx[k] == s.rtx[k]
    ensures BlockedLast(s, MovedToEnd(rtx[i := r], i), i)
  {
    hide NumberAt, TracksToo;
  }

  /** ... and when it is not. */
  lemma ResendStops(s: State, st: State, wire: Wire, i: nat)
    requires s.table.enc < |s.table.slots| && Ready(s, st, i) && KeysFor(s, i) && !(wire.Sent? && !UsesUp(s, i))
    ensures var (ret, s1) := Resend(st, i, wire);
      ret == StopRet(s, Build(wire), i) && !ret.Ok? && StopsAt(s, s1, Build(wire), i)
  {
    hide NumberAt, Track, TakeSeq, SendingEpoch, NextSeq, IsEncrypted, KeysFor, BlockedLast, MovedToEnd, Emit,
         LoggedAgain;
    var r := s.rtx[i];
    var payload, plain := Handshake(r.hsType, r.frag), !IsEncrypted(r.hsType);
    EmitTurn(st, r.id, payload, plain, wire);
    var (ret, s1) := Emit(st, r.id, payload, plain, wire);
    if !wire.FailedEarly? {
      LastOff(st.trace.log, Entry(SendingEpoch(st.table), NextSeq(st.table), r.id, ret.Queued(), payload));
    }
    if ret.WantWrite? {
      TracksMore(r, st.rnSize, NumberAt(s, i));
      MovedLast(s, st.rtx, i, r.(tracked := Track(r.tracked, st.rnSize, NumberAt(s, i))));
    }
  }

  lemma LastOff(log: seq<Entry>, e: Entry)
    ensures (log + [e])[..|log + [e]| - 1] == log
  {
  }

  lemma BecomesReady(s: State, st: State, i: nat)
    requires Valid(s.table) && i < |s.rtx| && Midway(s, st, i)
    ensures Valid(st.table) && st.table.enc < |st.table.slots|
    ensures var (ok, u) := SwitchTo(st.table, s.rtx[i].epoch);
      (ok <==> KeysFor(s, i)) && (ok ==> Ready(s, st.(table := u), i) && TableAt(s, TakeSeq(u), i + 1))
  {
    SwitchTurn(s, st.table, i);
    hide SentAgain, KeysFor, NumberAt, Counted, SameKeys;
    var (ok, u) := SwitchTo(st.table, s.rtx[i].epoch);
    if ok {
      TakenAt(s, st.table, u, i);
    }
  }

  /** One turn of the loop. */
  lemma Turn(s: State, st: State, wire: Wire, i: nat)
    requires Valid(s.table) && i < |s.rtx| && Midway(s, st, i)
    ensures st.table.enc < |st.table.slots| && |st.rtx| == |s.rtx|
    ensures var (ret, s1) := RetransmitOne(st, i, wire);
      if wire.Sent? && KeysFor(s, i) && !UsesUp(s, i) then ret.Ok? && Midway(s, s1, i + 1)
      else ret == StopRet(s, Build(wire), i) && !ret.Ok? && StopsAt(s, s1, Build(wire), i)
  {
    BecomesReady(s, st, i);
    assert st.rtx[i] == s.rtx[i];
    hide Resend, SwitchTo, SentAgain, TableAt, KeysFor, UsesUp, Ready, TakeSeq;
    var (ok, u) := SwitchTo(st.table, s.rtx[i].epoch);
    if ok {
      if wire.Sent? && !UsesUp(s, i) {
        ResendGoes(s, st.(table := u), i);
      } else {
        ResendStops(s, st.(table := u), wire, i);
      }
    }
  }

  // ----- the whole loop ------------------------------------------------------------------------------------------

  /** Before the first turn. */
  lemma StartsMidway(s: State)
    requires Valid(s.table)
    ensures Midway(s, s, 0)
  {
    forall n: word64
      ensures LiveCounter(s.table.slots, n) == (LiveCounter(s.table.slots, n) + CountIn(s.rtx, 0, n)) % TWO_64
    {
    }
  }

  lemma {:induction false} Loop(s: State, st: State, plan: seq<Attempt>, i: nat, rest: seq<Attempt>) returns (n: nat)
    requires Valid(s.table) && i <= |s.rtx| && Midway(s, st, i)
    requires forall k: nat :: AttemptAt(rest, k) == AttemptAt(plan, i + k)
    ensures st.table.enc < |st.table.slots| && |st.rtx| == |s.rtx|
    ensures i <= n <= |s.rtx| && (forall k :: i <= k < n ==> Goes(s, plan, k))
    ensures var (ret, s1) := Retransmit(st, i, rest);
      if n == |s.rtx| then ret.Ok? && SentAgain(s, s1.trace.log, s1.rtx, n)
      else !Goes(s, plan, n) && ret == StopRet(s, AttemptAt(plan, n), n) && !ret.Ok?
           && StopsAt(s, s1, AttemptAt(plan, n), n)
    decreases |s.rtx| - i
  {
    hide RetransmitOne, SentAgain, TableAt, KeysFor, UsesUp, StopsAt;
    MidwayFits(s, st, i);
    n := i;
    if i < |s.rtx| {
      var a := FirstAttempt(rest);
      assert a == AttemptAt(rest, 0) == AttemptAt(plan, i);
      if a.NoRoom? {
        NoRoomStops(s, st, a, i);
      } else {
        Turn(s, st, a.wire, i);
        if Goes(s, plan, i) {
          RestAt(rest, plan, i);
          n := Loop(s, RetransmitOne(st, i, a.wire).1, plan, i + 1, Rest(rest));
        }
      }
    }
  }

  lemma MidwayFits(s: State, st: State, i: nat)
    requires Valid(s.table) && i <= |s.rtx| && Midway(s, st, i)
    ensures st.table.enc < |st.table.slots| && |st.rtx| == |s.rtx|
  {
  }

  lemma NoRoomStops(s: State, st: State, attempt: Attempt, i: nat)
    requires Valid(s.table) && i < |s.rtx| && Midway(s, st, i) && attempt.NoRoom?
    ensures StopsAt(s, st, attempt, i) && StopRet(s, attempt, i) == if attempt.wantWrite then WantWrite else Failed
  {
  }

  lemma RestAt(rest: seq<Attempt>, plan: seq<Attempt>, i: nat)
    requires forall k: nat :: AttemptAt(rest, k) == AttemptAt(plan, i + k)
    ensures forall k: nat :: AttemptAt(Rest(rest), k) == AttemptAt(plan, i + 1 + k)
  {
    forall k: nat ensures AttemptAt(Rest(rest), k) == AttemptAt(plan, i + 1 + k) {
      assert AttemptAt(rest, k + 1) == AttemptAt(plan, i + (k + 1));
    }
  }

  /** For every list and whatever happens: the records before the first one that cannot be written out are sent again,
      in order, each in its epoch with the next number of it and tracking it; at that one the call stops, and if it
      would block it is the last one of the list afterwards. */
  lemma ResentExactly(s: State, plan: seq<Attempt>) returns (n: nat)
    requires WellFormed(s)
    ensures n <= |s.rtx| && forall k :: 0 <= k < n ==> Goes(s, plan, k)
    ensures var (ret, s1) := Step(s, RetransmitOp(plan));
      if n == |s.rtx| then ret.Ok? && SentAgain(s, s1.trace.log, s1.rtx, n)
      else !Goes(s, plan, n) && ret == StopRet(s, AttemptAt(plan, n), n) && !ret.Ok?
           && StopsAt(s, s1, AttemptAt(plan, n), n)
  {
    hide Step, Retransmit, Midway, SentAgain, StopsAt, Goes, StopRet;
    StepIsLoop(s, plan);
    StartsMidway(s);
    n := Loop(s, s, plan, 0, plan);
  }

  lemma StepIsLoop(s: State, plan: seq<Attempt>)
    requires WellFormed(s)
    ensures Valid(s.table) && Step(s, RetransmitOp(plan)) == Retransmit(s, 0, plan)
  {
    hide Retransmit;
  }

  /** In particular, when there is room, the keys are there and every record is written, all are sent again. */
  lemma AllSentAgain(s: State, plan: seq<Attempt>)
    requires WellFormed(s) && forall k :: 0 <= k < |s.rtx| ==> Goes(s, plan, k)
    ensures var (ret, s1) := Step(s, RetransmitOp(plan));
      && ret.Ok? && |s1.trace.log| == |s.trace.log| + |s.rtx| && s.trace.log <= s1.trace.log && |s1.rtx| == |s.rtx|
      && forall k :: 0 <= k < |s.rtx| ==>
           && s1.trace.log[|s.trace.log| + k] == EntryAt(s, k, true)
           && TracksToo(s.rtx[k], s1.rtx[k], NumberAt(s, k))
  {
    hide Step, Goes;
    var n := ResentExactly(s, plan);
  }
}
