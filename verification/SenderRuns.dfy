/** Concrete runs of the sender in which what usually holds does not. */
module SenderRuns {
  import opened Words
  import opened EpochTable
  import opened RtxQueue
  import opened SenderSpec
  import opened SenderProofs
  import opened KeyUpdateProofs

  /** A caller installs an epoch to decrypt in it, during the handshake also to encrypt in it. */
  ghost predicate InstallsToDecrypt(ops: seq<Op>) {
    forall i :: 0 <= i < |ops| ==> ToDecrypt(ops[i])
  }

  predicate ToDecrypt(op: Op) { op.InstallOp? ==> op.side != EncryptOnly }

  /** Some legal run leads from s to s1. */
  ghost predicate Reaches(s: State, s1: State)
    requires Inv(s)
  {
    exists ops :: LegalRun(s, ops) && Run(s, ops) == s1 && InstallsToDecrypt(ops)
  }

  lemma {:induction false} RunConcat(s: State, a: seq<Op>, b: seq<Op>)
    requires Inv(s) && LegalRun(s, a) && LegalRun(Run(s, a), b)
    ensures LegalRun(s, a + b) && Run(s, a + b) == Run(Run(s, a), b)
    decreases |a|
  {
    hide Inv, Next, Enabled;
    if a == [] {
      assert a + b == b;
    } else {
      assert (a + b)[0] == a[0] && (a + b)[1..] == a[1..] + b;
      RunConcat(Next(s, a[0]), a[1..], b);
    }
  }

  lemma OneStep(s: State, op: Op)
    requires Inv(s) && Enabled(s, op) && ToDecrypt(op)
    ensures Inv(Step(s, op).1) && Reaches(s, Step(s, op).1)
  {
    hide Inv, Enabled, Step, ToDecrypt;
    assert [op][1..] == [];
    assert LegalRun(s, [op]) && Run(s, [op]) == Next(s, op);
  }

  lemma Onwards(s: State, s1: State, s2: State)
    requires Inv(s) && Inv(s1) && Reaches(s, s1) && Reaches(s1, s2)
    ensures Reaches(s, s2)
  {
    hide Inv, LegalRun, Run;
    var a :| LegalRun(s, a) && Run(s, a) == s1 && InstallsToDecrypt(a);
    var b :| LegalRun(s1, b) && Run(s1, b) == s2 && InstallsToDecrypt(b);
    RunConcat(s, a, b);
    assert InstallsToDecrypt(a + b);
  }

  // ----- steps on a table that is known ------------------------------------------------------------

  /** A full table gives up its last evictable slot. */
  lemma {:induction false} LastEvictable(t: Table, i: nat, k: nat, oldest: int)
    requires k <= |t.slots| && -1 <= oldest < k && i < |t.slots|
    requires forall j :: k <= j < |t.slots| ==> t.slots[j].isValid
    requires forall j :: i < j < |t.slots| ==> !Evictable(t, t.slots[j])
    requires if k <= i then Evictable(t, t.slots[i]) else oldest == i
    ensures RoomFrom(t, k, oldest) == i
    decreases |t.slots| - k
  {
    if k < |t.slots| {
      LastEvictable(t, i, k + 1, if Evictable(t, t.slots[k]) then k else oldest);
    }
  }

  /** A short protected message joins the list. */
  lemma ShortReady(s: State, hsType: HandshakeType, body: seq<byte>)
    requires s.table.enc < |s.table.slots| && NextSeq(s.table) < TWO_64 - 1
    requires IsEncrypted(hsType) && |body| < 100 && s.cidSize == 0
    ensures var s1 := SendReady(s, hsType, body, 200, Sent, []).1;
      && s1.table == TakeSeq(s.table) && s1.trace.spent == s.trace.spent && s1.cidSize == 0 && s1.buffer == s.buffer
      && s1.waitKeyUpdateAck == (s.waitKeyUpdateAck || hsType == KEY_UPDATE)
      && s1.rtx == s.rtx + [Rec(s.trace.nextId, SendingEpoch(s.table), hsType, Fragment(s.hsNumber, |body|, 0, body),
                                [NextSeq(s.table)])]
  {
  }

  /** ... sent in the send epoch. */
  lemma ShortSend(s: State, hsType: HandshakeType, body: seq<byte>)
    requires WellFormed(s) && SwitchTo(s.table, s.table.sendEpoch).0
    requires NextSeq(SwitchTo(s.table, s.table.sendEpoch).1) < TWO_64 - 1
    requires IsEncrypted(hsType) && |body| < 100 && s.cidSize == 0
    ensures var op := SendMessage(hsType, body, 200, Sent, []); var t := SwitchTo(s.table, s.table.sendEpoch).1;
      && Enabled(s, op)
      && var s1 := Step(s, op).1;
      && s1.table == TakeSeq(t) && s1.trace.spent == s.trace.spent && s1.cidSize == 0 && s1.buffer == s.buffer
      && s1.waitKeyUpdateAck == (s.waitKeyUpdateAck || hsType == KEY_UPDATE)
      && s1.rtx == s.rtx + [Rec(s.trace.nextId, s.table.sendEpoch, hsType, Fragment(s.hsNumber, |body|, 0, body),
                                [NextSeq(t)])]
  {
    ShortReady(s.(table := SwitchTo(s.table, s.table.sendEpoch).1), hsType, body);
    hide SendReady;
  }

  function KeyUpdateSent(): Op { SendMessage(KEY_UPDATE, [0], 200, Sent, []) }

  lemma KeyUpdateAckedAlone(s: State, r: Rec, rest: seq<Rec>, rn: RecordNumber)
    requires s.rtx == rest + [r] && r.IsTrackedBy(rn) && s.waitKeyUpdateAck
    requires forall i :: 0 <= i < |rest| ==> rest[i].hsType != KEY_UPDATE && !rest[i].IsTrackedBy(rn)
    ensures var s1 := ReceiveAck(s, [rn], true).1;
      s1 == KeyUpdateAcked(s.(rtx := rest, waitKeyUpdateAck := false), true).1.(retransmit := s1.retransmit)
  {
    hide KeyUpdateAcked;
    var p := (r: Rec) => r.IsTrackedBy([rn][0]);
    WithoutFirstIs(s.rtx, p, |rest|);
    assert RemoveAt(s.rtx, |rest|) == rest;
    assert [rn][1..] == [];
    assert RemoveEach(s.rtx, [rn]) == rest;
  }

  /** What a key update of this end does to the table: the next epoch fills slot i and is sent in. */
  function MovedOn(t: Table, i: nat): Table
    requires t.enc < |t.slots| && i < |t.slots| && t.sendEpoch < TWO_64 - 1
  {
    var n := t.sendEpoch + 1;
    t.(slots := t.slots[i := ZEROED.(epochNumber := n, isValid := true, side := EncryptOnly)], enc := i, sendEpoch := n)
  }

  ghost predicate ReadyForKeyUpdate(s: State, i: nat) {
    && Inv(s) && SendingEpoch(s.table) == s.table.sendEpoch < TWO_64 - 1 && NextSeq(s.table) < TWO_64 - 1
    && s.cidSize == 0 && !s.waitKeyUpdateAck
    && (forall i :: 0 <= i < |s.rtx| ==>
          s.rtx[i].hsType != KEY_UPDATE && !s.rtx[i].IsTrackedBy(RecordNumber(s.table.sendEpoch, NextSeq(s.table))))
    && SlotFor(TakeSeq(s.table), s.table.sendEpoch + 1) == i && Find(s.table.slots, s.table.sendEpoch + 1) < 0
  }

  lemma AfterKeyUpdate(s: State, i: nat)
    requires ReadyForKeyUpdate(s, i)
    ensures var n := s.table.sendEpoch; var s1 := Step(s, KeyUpdateSent()).1;
      && Enabled(s, KeyUpdateSent())
      && Inv(s1) && s1.table == TakeSeq(s.table) && s1.table.sendEpoch == n
      && SlotFor(s1.table, n + 1) == i && Find(s1.table.slots, n + 1) < 0
      && s1.waitKeyUpdateAck && s1.cidSize == 0 && s1.trace.spent == s.trace.spent
      && |s1.rtx| == |s.rtx| + 1 && s1.rtx == s.rtx + [s1.rtx[|s.rtx|]]
      && s1.rtx[|s.rtx|].IsTrackedBy(RecordNumber(n, NextSeq(s.table)))
  {
    ShortSend(s, KEY_UPDATE, [0]);
    StepKeeps(s, KeyUpdateSent());
    TakeSeqCounters(s.table, s.table.sendEpoch + 1);
    hide Inv, Step, Enabled, TakeSeq, SlotFor, Valid, Find, IsEncrypted;
  }

  /** An acknowledged KeyUpdate moves the send epoch on. */
  lemma KeyUpdateRun(s: State, i: nat) returns (s2: State)
    requires ReadyForKeyUpdate(s, i)
    ensures Inv(s2) && Reaches(s, s2)
    ensures s2.table == MovedOn(TakeSeq(s.table), i) && s2.rtx == s.rtx && !s2.waitKeyUpdateAck && s2.cidSize == 0
    ensures var t := TakeSeq(s.table);
      s2.trace.spent.Keys == s.trace.spent.Keys
        + if t.slots[i].isValid && t.slots[i].nextSeq > 0 then {t.slots[i].epochNumber} else {}
  {
    var n, rn := s.table.sendEpoch, RecordNumber(s.table.sendEpoch, NextSeq(s.table));
    AfterKeyUpdate(s, i);
    var s1 := Step(s, KeyUpdateSent()).1;
    var ack := AckReceived([rn], true);
    AckStep(s1, ack);
    s2 := Step(s1, ack).1;
    assert Valid(s1.table);
    hide Inv, Step, Enabled, TakeSeq, SlotFor, Valid, Find, ReceiveAck, KeyUpdateAcked, MovedOn, Reaches;
    OneStep(s, KeyUpdateSent());
    OneStep(s1, ack);
    Onwards(s, s1, s2);
    KeyUpdateAckedAlone(s1, s1.rtx[|s.rtx|], s.rtx, rn);
    MovesOn(s1.(rtx := s.rtx, waitKeyUpdateAck := false), i);
  }

  lemma AckStep(s: State, op: Op)
    requires Inv(s) && op.AckReceived?
    ensures Enabled(s, op) && Step(s, op) == ReceiveAck(s, op.rns, op.derived)
  {
    hide ReceiveAck, NumbersOk, Gapless, RtxOk;
  }

  lemma MovesOn(s: State, i: nat)
    requires Valid(s.table) && s.table.sendEpoch < TWO_64 - 1
    requires SlotFor(s.table, s.table.sendEpoch + 1) == i && Find(s.table.slots, s.table.sendEpoch + 1) < 0
    ensures var s1 := KeyUpdateAcked(s, true).1;
      && s1 == s.(table := s1.table, trace := s1.trace) && s1.table == MovedOn(s.table, i)
      && s1.trace.spent.Keys == s.trace.spent.Keys
           + if s.table.slots[i].isValid && s.table.slots[i].nextSeq > 0 then {s.table.slots[i].epochNumber} else {}
  {
    var n := Increment64(s.table.sendEpoch);
    InstallKeeps(s.table, n, EncryptOnly);
  }

  function PeerMovedOn(t: Table, n: word64, i: nat): Table
    requires n > 0 && SlotFor(t, n) == i
  {
    t.(slots := SetOlderSide(t.slots[i := Filled(t, n, DecryptOnly)], n - 1, EncryptOnly), dec := i, peerEpoch := n)
  }

  lemma PeerTable(t: Table, n: word64, i: nat)
    requires Valid(t) && t.handShakeDone && n > 0 && SlotFor(t, n) == i
    ensures UseKeys(Install(t, n, DecryptOnly).1.(peerEpoch := n), n, DecryptOnly).1 == PeerMovedOn(t, n, i)
  {
    InstallKeeps(t, n, DecryptOnly);
    InstallSlots(t, n, DecryptOnly);
  }

  /** A KeyUpdate of the peer: the next epoch is installed for decryption, expected and used. */
  lemma PeerUpdateRun(s: State, n: word64, i: nat) returns (s3: State)
    requires Inv(s) && s.table.handShakeDone && n > 0 && SlotFor(s.table, n) == i
    ensures Inv(s3) && Reaches(s, s3)
    ensures s3 == s.(table := PeerMovedOn(s.table, n, i), trace := s3.trace)
        && s.trace.spent.Keys <= s3.trace.spent.Keys
  {
    PeerTable(s.table, n, i);
    hide Inv, Step, Enabled, SlotFor, Install, UseKeys, PeerMovedOn, Reaches;
    InstallStep(s, n, DecryptOnly);
    StartReaches(s);
    s3 := Further(s, s, InstallOp(n, DecryptOnly));
    TableSteps(s3, n, DecryptOnly);
    s3 := Further(s, s3, AdoptPeerEpoch(n));
    TableSteps(s3, n, DecryptOnly);
    s3 := Further(s, s3, UseKeysOp(n, DecryptOnly));
  }

  // ----- an epoch that comes back -------------------------------------------------------------------

  /** A live slot. */
  function Live(n: word64, q: word64, side: Side): Slot { Slot(n, q, 0, true, side) }

  const PLAIN: Slot := Live(0, 0, EncryptAndDecrypt)
  const HANDSHAKE: Slot := Live(2, 0, EncryptAndDecrypt)

  /** The slots once the keys of the handshake and of the application data are installed. */
  const FIRST_SLOTS: seq<Slot> := [PLAIN, HANDSHAKE, Live(3, 0, EncryptAndDecrypt), ZEROED]

  lemma FindAt(slots: seq<Slot>, n: word64, i: nat)
    requires i < |slots| && slots[i].isValid && slots[i].epochNumber == n
    requires forall k :: 0 <= k < i ==> !slots[k].isValid || slots[k].epochNumber != n
    ensures Find(slots, n) == i
  {
    FindFromAt(slots, n, 0, i);
  }

  lemma {:induction false} FindFromAt(slots: seq<Slot>, n: word64, k: nat, i: nat)
    requires k <= i < |slots| && slots[i].isValid && slots[i].epochNumber == n
    requires forall j :: k <= j < i ==> !slots[j].isValid || slots[j].epochNumber != n
    ensures FindFrom(slots, n, k) == i
    decreases i - k
  {
    if k < i {
      FindFromAt(slots, n, k + 1, i);
    }
  }

  lemma {:induction false} FirstFree(t: Table, i: nat, k: nat, oldest: int)
    requires k <= i < |t.slots| && -1 <= oldest < k && !t.slots[i].isValid
    requires forall j :: k <= j < i ==> t.slots[j].isValid
    ensures RoomFrom(t, k, oldest) == i
    decreases i - k
  {
    if k < i {
      FirstFree(t, i, k + 1, if Evictable(t, t.slots[k]) then k else oldest);
    }
  }

  lemma FillsFree(t: Table, n: word64, side: Side, i: nat)
    requires i < |t.slots| && !t.slots[i].isValid && Find(t.slots, n) < 0 && !t.handShakeDone
    requires forall j :: 0 <= j < i ==> t.slots[j].isValid
    ensures Install(t, n, side)
        == (true, t.(slots := t.slots[i := ZEROED.(epochNumber := n, isValid := true, side := side)]))
  {
    FirstFree(t, i, 0, -1);
  }

  lemma HandshakeTable(t: Table)
    requires t.slots == [PLAIN, ZEROED, ZEROED, ZEROED] && !t.handShakeDone
    ensures var u := t.(slots := [PLAIN, HANDSHAKE, ZEROED, ZEROED]);
      && Install(t, 2, EncryptAndDecrypt) == (true, u)
      && Install(u, 3, EncryptAndDecrypt) == (true, t.(slots := FIRST_SLOTS))
    ensures Find(FIRST_SLOTS, 3) == 2
  {
    FillsFree(t, 2, EncryptAndDecrypt, 1);
    var u := t.(slots := t.slots[1 := HANDSHAKE]);
    FillsFree(u, 3, EncryptAndDecrypt, 2);
    FindAt(FIRST_SLOTS, 3, 2);
    assert u.slots == [PLAIN, HANDSHAKE, ZEROED, ZEROED] && u.slots[2 := Live(3, 0, EncryptAndDecrypt)] == FIRST_SLOTS;
  }

  lemma InstallStep(s: State, n: word64, side: Side)
    requires Inv(s) && side != NoSide
    ensures Enabled(s, InstallOp(n, side))
    ensures var s1 := Step(s, InstallOp(n, side)).1;
      s1 == s.(table := Install(s.table, n, side).1, trace := s1.trace) && s.trace.spent.Keys <= s1.trace.spent.Keys
  {
    hide NumbersOk, Gapless, RtxOk, Install;
  }

  lemma TableSteps(s: State, n: word64, side: Side)
    requires Inv(s) && side != NoSide
    ensures !s.table.handShakeDone ==>
      Enabled(s, AdoptSendEpoch(n)) && Step(s, AdoptSendEpoch(n)).1 == s.(table := s.table.(sendEpoch := n))
    ensures Enabled(s, AdoptPeerEpoch(n)) && Step(s, AdoptPeerEpoch(n)).1 == s.(table := s.table.(peerEpoch := n))
    ensures Enabled(s, FinishHandshake) && Step(s, FinishHandshake).1 == s.(table := s.table.(handShakeDone := true))
    ensures Enabled(s, UseKeysOp(n, side)) && Step(s, UseKeysOp(n, side)).1 == s.(table := UseKeys(s.table, n, side).1)
  {
    hide NumbersOk, Gapless, RtxOk, UseKeys;
  }

  /** The handshake, without the messages in it. */
  lemma AfterHandshake() returns (s: State)
    ensures Inv(s) && Reaches(Start(4, 2, false, 0), s)
    ensures s.table == Table(FIRST_SLOTS, 2, 2, 3, 3, true)
    ensures s.rtx == [] && !s.waitKeyUpdateAck && s.cidSize == 0 && s.buffer.Idle? && s.trace.log == []
  {
    var s0 := Start(4, 2, false, 0);
    StartReaches(s0);
    HandshakeTable(s0.table);
    hide Inv, Step, Enabled, Install, Start, Reaches, Find;
    var n: word64, both := 3, EncryptAndDecrypt;
    InstallStep(s0, 2, both);
    s := Further(s0, s0, InstallOp(2, both));
    InstallStep(s, n, both);
    s := Further(s0, s, InstallOp(n, both));
    TableSteps(s, n, both);
    s := Further(s0, s, AdoptSendEpoch(n));
    TableSteps(s, n, both);
    s := Further(s0, s, AdoptPeerEpoch(n));
    TableSteps(s, n, both);
    s := Further(s0, s, UseKeysOp(n, both));
    TableSteps(s, n, both);
    s := Further(s0, s, FinishHandshake);
  }

  lemma StartReaches(s: State)
    requires Inv(s)
    ensures Reaches(s, s)
  {
    hide Inv;
    assert LegalRun(s, []) && InstallsToDecrypt([]);
  }

  lemma Further(s0: State, s: State, op: Op) returns (s1: State)
    requires Inv(s0) && Inv(s) && Reaches(s0, s) && Enabled(s, op) && ToDecrypt(op)
    ensures s1 == Step(s, op).1 && Inv(s1) && Reaches(s0, s1)
  {
    s1 := Step(s, op).1;
    hide Inv, Step, Enabled, Reaches, ToDecrypt;
    OneStep(s, op);
    Onwards(s0, s, s1);
  }

  /** The table after one, two and three key updates of this end ... */
  const UPDATED_ONCE: Table :=
    Table([PLAIN, HANDSHAKE, Live(3, 1, EncryptAndDecrypt), Live(4, 0, EncryptOnly)], 3, 2, 4, 3, true)
  const UPDATED_TWICE: Table :=
    Table([PLAIN, Live(5, 0, EncryptOnly), Live(3, 1, EncryptAndDecrypt), Live(4, 2, EncryptOnly)], 1, 2, 5, 3, true)
  const UPDATED_THRICE: Table :=
    Table([PLAIN, Live(5, 1, EncryptOnly), Live(3, 1, EncryptAndDecrypt), Live(6, 0, EncryptOnly)], 3, 2, 6, 3, true)

  /** ... and when the peer follows: epoch 4 comes back to decrypt, and is kept to encrypt once epoch 6 decrypts. */
  const OLD_PLAIN: Slot := Live(0, 0, EncryptOnly)
  const FOLLOWED_ONCE: Table :=
    Table([OLD_PLAIN, Live(4, 0, DecryptOnly), Live(3, 1, EncryptAndDecrypt), Live(6, 0, EncryptOnly)],
          3, 1, 6, 4, true)
  const FOLLOWED_TWICE: Table :=
    Table([OLD_PLAIN, Live(4, 0, DecryptOnly), Live(5, 0, DecryptOnly), Live(6, 0, EncryptOnly)], 3, 2, 6, 5, true)
  const FOLLOWED_THRICE: Table :=
    Table([OLD_PLAIN, Live(4, 0, EncryptOnly), Live(5, 0, DecryptOnly), Live(6, 0, EncryptAndDecrypt)],
          3, 3, 6, 6, true)

  lemma OnceUpdated(t: Table)
    requires t == Table(FIRST_SLOTS, 2, 2, 3, 3, true)
    ensures Find(t.slots, 4) < 0 && SlotFor(TakeSeq(t), 4) == 3 && MovedOn(TakeSeq(t), 3) == UPDATED_ONCE
  {
    FirstFree(TakeSeq(t), 3, 0, -1);
  }

  lemma TwiceUpdated(t: Table)
    requires t == UPDATED_ONCE.(slots := UPDATED_ONCE.slots[3 := Live(4, 1, EncryptOnly)])
    ensures Find(t.slots, 5) < 0 && SlotFor(TakeSeq(t), 5) == 1 && MovedOn(TakeSeq(t), 1) == UPDATED_TWICE
  {
    LastEvictable(TakeSeq(t), 1, 0, -1);
  }

  lemma ThriceUpdated(t: Table)
    requires t == UPDATED_TWICE
    ensures Find(t.slots, 6) < 0 && SlotFor(TakeSeq(t), 6) == 3 && MovedOn(TakeSeq(t), 3) == UPDATED_THRICE
  {
    LastEvictable(TakeSeq(t), 3, 0, -1);
  }

  lemma PeerFollows()
    ensures SlotFor(UPDATED_THRICE, 4) == 1 && PeerMovedOn(UPDATED_THRICE, 4, 1) == FOLLOWED_ONCE
    ensures SlotFor(FOLLOWED_ONCE, 5) == 2 && PeerMovedOn(FOLLOWED_ONCE, 5, 2) == FOLLOWED_TWICE
    ensures SlotFor(FOLLOWED_TWICE, 6) == 3 && PeerMovedOn(FOLLOWED_TWICE, 6, 3) == FOLLOWED_THRICE
  {
    LastEvictable(UPDATED_THRICE, 1, 0, -1);
    LastEvictable(FOLLOWED_ONCE, 2, 0, -1);
    FindAt(FOLLOWED_TWICE.slots, 6, 3);
  }

  /** Sending again in an epoch whose counter was lost. */
  lemma RetransmissionRepeats(s: State)
    requires Inv(s) && |s.rtx| == 1 && s.rtx[0].epoch in s.trace.spent
    requires SendingEpoch(s.table) != s.rtx[0].epoch && UseKeys(s.table, s.rtx[0].epoch, EncryptOnly).0
    ensures Enabled(s, RetransmitOp([])) && !NumbersUnique(Step(s, RetransmitOp([])).1.trace.log)
  {
    var s1 := Step(s, RetransmitOp([])).1;
    var st := s.(table := SwitchTo(s.table, s.rtx[0].epoch).1);
    StepKeeps(s, RetransmitOp([]));
    EmitStale(st, s.rtx[0].id, Handshake(s.rtx[0].hsType, s.rtx[0].frag), !IsEncrypted(s.rtx[0].hsType), Sent);
    SameTrace(s);
    hide Step, Emit;
    assert !NoneStale(s1.trace);
  }

  lemma SameTrace(s: State)
    requires Inv(s) && |s.rtx| == 1 && SwitchTo(s.table, s.rtx[0].epoch).0
    ensures Retransmit(s, 0, []).1.trace ==
      Emit(s.(table := SwitchTo(s.table, s.rtx[0].epoch).1), s.rtx[0].id, Handshake(s.rtx[0].hsType, s.rtx[0].frag),
           !IsEncrypted(s.rtx[0].hsType), Sent).1.trace
  {
    assert WellFormed(s);
    hide Emit, SwitchTo, Inv, IsEncrypted, Track, MovedToEnd;
    var s1 := RetransmitOne(s, 0, Sent).1;
    assert Retransmit(s1, 1, []) == (Ok, s1);
  }

  const CERTIFICATE: HandshakeType := 11

  lemma FirstUpdate() returns (s: State)
    ensures Inv(s) && Reaches(Start(4, 2, false, 0), s) && s.table == UPDATED_ONCE
    ensures s.rtx == [] && !s.waitKeyUpdateAck && s.cidSize == 0
  {
    var s0 := AfterHandshake();
    OnceUpdated(s0.table);
    assert ReadyForKeyUpdate(s0, 3);
    hide Inv, Start, Reaches, TakeSeq, Find, SlotFor, MovedOn, ReadyForKeyUpdate;
    s := KeyUpdateRun(s0, 3);
    Onwards(Start(4, 2, false, 0), s0, s);
  }

  /** A further key update, with one old message not acknowledged. */
  lemma LaterUpdate(start: State, s: State, i: nat) returns (s1: State)
    requires Inv(start) && Reaches(start, s) && ReadyForKeyUpdate(s, i)
    ensures Inv(s1) && Reaches(start, s1)
    ensures s1.table == MovedOn(TakeSeq(s.table), i) && s1.rtx == s.rtx && !s1.waitKeyUpdateAck && s1.cidSize == 0
    ensures s.trace.spent.Keys <= s1.trace.spent.Keys
    ensures var t := TakeSeq(s.table); t.slots[i].isValid && t.slots[i].nextSeq > 0 ==>
      t.slots[i].epochNumber in s1.trace.spent
  {
    s1 := KeyUpdateRun(s, i);
    hide Inv, Reaches, TakeSeq, Find, SlotFor, MovedOn, Valid;
    Onwards(start, s, s1);
  }

  /** Only the message in epoch 4 is on the list. */
  ghost predicate OldMessage(s: State) {
    && |s.rtx| == 1 && s.rtx[0].hsType == CERTIFICATE && s.rtx[0].epoch == 4 && s.rtx[0].tracked == [0]
    && s.cidSize == 0 && !s.waitKeyUpdateAck
  }

  lemma SecondReady(s: State)
    requires Inv(s) && OldMessage(s)
        && s.table == UPDATED_ONCE.(slots := UPDATED_ONCE.slots[3 := Live(4, 1, EncryptOnly)])
    ensures ReadyForKeyUpdate(s, 1) && MovedOn(TakeSeq(s.table), 1) == UPDATED_TWICE
  {
    hide NumbersOk, Gapless, RtxOk;
    TwiceUpdated(s.table);
  }

  lemma ThirdReady(s: State)
    requires Inv(s) && OldMessage(s) && s.table == UPDATED_TWICE
    ensures ReadyForKeyUpdate(s, 3) && MovedOn(TakeSeq(s.table), 3) == UPDATED_THRICE
    ensures TakeSeq(s.table).slots[3] == Live(4, 2, EncryptOnly)
  {
    hide NumbersOk, Gapless, RtxOk;
    ThriceUpdated(s.table);
  }

  /** This end updates its keys three times, which throws out epoch 4 with a message sent in it never acknowledged. */
  lemma EpochFourThrownOut() returns (s: State)
    ensures Inv(s) && Reaches(Start(4, 2, false, 0), s)
    ensures s.table == UPDATED_THRICE && 4 in s.trace.spent && OldMessage(s)
  {
    var s1 := FirstUpdate();
    hide Inv, Start, Reaches, MovedOn, TakeSeq, ReadyForKeyUpdate;
    s := MessageSent(Start(4, 2, false, 0), s1);
    SecondReady(s);
    s := LaterUpdate(Start(4, 2, false, 0), s, 1);
    ThirdReady(s);
    s := LaterUpdate(Start(4, 2, false, 0), s, 3);
  }

  lemma MessageSent(s0: State, s: State) returns (s1: State)
    requires Inv(s0) && Inv(s) && Reaches(s0, s) && s.table == UPDATED_ONCE && s.rtx == [] && s.cidSize == 0
    requires !s.waitKeyUpdateAck
    ensures Inv(s1) && Reaches(s0, s1)
    ensures s1.table == UPDATED_ONCE.(slots := UPDATED_ONCE.slots[3 := Live(4, 1, EncryptOnly)])
    ensures OldMessage(s1)
  {
    ShortSend(s, CERTIFICATE, [0]);
    s1 := Further(s0, s, SendMessage(CERTIFICATE, [0], 200, Sent, []));
  }

  /** The run in which numbers repeat: the peer updates its keys as often.  The first time epoch 4 is installed again,
      for decryption only; the third time it is kept for encryption only.  Sending the old message again then starts
      at number 0 of epoch 4, which it was first sent with. */
  lemma OldEpochReturns() returns (s: State)
    ensures Reaches(Start(4, 2, false, 0), s) && s.table == FOLLOWED_THRICE && 4 in s.trace.spent
    ensures Inv(s) && Enabled(s, RetransmitOp([]))
    ensures !NumbersUnique(Step(s, RetransmitOp([])).1.trace.log)
  {
    var s0 := Start(4, 2, false, 0);
    var s4 := EpochFourThrownOut();
    PeerFollows();
    hide Inv, Step, Start, Reaches, SlotFor, PeerMovedOn;
    var s5 := PeerUpdateRun(s4, 4, 1);
    Onwards(s0, s4, s5);
    var s6 := PeerUpdateRun(s5, 5, 2);
    Onwards(s0, s5, s6);
    s := PeerUpdateRun(s6, 6, 3);
    Onwards(s0, s6, s);
    FindAt(FOLLOWED_THRICE.slots, 4, 1);
    RetransmissionRepeats(s);
  }

  // ----- a message resumed in an old epoch ---------------------------------------------------------------

  const FINISHED: HandshakeType := 20

  /** The Finished message is sent in epoch 2, ... */
  lemma FinishedSent() returns (s: State)
    ensures Inv(s) && Reaches(Start(4, 2, false, 0), s)
    ensures s.table == Table([PLAIN, Live(2, 1, EncryptAndDecrypt), ZEROED, ZEROED], 1, 0, 2, 0, false)
    ensures |s.rtx| == 1 && s.rtx[0].epoch == 2 && s.rtx[0].hsType == FINISHED && s.buffer.Idle? && s.cidSize == 0
  {
    var s0 := Start(4, 2, false, 0);
    StartReaches(s0);
    FinishedTable(s0.table);
    hide Inv, Step, Enabled, Install, Start, Reaches, Find;
    var n: word64, both := 2, EncryptAndDecrypt;
    InstallStep(s0, n, both);
    s := Further(s0, s0, InstallOp(n, both));
    TableSteps(s, n, both);
    s := Further(s0, s, AdoptSendEpoch(n));
    ShortSend(s, FINISHED, [0]);
    s := Further(s0, s, SendMessage(FINISHED, [0], 200, Sent, []));
  }

  /** ... it is not acknowledged, and epoch 3 takes over. */
  lemma FinishedUnacknowledged() returns (s: State)
    ensures Inv(s) && Reaches(Start(4, 2, false, 0), s)
    ensures s.table == Table([PLAIN, Live(2, 1, EncryptAndDecrypt), Live(3, 0, EncryptAndDecrypt), ZEROED],
                             1, 0, 3, 0, true)
    ensures |s.rtx| == 1 && s.rtx[0].epoch == 2 && s.rtx[0].hsType == FINISHED && s.buffer.Idle? && s.cidSize == 0
  {
    hide Inv, Step, Enabled, Install, Start, Reaches, Find;
    var s0 := Start(4, 2, false, 0);
    var m: word64, both := 3, EncryptAndDecrypt;
    s := FinishedSent();
    TrafficTable(s.table);
    InstallStep(s, m, both);
    s := Further(s0, s, InstallOp(m, both));
    TableSteps(s, m, both);
    s := Further(s0, s, AdoptSendEpoch(m));
    TableSteps(s, m, both);
    s := Further(s0, s, FinishHandshake);
  }

  lemma TrafficTable(t: Table)
    requires t.slots == [PLAIN, Live(2, 1, EncryptAndDecrypt), ZEROED, ZEROED] && !t.handShakeDone
    ensures Install(t, 3, EncryptAndDecrypt)
         == (true, t.(slots := [PLAIN, Live(2, 1, EncryptAndDecrypt), Live(3, 0, EncryptAndDecrypt), ZEROED]))
  {
    FillsFree(t, 3, EncryptAndDecrypt, 2);
    assert t.slots[2 := Live(3, 0, EncryptAndDecrypt)]
        == [PLAIN, Live(2, 1, EncryptAndDecrypt), Live(3, 0, EncryptAndDecrypt), ZEROED];
  }

  lemma FinishedTable(t: Table)
    requires t == Table([PLAIN, ZEROED, ZEROED, ZEROED], 0, 0, 0, 0, false)
    ensures var u := t.(slots := [PLAIN, HANDSHAKE, ZEROED, ZEROED]);
      var v := UseKeys(u.(sendEpoch := 2), 2, EncryptOnly);
      && Install(t, 2, EncryptAndDecrypt) == (true, u)
      && v == (true, u.(sendEpoch := 2, enc := 1))
      && TakeSeq(v.1) == v.1.(slots := [PLAIN, Live(2, 1, EncryptAndDecrypt), ZEROED, ZEROED])
  {
    FillsFree(t, 2, EncryptAndDecrypt, 1);
    var u := t.(slots := t.slots[1 := HANDSHAKE]);
    assert u.slots == [PLAIN, HANDSHAKE, ZEROED, ZEROED];
    FindAt(u.slots, 2, 1);
    var v := u.(sendEpoch := 2, enc := 1);
    assert TakeSeq(v).slots == [PLAIN, Live(2, 1, EncryptAndDecrypt), ZEROED, ZEROED];
  }

  /** The first fragment of a long protected message would block; the rest stays pending. */
  lemma LongSendBlocks(s: State, hsType: HandshakeType, body: seq<byte>)
    requires Inv(s) && SendingEpoch(s.table) != s.table.sendEpoch && s.buffer.Idle?
    requires UseKeys(s.table, s.table.sendEpoch, EncryptOnly).0
    requires IsEncrypted(hsType) && |body| == 300 && s.cidSize == 0
    ensures var op := SendMessage(hsType, body, 200, Sent, [Build(WouldBlock)]); var s1 := Step(s, op).1;
      && Enabled(s, op)
      && s1.table == TakeSeq(UseKeys(s.table, s.table.sendEpoch, EncryptOnly).1)
      && s1.cidSize == 0 && s1.buffer == Pending(hsType, body, 183)
      && |s1.rtx| == |s.rtx| + 1 && s1.rtx[..|s.rtx|] == s.rtx
  {
    hide NumbersOk, Gapless, RtxOk;
    var t := UseKeys(s.table, s.table.sendEpoch, EncryptOnly).1;
    assert SwitchTo(s.table, s.table.sendEpoch) == (true, t);
    hide UseKeys, SwitchTo;
  }

  /** The first record sent again would block. */
  lemma RetransmissionBlocks(s: State)
    requires Inv(s) && s.rtx != [] && SendingEpoch(s.table) != s.rtx[0].epoch && IsEncrypted(s.rtx[0].hsType)
    requires UseKeys(s.table, s.rtx[0].epoch, EncryptOnly).0
    ensures var s1 := Step(s, RetransmitOp([Build(WouldBlock)])).1;
      && Enabled(s, RetransmitOp([Build(WouldBlock)]))
      && s1.buffer == s.buffer && s1.cidSize == s.cidSize && s1.table.enc < |s1.table.slots|
      && SendingEpoch(s1.table) == s.rtx[0].epoch
      && s1.table.sendEpoch == s.table.sendEpoch && s1.table.handShakeDone == s.table.handShakeDone
  {
    hide NumbersOk, Gapless, RtxOk;
    var t := UseKeys(s.table, s.rtx[0].epoch, EncryptOnly).1;
    assert SwitchTo(s.table, s.rtx[0].epoch) == (true, t);
    hide UseKeys, SwitchTo, Track, MovedToEnd;
  }

  /** The first fragment of a new message would block, in epoch 3. */
  lemma BlockedOnce(body: seq<byte>) returns (s: State)
    requires |body| == 300
    ensures Reaches(Start(4, 2, false, 0), s) && Inv(s) && s.table.handShakeDone && s.table.sendEpoch == 3
    ensures s.buffer == Pending(CERTIFICATE, body, 183) && s.cidSize == 0 && SendingEpoch(s.table) == 3
    ensures s.rtx != [] && s.rtx[0].epoch == 2 && s.rtx[0].hsType == FINISHED && UseKeys(s.table, 2, EncryptOnly).0
  {
    var s1 := FinishedUnacknowledged();
    BothLive(s1.table);
    LongSendBlocks(s1, CERTIFICATE, body);
    hide Inv, Step, Enabled, Start, Reaches, Find, UseKeys, TakeSeq;
    s := Further(Start(4, 2, false, 0), s1, SendMessage(CERTIFICATE, body, 200, Sent, [Build(WouldBlock)]));
    assert s.rtx[0] == s1.rtx[0];
    BothLiveAgain(s.table);
  }

  /** ... and then the Finished message, in epoch 2. */
  lemma BlockedTwice() returns (s: State)
    ensures Reaches(Start(4, 2, false, 0), s) && Inv(s) && s.table.handShakeDone && s.table.sendEpoch == 3
    ensures s.buffer.Pending? && s.buffer.offset < |s.buffer.message| && s.buffer.hsType == CERTIFICATE
        && s.cidSize == 0
    ensures SendingEpoch(s.table) == 2
  {
    var s1 := BlockedOnce(seq(300, _ => 0));
    assert SendingEpoch(s1.table) == 3;
    hide Inv, Step, Enabled, Start, Reaches, Find, UseKeys;
    RetransmissionBlocks(s1);
    s := Further(Start(4, 2, false, 0), s1, RetransmitOp([Build(WouldBlock)]));
  }

  /** The run in which a new message goes out in an old epoch: when it is resumed then, in epoch 2 as well. */
  lemma ResumedInOldEpoch() returns (s: State)
    ensures Reaches(Start(4, 2, false, 0), s) && Inv(s) && s.table.handShakeDone && s.table.sendEpoch == 3
    ensures Enabled(s, ResumeMessage(200, []))
    ensures var s1 := Step(s, ResumeMessage(200, [])).1;
      |s1.trace.log| > |s.trace.log| && s1.trace.log[|s.trace.log|].epoch == 2
  {
    s := BlockedTwice();
    hide Inv, Step, Enabled, Start, Reaches;
    ResumptionHandsOut(s, ResumeMessage(200, []));
  }

  lemma BothLive(t: Table)
    requires t == Table([PLAIN, Live(2, 1, EncryptAndDecrypt), Live(3, 0, EncryptAndDecrypt), ZEROED], 1, 0, 3, 0, true)
    ensures UseKeys(t, 3, EncryptOnly) == (true, t.(enc := 2))
    ensures TakeSeq(t.(enc := 2)).slots == [PLAIN, Live(2, 1, EncryptAndDecrypt), Live(3, 1, EncryptAndDecrypt), ZEROED]
  {
    FindAt(t.slots, 3, 2);
  }

  lemma BothLiveAgain(t: Table)
    requires t.slots == [PLAIN, Live(2, 1, EncryptAndDecrypt), Live(3, 1, EncryptAndDecrypt), ZEROED]
    ensures UseKeys(t, 2, EncryptOnly).0
  {
    FindAt(t.slots, 2, 1);
  }

  lemma ResumptionHandsOut(s: State, op: Op)
    requires Inv(s) && op == ResumeMessage(200, []) && s.buffer.Pending? && s.buffer.offset < |s.buffer.message|
    requires IsEncrypted(s.buffer.hsType) && s.cidSize == 0
    ensures Enabled(s, op)
    ensures var s1 := Step(s, op).1;
      |s1.trace.log| > |s.trace.log| && s1.trace.log[|s.trace.log|].epoch == SendingEpoch(s.table)
  {
    var (ret, s2) := FragmentTurn(s, 200, Build(Sent));
    assert FirstAttempt([]) == Build(Sent);
    TurnHandsOut(s, 200, Build(Sent));
    FragmentTurnSentIn(s, 200, Build(Sent));
    hide Inv, FragmentTurn;
    if ret.Ok? {
      SendPendingSentIn(s2, 200, []);
    }
  }

  // ----- a key update that never was ---------------------------------------------------------------------

  /** A KeyUpdate whose record is built but neither written nor queued. */
  lemma KeyUpdateFails(s: State)
    requires WellFormed(s) && SendingEpoch(s.table) == s.table.sendEpoch && s.cidSize == 0
    ensures var op := SendMessage(KEY_UPDATE, [0], 200, FailedLate, []);
      && Enabled(s, op) && Loses(s, op) == !HasKeyUpdate(s.rtx)
      && var s1 := Step(s, op).1;
      && s1.table == TakeSeq(s.table) && s1.rtx == s.rtx && s1.waitKeyUpdateAck
      && |s1.trace.log| == |s.trace.log| + 1 && !s1.trace.log[|s.trace.log|].queued
  {
    hide TakeSeq, HasKeyUpdate;
  }

  /** An ACK without numbers ends the key update. */
  lemma EmptyAckMovesOn(s: State, i: nat)
    requires Valid(s.table) && s.table.sendEpoch < TWO_64 - 1 && s.rtx == [] && s.waitKeyUpdateAck
    requires SlotFor(s.table, s.table.sendEpoch + 1) == i && Find(s.table.slots, s.table.sendEpoch + 1) < 0
    ensures CompletesKeyUpdate(s, AckReceived([], true))
    ensures ReceiveAck(s, [], true).1.table == MovedOn(s.table, i)
  {
    MovesOn(s.(waitKeyUpdateAck := false), i);
    hide KeyUpdateAcked, MovedOn, SlotFor, Find;
    assert RemoveEach(s.rtx, []) == s.rtx;
    assert s.(rtx := []) == s;
  }

  lemma FailedKeyUpdate() returns (s: State)
    ensures Reaches(Start(4, 2, false, 0), s) && Inv(s) && s.table == TakeSeq(Table(FIRST_SLOTS, 2, 2, 3, 3, true))
    ensures s.rtx == [] && s.waitKeyUpdateAck && |s.trace.log| == 1 && !s.trace.log[0].queued
  {
    var s0 := AfterHandshake();
    KeyUpdateFails(s0);
    hide Inv, Step, Enabled, Start, Reaches, TakeSeq, Loses;
    s := Further(Start(4, 2, false, 0), s0, SendMessage(KEY_UPDATE, [0], 200, FailedLate, []));
  }

  /** The run in which a key update completes that the peer never saw: sending the KeyUpdate fails, nothing is on the
      list, and an ACK that names no record moves the send epoch on. */
  lemma UnsentKeyUpdateCompletes() returns (s: State)
    ensures Reaches(Start(4, 2, false, 0), s) && Inv(s) && s.table.sendEpoch == 3
    ensures forall k :: 0 <= k < |s.trace.log| ==> !s.trace.log[k].queued
    ensures CompletesKeyUpdate(s, AckReceived([], true)) && !NamesKeyUpdate(s, [])
    ensures Step(s, AckReceived([], true)).1.table.sendEpoch == 4
  {
    hide Inv, Step, Start, Reaches, SlotFor, Find, TakeSeq, Valid, CompletesKeyUpdate, NamesKeyUpdate;
    s := FailedKeyUpdate();
    KeyUpdateTable(s.table);
    AckStep(s, AckReceived([], true));
    EmptyAckMovesOn(s, 3);
    NothingNamed(s);
  }

  lemma KeyUpdateTable(t: Table)
    requires t == TakeSeq(Table(FIRST_SLOTS, 2, 2, 3, 3, true))
    ensures Valid(t) && t.sendEpoch == 3 && SlotFor(t, 4) == 3 && Find(t.slots, 4) < 0
  {
    FirstFree(t, 3, 0, -1);
  }

  lemma NothingNamed(s: State)
    ensures !NamesKeyUpdate(s, [])
  {
  }
}
