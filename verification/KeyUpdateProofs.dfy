/** Section 8 of RFC 9147: the send epoch changes only when an ACK has cleared every
    KeyUpdate from the retransmission list, and until then everything new is sent in the old epoch. */
module KeyUpdateProofs {
  import opened Words
  import opened EpochTable
  import opened RtxQueue
  import opened SenderSpec
  import opened SenderProofs

  /** The ACK that ends a key update: one is awaited and no KeyUpdate record is left afterwards. */
  predicate CompletesKeyUpdate(s: State, op: Op) {
    op.AckReceived? && s.waitKeyUpdateAck && !HasKeyUpdate(RemoveEach(s.rtx, op.rns))
  }

  ghost predicate SameEpochs(t: Table, u: Table) {
    u.sendEpoch == t.sendEpoch && u.handShakeDone == t.handShakeDone && u.enc < |u.slots|
  }

  /** Everything sent between the two states was sent in epoch n. */
  ghost predicate SentIn(s: State, s1: State, n: word64) {
    && SameEpochs(s.table, s1.table)
    && |s.trace.log| <= |s1.trace.log|
    && forall k :: |s.trace.log| <= k < |s1.trace.log| ==> s1.trace.log[k].epoch == n
  }

  lemma SentInTwice(s: State, s1: State, s2: State, n: word64)
    requires SentIn(s, s1, n) && SentIn(s1, s2, n) && s1.trace.log <= s2.trace.log
    ensures SentIn(s, s2, n)
  {
  }

  lemma EmitSentIn(s: State, owner: int, payload: Payload, plain: bool, wire: Wire)
    requires s.table.enc < |s.table.slots|
    ensures var s1 := Emit(s, owner, payload, plain, wire).1;
      SentIn(s, s1, SendingEpoch(s.table)) && SendingEpoch(s1.table) == SendingEpoch(s.table)
          && s.trace.log <= s1.trace.log
  {
  }

  lemma SendOneFragmentSentIn(s: State, hsType: HandshakeType, frag: Fragment, wire: Wire)
    requires s.table.enc < |s.table.slots|
    ensures var s1 := SendOneFragment(s, hsType, frag, wire).1;
      SentIn(s, s1, SendingEpoch(s.table)) && SendingEpoch(s1.table) == SendingEpoch(s.table)
          && s.trace.log <= s1.trace.log
  {
    hide Emit;
    EmitSentIn(s, if hsType == HELLO_RETRY_REQUEST then -1 else s.trace.nextId, Handshake(hsType, frag),
               !IsEncrypted(hsType), wire);
  }

  lemma FragmentTurnSentIn(s: State, maxFrag: nat, attempt: Attempt)
    requires s.table.enc < |s.table.slots|
    requires s.buffer.Pending? && s.buffer.offset < |s.buffer.message|
    requires maxFrag > HeadersLength(s.cidSize, s.buffer.hsType)
    ensures var s1 := FragmentTurn(s, maxFrag, attempt).1;
      SentIn(s, s1, SendingEpoch(s.table)) && SendingEpoch(s1.table) == SendingEpoch(s.table)
          && s.trace.log <= s1.trace.log
  {
    hide SendOneFragment;
    if attempt.Build? {
      SendOneFragmentSentIn(s, s.buffer.hsType, NextFragment(s, maxFrag), attempt.wire);
    }
  }

  lemma {:induction false} SendPendingSentIn(s: State, maxFrag: nat, plan: seq<Attempt>)
    requires s.table.enc < |s.table.slots|
    requires s.buffer.Pending? && s.buffer.offset <= |s.buffer.message|
    requires maxFrag > HeadersLength(s.cidSize, s.buffer.hsType)
    ensures var s1 := SendPending(s, maxFrag, plan).1;
      SentIn(s, s1, SendingEpoch(s.table)) && s.trace.log <= s1.trace.log
    decreases |s.buffer.message| - s.buffer.offset
  {
    hide FragmentTurn;
    if s.buffer.offset < |s.buffer.message| {
      FragmentTurnSentIn(s, maxFrag, FirstAttempt(plan));
      var (ret, s1) := FragmentTurn(s, maxFrag, FirstAttempt(plan));
      if ret.Ok? {
        SendPendingSentIn(s1, maxFrag, Rest(plan));
        SentInTwice(s, s1, SendPending(s1, maxFrag, Rest(plan)).1, SendingEpoch(s.table));
      }
    }
  }

  lemma RetransmitOneSameEpochs(s: State, i: nat, wire: Wire)
    requires s.table.enc < |s.table.slots| && i < |s.rtx|
    ensures SameEpochs(s.table, RetransmitOne(s, i, wire).1.table)
  {
    hide Emit, SwitchTo, Track, MovedToEnd;
    var r := s.rtx[i];
    var t := SwitchTo(s.table, r.epoch).1;
    EmitSentIn(s.(table := t), r.id, Handshake(r.hsType, r.frag), !IsEncrypted(r.hsType), wire);
  }

  lemma {:induction false} RetransmitSameEpochs(s: State, i: nat, plan: seq<Attempt>)
    requires s.table.enc < |s.table.slots|
    ensures SameEpochs(s.table, Retransmit(s, i, plan).1.table)
    decreases |s.rtx| - i
  {
    hide RetransmitOne;
    if i < |s.rtx| && FirstAttempt(plan).Build? {
      var s1 := RetransmitOne(s, i, FirstAttempt(plan).wire).1;
      RetransmitOneSameEpochs(s, i, FirstAttempt(plan).wire);
      RetransmitSameEpochs(s1, i + 1, Rest(plan));
    }
  }

  lemma SendWholeSentIn(s: State, hsType: HandshakeType, body: seq<byte>, wire: Wire)
    requires s.table.enc < |s.table.slots|
    ensures SentIn(s, SendWhole(s, hsType, body, wire).1, SendingEpoch(s.table))
  {
    SendOneFragmentSentIn(s, hsType, Fragment(s.hsNumber, |body|, 0, body), wire);
  }

  lemma SendFragmentedSentIn(s: State, hsType: HandshakeType, body: seq<byte>, maxFrag: nat, plan: seq<Attempt>)
    requires s.table.enc < |s.table.slots| && maxFrag > HeadersLength(s.cidSize, hsType)
    ensures SentIn(s, SendFragmented(s, hsType, body, maxFrag, plan).1, SendingEpoch(s.table))
  {
    if s.buffer.Idle? {
      SendPendingSentIn(TakenOn(s, hsType, body), maxFrag, plan);
    }
  }

  lemma SendBySizeSentIn(s: State, hsType: HandshakeType, body: seq<byte>, maxFrag: nat, wire: Wire, plan: seq<Attempt>)
    requires s.table.enc < |s.table.slots| && maxFrag > HeadersLength(s.cidSize, hsType)
    ensures SentIn(s, SendBySize(s, hsType, body, maxFrag, wire, plan).1, SendingEpoch(s.table))
  {
    hide SendWhole, SendFragmented;
    SendWholeSentIn(s, hsType, body, wire);
    SendFragmentedSentIn(s, hsType, body, maxFrag, plan);
  }

  lemma HandshakeSendSentIn(s: State, hsType: HandshakeType, body: seq<byte>, maxFrag: nat, wire: Wire,
                            plan: seq<Attempt>)
    requires s.table.enc < |s.table.slots| && maxFrag > HeadersLength(s.cidSize, hsType)
    ensures SentIn(s, HandshakeSend(s, hsType, body, maxFrag, wire, plan).1, s.table.sendEpoch)
  {
    hide SendBySize, SwitchTo;
    var (ok, t) := SwitchTo(s.table, s.table.sendEpoch);
    if ok {
      SendBySizeSentIn(s.(table := t, waitKeyUpdateAck := s.waitKeyUpdateAck || hsType == KEY_UPDATE),
                       hsType, body, maxFrag, wire, plan);
    }
  }

  lemma SendOtherSentIn(s: State, attempt: Attempt)
    requires s.table.enc < |s.table.slots|
    ensures SentIn(s, SendOther(s, attempt).1, SendingEpoch(s.table))
  {
  }

  lemma SendAckSentIn(s: State, attempt: Attempt)
    requires WellFormed(s)
    ensures SameEpochs(s.table, SendAck(s, attempt).1.table)
    ensures s.table.handShakeDone ==> SentIn(s, SendAck(s, attempt).1, s.table.sendEpoch)
  {
    hide SendOther;
    SendOtherSentIn(s.(table := SwitchForAck(s).1), attempt);
  }

  lemma SendDataSentIn(s: State, early: bool, attempt: Attempt)
    requires WellFormed(s)
    ensures SameEpochs(s.table, SendData(s, early, attempt).1.table)
    ensures !early ==> SentIn(s, SendData(s, early, attempt).1, s.table.sendEpoch)
  {
    hide SendOther;
    SendOtherSentIn(s.(table := UseKeys(s.table, DTLS13_EPOCH_EARLYDATA, EncryptOnly).1), attempt);
    SendOtherSentIn(s.(table := SwitchTo(s.table, s.table.sendEpoch).1), attempt);
  }

  lemma AckMovesEpoch(s: State, rns: seq<RecordNumber>, derived: bool)
    ensures var n := Increment64(s.table.sendEpoch); var s1 := ReceiveAck(s, rns, derived).1;
      && s1.table.handShakeDone == s.table.handShakeDone
      && s1.table.sendEpoch ==
           if CompletesKeyUpdate(s, AckReceived(rns, derived)) && derived && SlotFor(s.table, n) >= 0 then n
           else s.table.sendEpoch
  {
    hide RemoveEach, HasKeyUpdate, SlotFor, Retire;
    InstallMovesNothing(s.table, Increment64(s.table.sendEpoch), EncryptOnly);
    hide Install;
  }

  lemma InstallMovesNothing(t: Table, n: word64, side: Side)
    ensures var (ok, u) := Install(t, n, side); u == t.(slots := u.slots) && (ok <==> SlotFor(t, n) >= 0)
  {
  }

  /** Once the handshake is done the send epoch moves exactly in the steps that complete a key update
      for which keys could be derived and a slot found, and then to the next number. */
  lemma SendEpochMovesExactlyOnAck(s: State, op: Op)
    requires WellFormed(s) && Enabled(s, op) && s.table.handShakeDone
    ensures var n := Increment64(s.table.sendEpoch);
      Step(s, op).1.table.sendEpoch ==
        if CompletesKeyUpdate(s, op) && op.derived && SlotFor(s.table, n) >= 0 then n else s.table.sendEpoch
    ensures Step(s, op).1.table.handShakeDone
  {
    match op
    case SendMessage(hsType, body, maxFrag, wire, plan) => HandshakeSendSentIn(s, hsType, body, maxFrag, wire, plan);
    case ResumeMessage(maxFrag, plan) => SendPendingSentIn(s, maxFrag, plan);
    case RetransmitOp(plan) => RetransmitSameEpochs(s, 0, plan);
    case SendAckOp(attempt) => SendAckSentIn(s, attempt);
    case SendDataOp(early, attempt) => SendDataSentIn(s, early, attempt);
    case AckReceived(rns, derived) => AckMovesEpoch(s, rns, derived);
    case _ =>
  }

  // ----- a resumed message ---------------------------------------------------------------------------

  /** Does resuming the message hand out a record number? */
  predicate ResumptionSends(s: State, plan: seq<Attempt>) {
    && s.buffer.Pending? && s.buffer.offset < |s.buffer.message|
    && FirstAttempt(plan).Build? && !FirstAttempt(plan).wire.FailedEarly?
  }

  lemma TurnHandsOut(s: State, maxFrag: nat, attempt: Attempt)
    requires s.table.enc < |s.table.slots|
    requires s.buffer.Pending? && s.buffer.offset < |s.buffer.message|
    requires maxFrag > HeadersLength(s.cidSize, s.buffer.hsType)
    ensures var s1 := FragmentTurn(s, maxFrag, attempt).1;
      |s1.trace.log| == |s.trace.log| + if attempt.Build? && !attempt.wire.FailedEarly? then 1 else 0
  {
    if attempt.Build? {
      FragmentHandsOut(s, s.buffer.hsType, NextFragment(s, maxFrag), attempt.wire);
      hide SendOneFragment;
    }
  }

  lemma FragmentHandsOut(s: State, hsType: HandshakeType, frag: Fragment, wire: Wire)
    requires s.table.enc < |s.table.slots|
    ensures var s1 := SendOneFragment(s, hsType, frag, wire).1;
      |s1.trace.log| == |s.trace.log| + if wire.FailedEarly? then 0 else 1
  {
    hide Emit, IsEncrypted;
    EmitHandsOut(s, if hsType == HELLO_RETRY_REQUEST then -1 else s.trace.nextId, Handshake(hsType, frag),
                 !IsEncrypted(hsType), wire);
  }

  lemma EmitHandsOut(s: State, owner: int, payload: Payload, plain: bool, wire: Wire)
    requires s.table.enc < |s.table.slots|
    ensures |Emit(s, owner, payload, plain, wire).1.trace.log| == |s.trace.log| + if wire.FailedEarly? then 0 else 1
  {
    hide EmitRet, TakeSeq, SendingEpoch, NextSeq;
  }

  /** The switch to the send epoch that starts a message is missing where one is resumed: what is sent of it then is
      sent in the send epoch if and only if nothing is sent or the send epoch happens to be in use. */
  lemma ResumedInSendEpoch(s: State, maxFrag: nat, plan: seq<Attempt>)
    requires s.table.enc < |s.table.slots| && s.buffer.Pending? && s.buffer.offset <= |s.buffer.message|
    requires maxFrag > HeadersLength(s.cidSize, s.buffer.hsType)
    ensures SentIn(s, ContinueFragments(s, maxFrag, plan).1, s.table.sendEpoch)
       <==> (ResumptionSends(s, plan) ==> SendingEpoch(s.table) == s.table.sendEpoch)
  {
    hide SendPending, ResumptionSends;
    SendPendingSentIn(s, maxFrag, plan);
    ResumptionCounts(s, maxFrag, plan);
    var s1 := SendPending(s, maxFrag, plan).1;
    if ResumptionSends(s, plan) {
      assert s1.trace.log[|s.trace.log|].epoch == SendingEpoch(s.table);
    }
  }

  lemma ResumptionCounts(s: State, maxFrag: nat, plan: seq<Attempt>)
    requires s.table.enc < |s.table.slots| && s.buffer.Pending? && s.buffer.offset <= |s.buffer.message|
    requires maxFrag > HeadersLength(s.cidSize, s.buffer.hsType)
    ensures var s1 := SendPending(s, maxFrag, plan).1;
      |s1.trace.log| >= |s.trace.log| && (|s1.trace.log| > |s.trace.log| <==> ResumptionSends(s, plan))
  {
    if s.buffer.offset < |s.buffer.message| {
      FirstTurnIsIn(s, maxFrag, plan);
    }
  }

  lemma FirstTurnIsIn(s: State, maxFrag: nat, plan: seq<Attempt>)
    requires s.table.enc < |s.table.slots| && s.buffer.Pending? && s.buffer.offset < |s.buffer.message|
    requires maxFrag > HeadersLength(s.cidSize, s.buffer.hsType)
    ensures var s1 := SendPending(s, maxFrag, plan).1;
      |s1.trace.log| >= |s.trace.log| && (|s1.trace.log| > |s.trace.log| <==> ResumptionSends(s, plan))
  {
    TurnHandsOut(s, maxFrag, FirstAttempt(plan));
    FragmentTurnSentIn(s, maxFrag, FirstAttempt(plan));
    TurnStops(s, maxFrag, FirstAttempt(plan));
    hide FragmentTurn, SentIn;
    var (ret, s1) := FragmentTurn(s, maxFrag, FirstAttempt(plan));
    if ret.Ok? {
      SendPendingSentIn(s1, maxFrag, Rest(plan));
      assert SendPending(s, maxFrag, plan) == SendPending(s1, maxFrag, Rest(plan));
    } else {
      assert SendPending(s, maxFrag, plan) == (ret, s1);
    }
  }

  /** A turn that hands out no number ends the call. */
  lemma TurnStops(s: State, maxFrag: nat, attempt: Attempt)
    requires s.table.enc < |s.table.slots| && s.buffer.Pending? && s.buffer.offset < |s.buffer.message|
    requires maxFrag > HeadersLength(s.cidSize, s.buffer.hsType)
    ensures FragmentTurn(s, maxFrag, attempt).0.Ok? ==> attempt.Queues()
  {
    TurnJoins(s, maxFrag, attempt);
    hide FragmentTurn;
  }

  /** No step of the run completes a key update. */
  ghost predicate Unacknowledged(s: State, ops: seq<Op>)
    requires Inv(s) && LegalRun(s, ops)
    decreases |ops|
  {
    ops == [] || (!CompletesKeyUpdate(s, ops[0]) && Unacknowledged(Next(s, ops[0]), ops[1..]))
  }

  /** Does the operation send handshake messages, acknowledgements, alerts or application data? */
  predicate SendsInTraffic(op: Op) {
    op.SendMessage? || op.ResumeMessage? || op.SendAckOp? || (op.SendDataOp? && !op.early)
  }

  lemma SentInSendEpoch(s: State, op: Op)
    requires WellFormed(s) && s.table.handShakeDone && Enabled(s, op) && SendsInTraffic(op)
    ensures SentIn(s, Step(s, op).1, s.table.sendEpoch)
       <==> (op.ResumeMessage? && ResumptionSends(s, op.plan) ==> SendingEpoch(s.table) == s.table.sendEpoch)
  {
    hide HandshakeSend, ContinueFragments, SendAck, SendData, SentIn;
    match op
    case SendMessage(hsType, body, maxFrag, wire, plan) => HandshakeSendSentIn(s, hsType, body, maxFrag, wire, plan);
    case ResumeMessage(maxFrag, plan) => ResumedInSendEpoch(s, maxFrag, plan);
    case SendAckOp(attempt) => SendAckSentIn(s, attempt);
    case SendDataOp(early, attempt) => SendDataSentIn(s, early, attempt);
  }

  /** Over any run after the handshake in which no KeyUpdate is acknowledged the send epoch stays, and what is sent
      after it, like before it, goes out in that epoch; with the exception of a resumed message, exactly when it has
      something to send while another epoch is in use. */
  lemma {:induction false} OldEpochUntilAcked(s: State, ops: seq<Op>, op: Op)
    requires Inv(s) && s.table.handShakeDone
    requires LegalRun(s, ops) && Unacknowledged(s, ops)
    requires Enabled(Run(s, ops), op) && SendsInTraffic(op)
    ensures var s1 := Run(s, ops);
      && s1.table.sendEpoch == s.table.sendEpoch
      && (SentIn(s1, Step(s1, op).1, s.table.sendEpoch)
          <==> (op.ResumeMessage? && ResumptionSends(s1, op.plan) ==> SendingEpoch(s1.table) == s.table.sendEpoch))
    decreases |ops|
  {
    hide Step, SentIn, ResumptionSends, CompletesKeyUpdate;
    if ops == [] {
      SentInSendEpoch(s, op);
    } else {
      SendEpochMovesExactlyOnAck(s, ops[0]);
      OldEpochUntilAcked(Next(s, ops[0]), ops[1..], op);
    }
  }

  // ----- what the acknowledgement acknowledges --------------------------------------------------------------

  /** An acknowledgement is awaited only while a KeyUpdate is on the list. */
  ghost predicate Awaited(s: State) { s.waitKeyUpdateAck ==> HasKeyUpdate(s.rtx) }

  /** Is the first record of the message written or queued? */
  predicate FirstQueued(s: State, hsType: HandshakeType, body: seq<byte>, maxFrag: nat, wire: Wire,
                        plan: seq<Attempt>) {
    if HeadersLength(s.cidSize, hsType) + |body| < maxFrag then Build(wire).Queues()
    else s.buffer.Idle? && FirstAttempt(plan).Queues()
  }

  /** The list is flushed while an acknowledgement is awaited, or a KeyUpdate begins to be awaited of which no record is
      queued, with none of another on the list. */
  predicate Loses(s: State, op: Op)
    requires s.table.enc < |s.table.slots|
  {
    match op
    case FlushOp(keepTickets) => s.waitKeyUpdateAck
    case SendMessage(hsType, body, maxFrag, wire, plan) =>
      && hsType == KEY_UPDATE && SwitchTo(s.table, s.table.sendEpoch).0
      && !HasKeyUpdate(s.rtx) && !FirstQueued(s, hsType, body, maxFrag, wire, plan)
    case _ => false
  }

  /** The list only grows; when a KeyUpdate is sent, by one exactly if its record is queued. */
  ghost predicate Joins(s: State, s1: State, keyUpdate: bool, queued: bool) {
    && s.rtx <= s1.rtx && s1.waitKeyUpdateAck == s.waitKeyUpdateAck
    && (keyUpdate ==> if queued then HasKeyUpdate(s1.rtx) else s1.rtx == s.rtx)
  }

  lemma FragmentJoins(s: State, hsType: HandshakeType, frag: Fragment, wire: Wire)
    requires s.table.enc < |s.table.slots|
    ensures var (ret, s1) := SendOneFragment(s, hsType, frag, wire);
      Joins(s, s1, hsType == KEY_UPDATE, Build(wire).Queues()) && (ret.Queued() ==> Build(wire).Queues())
  {
    hide TakeSeq, SendingEpoch, NextSeq, HasKeyUpdate;
    var s1 := SendOneFragment(s, hsType, frag, wire).1;
    if hsType == KEY_UPDATE && Build(wire).Queues() {
      assert s1.rtx[|s.rtx|].hsType == KEY_UPDATE;
    }
  }

  lemma TurnJoins(s: State, maxFrag: nat, attempt: Attempt)
    requires s.table.enc < |s.table.slots|
    requires s.buffer.Pending? && s.buffer.offset < |s.buffer.message|
    requires maxFrag > HeadersLength(s.cidSize, s.buffer.hsType)
    ensures var (ret, s1) := FragmentTurn(s, maxFrag, attempt);
      Joins(s, s1, s.buffer.hsType == KEY_UPDATE, attempt.Queues()) && (ret.Ok? ==> attempt.Queues())
  {
    if attempt.Build? {
      FragmentJoins(s, s.buffer.hsType, NextFragment(s, maxFrag), attempt.wire);
      hide SendOneFragment;
    }
  }

  lemma {:induction false} PendingJoins(s: State, maxFrag: nat, plan: seq<Attempt>)
    requires s.table.enc < |s.table.slots|
    requires s.buffer.Pending? && s.buffer.offset <= |s.buffer.message|
    requires maxFrag > HeadersLength(s.cidSize, s.buffer.hsType)
    ensures Joins(s, SendPending(s, maxFrag, plan).1,
                  s.buffer.hsType == KEY_UPDATE && s.buffer.offset < |s.buffer.message|, FirstAttempt(plan).Queues())
    decreases |s.buffer.message| - s.buffer.offset
  {
    hide FragmentTurn;
    if s.buffer.offset < |s.buffer.message| {
      TurnJoins(s, maxFrag, FirstAttempt(plan));
      var (ret, s1) := FragmentTurn(s, maxFrag, FirstAttempt(plan));
      if ret.Ok? {
        PendingJoins(s1, maxFrag, Rest(plan));
        KeyUpdateStays(s1.rtx, SendPending(s1, maxFrag, Rest(plan)).1.rtx);
      }
    }
  }

  lemma KeyUpdateStays(rs: seq<Rec>, rs': seq<Rec>)
    requires rs <= rs'
    ensures HasKeyUpdate(rs) ==> HasKeyUpdate(rs')
  {
    if HasKeyUpdate(rs) {
      var i :| 0 <= i < |rs| && rs[i].hsType == KEY_UPDATE;
      assert rs'[i] == rs[i];
    }
  }

  lemma SendWholeJoins(s: State, hsType: HandshakeType, body: seq<byte>, wire: Wire)
    requires s.table.enc < |s.table.slots|
    ensures Joins(s, SendWhole(s, hsType, body, wire).1, hsType == KEY_UPDATE, Build(wire).Queues())
  {
    FragmentJoins(s, hsType, Fragment(s.hsNumber, |body|, 0, body), wire);
    hide SendOneFragment;
  }

  lemma SendFragmentedJoins(s: State, hsType: HandshakeType, body: seq<byte>, maxFrag: nat, plan: seq<Attempt>)
    requires s.table.enc < |s.table.slots| && maxFrag > HeadersLength(s.cidSize, hsType)
    ensures Joins(s, SendFragmented(s, hsType, body, maxFrag, plan).1,
                  hsType == KEY_UPDATE && body != [], s.buffer.Idle? && FirstAttempt(plan).Queues())
  {
    if s.buffer.Idle? {
      PendingJoins(TakenOn(s, hsType, body), maxFrag, plan);
      hide SendPending;
    }
  }

  lemma SendMessageAwaited(s: State, op: Op)
    requires WellFormed(s) && Enabled(s, op) && op.SendMessage? && Awaited(s)
    ensures Awaited(HandshakeSend(s, op.hsType, op.body, op.maxFrag, op.wire, op.plan).1) <==> !Loses(s, op)
  {
    hide SwitchTo, SendWhole, SendFragmented, Attempt.Queues, HasKeyUpdate;
    var (ok, t) := SwitchTo(s.table, s.table.sendEpoch);
    if ok {
      var s1 := s.(table := t, waitKeyUpdateAck := s.waitKeyUpdateAck || op.hsType == KEY_UPDATE);
      SendWholeJoins(s1, op.hsType, op.body, op.wire);
      SendFragmentedJoins(s1, op.hsType, op.body, op.maxFrag, op.plan);
      KeyUpdateStays(s.rtx, HandshakeSend(s, op.hsType, op.body, op.maxFrag, op.wire, op.plan).1.rtx);
    }
  }

  lemma RearrangedKeepsKeyUpdate(rs: seq<Rec>, i: nat, r: Rec)
    requires i < |rs| && r.hsType == rs[i].hsType
    ensures HasKeyUpdate(rs) ==> HasKeyUpdate(rs[i := r]) && HasKeyUpdate(MovedToEnd(rs[i := r], i))
  {
    if HasKeyUpdate(rs) {
      var k :| 0 <= k < |rs| && rs[k].hsType == KEY_UPDATE;
      assert rs[i := r][k].hsType == KEY_UPDATE;
      assert MovedToEnd(rs[i := r], i)[if k < i then k else if k == i then |rs| - 1 else k - 1].hsType == KEY_UPDATE;
    }
  }

  lemma ResendKeepsKeyUpdate(s: State, i: nat, wire: Wire)
    requires s.table.enc < |s.table.slots| && i < |s.rtx| && HasKeyUpdate(s.rtx)
    ensures var s1 := RetransmitOne(s, i, wire).1;
      HasKeyUpdate(s1.rtx) && s1.waitKeyUpdateAck == s.waitKeyUpdateAck
  {
    hide Emit, SwitchTo, Track, HasKeyUpdate, MovedToEnd;
    var t := SwitchTo(s.table, s.rtx[i].epoch).1;
    RearrangedKeepsKeyUpdate(s.rtx, i, s.rtx[i].(tracked := Track(s.rtx[i].tracked, s.rnSize, NextSeq(t))));
  }

  lemma {:induction false} RetransmitKeepsKeyUpdate(s: State, i: nat, plan: seq<Attempt>)
    requires s.table.enc < |s.table.slots| && Awaited(s)
    ensures Awaited(Retransmit(s, i, plan).1)
    decreases |s.rtx| - i
  {
    if i < |s.rtx| && FirstAttempt(plan).Build? {
      var s1 := RetransmitOne(s, i, FirstAttempt(plan).wire).1;
      if HasKeyUpdate(s.rtx) {
        ResendKeepsKeyUpdate(s, i, FirstAttempt(plan).wire);
      } else {
        assert s1.waitKeyUpdateAck == s.waitKeyUpdateAck;
      }
      hide RetransmitOne;
      RetransmitKeepsKeyUpdate(s1, i + 1, Rest(plan));
    }
  }

  lemma AckAwaited(s: State, rns: seq<RecordNumber>, derived: bool)
    ensures Awaited(ReceiveAck(s, rns, derived).1)
  {
    hide RemoveEach, HasKeyUpdate, Install, Retire, UseKeys;
  }

  lemma SavedKeepsKeyUpdate(s: State)
    requires Awaited(s)
    ensures Awaited(s.(rtx := WithoutFirst(s.rtx, (r: Rec) => r.hsType == CLIENT_HELLO)))
  {
    var k := WithoutFirstSplits(s.rtx, (r: Rec) => r.hsType == CLIENT_HELLO);
    if HasKeyUpdate(s.rtx) && k < |s.rtx| {
      var i :| 0 <= i < |s.rtx| && s.rtx[i].hsType == KEY_UPDATE;
      assert RemoveAt(s.rtx, k)[if i < k then i else i - 1].hsType == KEY_UPDATE;
    }
  }

  /** A step leaves an acknowledgement awaited without a KeyUpdate on the list exactly if it loses it. */
  lemma StepAwaited(s: State, op: Op)
    requires WellFormed(s) && Enabled(s, op) && Awaited(s)
    ensures Awaited(Step(s, op).1) <==> !Loses(s, op)
  {
    hide HandshakeSend, SendPending, Retransmit, ReceiveAck, InstallEpoch, UseKeys, WithoutFirst, Flushed, HasKeyUpdate,
         Emit, SwitchTo, SwitchForAck, FirstQueued;
    match op
    case SendMessage(hsType, body, maxFrag, wire, plan) => SendMessageAwaited(s, op);
    case ResumeMessage(maxFrag, plan) =>
      PendingJoins(s, maxFrag, plan);
      KeyUpdateStays(s.rtx, SendPending(s, maxFrag, plan).1.rtx);
    case RetransmitOp(plan) => RetransmitKeepsKeyUpdate(s, 0, plan);
    case AckReceived(rns, derived) => AckAwaited(s, rns, derived);
    case SaveClientHelloOp => SavedKeepsKeyUpdate(s);
    case InstallOp(n, side) => InstallKeepsList(s, n, side);
    case FlushOp(keepTickets) => FlushedHasNone(s.rtx, keepTickets);
    case _ =>
  }

  lemma FlushedHasNone(rs: seq<Rec>, keepTickets: bool)
    ensures !HasKeyUpdate(Flushed(rs, keepTickets))
  {
    var kept := (r: Rec) => keepTickets && r.hsType == SESSION_TICKET;
    FilterSatisfies(rs, kept);
    assert forall i :: 0 <= i < |Flushed(rs, keepTickets)| ==> kept(Flushed(rs, keepTickets)[i]);
  }

  lemma {:induction false} FilterSatisfies(rs: seq<Rec>, p: Rec -> bool)
    ensures forall i :: 0 <= i < |Filter(rs, p)| ==> p(Filter(rs, p)[i])
  {
    if rs != [] {
      FilterSatisfies(rs[1..], p);
    }
  }

  lemma InstallKeepsList(s: State, n: word64, side: Side)
    ensures var s1 := InstallEpoch(s, n, side).1; s1.rtx == s.rtx && s1.waitKeyUpdateAck == s.waitKeyUpdateAck
  {
  }

  /** A record that handling an ACK removes is named in it. */
  lemma {:induction false} RemovedIsNamed(rs: seq<Rec>, rns: seq<RecordNumber>, r: Rec) returns (j: nat)
    requires r in rs && r !in RemoveEach(rs, rns)
    ensures j < |rns| && r.IsTrackedBy(rns[j])
    decreases |rns|
  {
    if r.IsTrackedBy(rns[0]) {
      j := 0;
    } else {
      StaysWithout(rs, (r: Rec) => r.IsTrackedBy(rns[0]), r);
      j := RemovedIsNamed(WithoutFirst(rs, (r: Rec) => r.IsTrackedBy(rns[0])), rns[1..], r);
      j := j + 1;
    }
  }

  lemma StaysWithout(rs: seq<Rec>, p: Rec -> bool, r: Rec)
    requires r in rs && !p(r)
    ensures r in WithoutFirst(rs, p)
  {
    var i :| 0 <= i < |rs| && rs[i] == r;
    var k := WithoutFirstSplits(rs, p);
    if k < |rs| {
      assert RemoveAt(rs, k)[if i < k then i else i - 1] == r;
    }
  }

  /** Is one of the numbers tracked by a KeyUpdate on the list, a record of which was sent with it? */
  ghost predicate NamesKeyUpdate(s: State, rns: seq<RecordNumber>) {
    exists r, rn :: r in s.rtx && rn in rns && r.hsType == KEY_UPDATE && r.IsTrackedBy(rn)
      && Entry(rn.epoch, rn.seqNumber, r.id, true, Handshake(KEY_UPDATE, r.frag)) in s.trace.log
  }

  /** No ACK completes a key update unless it names a KeyUpdate. */
  ghost predicate OnlyRealAcksComplete(s: State) {
    forall rns, derived :: CompletesKeyUpdate(s, AckReceived(rns, derived)) ==> NamesKeyUpdate(s, rns)
  }

  lemma CompletingAckNames(s: State, rns: seq<RecordNumber>, derived: bool)
    requires Inv(s) && HasKeyUpdate(s.rtx) && CompletesKeyUpdate(s, AckReceived(rns, derived))
    ensures NamesKeyUpdate(s, rns)
  {
    var i :| 0 <= i < |s.rtx| && s.rtx[i].hsType == KEY_UPDATE;
    var r := s.rtx[i];
    var j := RemovedIsNamed(s.rtx, rns, r);
    LatestTransmissionIsTracked(s, i);
    hide Inv, HasKeyUpdate;
    assert UsedBy(s.trace.log, r, rns[j].seqNumber);
    assert rns[j] in rns && r in s.rtx;
  }

  /** After every run: only an ACK that names a KeyUpdate completes a key update, if and only if a KeyUpdate is on the
      list whenever one is awaited; otherwise every ACK does that names no record. */
  lemma RealAcksExactly(s: State)
    requires Inv(s)
    ensures OnlyRealAcksComplete(s) <==> Awaited(s)
  {
    hide Inv, HasKeyUpdate;
    if Awaited(s) {
      forall rns, derived | CompletesKeyUpdate(s, AckReceived(rns, derived)) ensures NamesKeyUpdate(s, rns) {
        CompletingAckNames(s, rns, derived);
      }
    } else {
      assert CompletesKeyUpdate(s, AckReceived([], true)) && !NamesKeyUpdate(s, []);
    }
  }

  /** At every point of the run only an ACK that names a KeyUpdate completes a key update. */
  ghost predicate RealAcksThroughout(s: State, ops: seq<Op>)
    requires Inv(s) && LegalRun(s, ops)
    decreases |ops|
  {
    OnlyRealAcksComplete(s) && (ops == [] || RealAcksThroughout(Next(s, ops[0]), ops[1..]))
  }

  /** No step of the run loses a KeyUpdate that is awaited. */
  ghost predicate NeverLoses(s: State, ops: seq<Op>)
    requires Inv(s) && LegalRun(s, ops)
    decreases |ops|
  {
    ops == [] || (!Loses(s, ops[0]) && NeverLoses(Next(s, ops[0]), ops[1..]))
  }

  lemma {:induction false} RunAwaited(s: State, ops: seq<Op>)
    requires Inv(s) && LegalRun(s, ops) && Awaited(s)
    ensures RealAcksThroughout(s, ops) <==> NeverLoses(s, ops)
    decreases |ops|
  {
    hide Step, Loses, Awaited, OnlyRealAcksComplete;
    RealAcksExactly(s);
    if ops != [] {
      var s1 := Next(s, ops[0]);
      StepAwaited(s, ops[0]);
      if Awaited(s1) {
        RunAwaited(s1, ops[1..]);
      } else {
        RealAcksExactly(s1);
        assert !RealAcksThroughout(s1, ops[1..]);
      }
    }
  }

  /** Over every run: at every point of it only an ACK that names a record with which a KeyUpdate was sent completes a
      key update, if and only if no step of the run loses a KeyUpdate that is awaited. */
  lemma KeyUpdateReallyAcked(epochs: nat, rnSize: nat, server: bool, cidSize: byte, ops: seq<Op>)
    requires epochs > 0 && rnSize > 0 && LegalRun(Start(epochs, rnSize, server, cidSize), ops)
    ensures RealAcksThroughout(Start(epochs, rnSize, server, cidSize), ops)
       <==> NeverLoses(Start(epochs, rnSize, server, cidSize), ops)
  {
    RunAwaited(Start(epochs, rnSize, server, cidSize), ops);
  }

  // ----- what the ACK of a KeyUpdate leads to ---------------------------------------------------------------

  /** The ACK of a key update succeeds exactly if the new keys can be derived, there is room for their epoch and its
      number does not wrap; then the next epoch is the send epoch and its keys are in use.  If it does not, the keys in
      use stay; and in any case no ACK is awaited any more. */
  lemma CompletedExactly(s: State, op: Op)
    requires WellFormed(s) && CompletesKeyUpdate(s, op)
    ensures var (ret, s1) := Step(s, op); var n := Increment64(s.table.sendEpoch);
      && s1.rtx == RemoveEach(s.rtx, op.rns) && !s1.waitKeyUpdateAck
      && (ret.Ok? <==> op.derived && SlotFor(s.table, n) >= 0 && n != 0)
      && (if ret.Ok? then s1.table.sendEpoch == n && s1.table.enc < |s1.table.slots| && SendingEpoch(s1.table) == n
          else s1.table.enc == s.table.enc && s1.retransmit == s.retransmit)
      && (!op.derived || SlotFor(s.table, n) < 0 ==> !ret.Ok? && s1.table == s.table)
  {
    var n := Increment64(s.table.sendEpoch);
    hide Retire, RemoveEach, HasKeyUpdate;
    if SlotFor(s.table, n) >= 0 {
      InstalledServes(s.table, n);
    }
    hide Install, SlotFor;
  }

  lemma InstalledServes(t: Table, n: word64)
    requires Valid(t) && SlotFor(t, n) >= 0
    ensures var (ok, u) := Install(t, n, EncryptOnly);
      && ok && u.enc == t.enc && UseKeys(u.(sendEpoch := n), n, EncryptOnly).0
      && SlotFor(t, n) < |u.slots|
  {
    InstallKeeps(t, n, EncryptOnly);
    InstallSlots(t, n, EncryptOnly);
    var u := Install(t, n, EncryptOnly).1;
    FindIs(u.slots, SlotFor(t, n));
  }

  /** There are keys to send in the send epoch. */
  predicate CanSend(t: Table)
    requires t.enc < |t.slots|
  {
    var i := Find(t.slots, t.sendEpoch);
    SendingEpoch(t) == t.sendEpoch || (i >= 0 && Serves(t.slots[i].side, EncryptOnly))
  }

  /** An ACK is awaited from the sending of a KeyUpdate on, however that ends once the keys are there, until an ACK
      leaves no KeyUpdate on the list; nothing else starts or ends the wait. */
  lemma AwaitedExactly(s: State, op: Op)
    requires WellFormed(s) && Enabled(s, op)
    ensures Step(s, op).1.waitKeyUpdateAck
       <==> (&& (s.waitKeyUpdateAck || (op.SendMessage? && op.hsType == 24 && CanSend(s.table)))
             && !CompletesKeyUpdate(s, op))
  {
    hide Install, UseKeys, Retransmit, Emit, SwitchForAck, RemoveEach, HasKeyUpdate, Flushed, WithoutFirst, SendPending,
         Retire, SendOneFragment;
    match op
    case SendMessage(hsType, body, maxFrag, wire, plan) => SendAwaits(s, op);
    case ResumeMessage(maxFrag, plan) => PendingWaits(s, maxFrag, plan);
    case RetransmitOp(plan) => RetransmitWaits(s, 0, plan);
    case _ =>
  }

  lemma SendAwaits(s: State, op: Op)
    requires WellFormed(s) && Enabled(s, op) && op.SendMessage?
    ensures Step(s, op).1.waitKeyUpdateAck <==> s.waitKeyUpdateAck || (op.hsType == 24 && CanSend(s.table))
  {
    hide SendBySize, SwitchTo, HeadersLength;
    var (ok, t) := SwitchTo(s.table, s.table.sendEpoch);
    SwitchesIf(s.table);
    if ok {
      var s1 := s.(table := t, waitKeyUpdateAck := s.waitKeyUpdateAck || op.hsType == KEY_UPDATE);
      BySizeWaits(s1, op.hsType, op.body, op.maxFrag, op.wire, op.plan);
    }
  }

  lemma SwitchesIf(t: Table)
    requires t.enc < |t.slots|
    ensures SwitchTo(t, t.sendEpoch).0 <==> CanSend(t)
  {
  }

  lemma BySizeWaits(s: State, hsType: HandshakeType, body: seq<byte>, maxFrag: nat, wire: Wire, plan: seq<Attempt>)
    requires s.table.enc < |s.table.slots| && maxFrag > HeadersLength(s.cidSize, hsType)
    ensures SendBySize(s, hsType, body, maxFrag, wire, plan).1.waitKeyUpdateAck == s.waitKeyUpdateAck
  {
    hide SendOneFragment, SendPending, HeadersLength;
    FragmentWaits(s, hsType, Fragment(s.hsNumber, |body|, 0, body), wire);
    if s.buffer.Idle? {
      PendingWaits(TakenOn(s, hsType, body), maxFrag, plan);
    }
  }

  lemma FragmentWaits(s: State, hsType: HandshakeType, frag: Fragment, wire: Wire)
    requires s.table.enc < |s.table.slots|
    ensures SendOneFragment(s, hsType, frag, wire).1.waitKeyUpdateAck == s.waitKeyUpdateAck
  {
    hide Emit, IsEncrypted;
  }

  lemma {:induction false} PendingWaits(s: State, maxFrag: nat, plan: seq<Attempt>)
    requires s.table.enc < |s.table.slots| && s.buffer.Pending? && s.buffer.offset <= |s.buffer.message|
    requires maxFrag > HeadersLength(s.cidSize, s.buffer.hsType)
    ensures SendPending(s, maxFrag, plan).1.waitKeyUpdateAck == s.waitKeyUpdateAck
    decreases |s.buffer.message| - s.buffer.offset
  {
    hide SendOneFragment, HeadersLength;
    if s.buffer.offset < |s.buffer.message| {
      var attempt := FirstAttempt(plan);
      if attempt.Build? {
        FragmentWaits(s, s.buffer.hsType, NextFragment(s, maxFrag), attempt.wire);
      }
      var (ret, s1) := FragmentTurn(s, maxFrag, attempt);
      if ret.Ok? {
        PendingWaits(s1, maxFrag, Rest(plan));
      }
    }
  }

  lemma {:induction false} RetransmitWaits(s: State, i: nat, plan: seq<Attempt>)
    requires s.table.enc < |s.table.slots|
    ensures Retransmit(s, i, plan).1.waitKeyUpdateAck == s.waitKeyUpdateAck
    decreases |s.rtx| - i
  {
    hide Emit, SwitchTo, Track, MovedToEnd;
    if i < |s.rtx| && FirstAttempt(plan).Build? {
      RetransmitWaits(RetransmitOne(s, i, FirstAttempt(plan).wire).1, i + 1, Rest(plan));
    }
  }
}
