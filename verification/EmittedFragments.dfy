/** Over every run that disrupts nothing, what the sender puts on the wire are the fragments of its messages. */
module EmittedFragments {
  import opened Words
  import opened EpochTable
  import opened RtxQueue
  import opened SenderSpec
  import opened SenderProofs
  import opened FragmentProofs

  /** Is the fragment one of a message of this type? */
  ghost predicate Known(o: Output, hsType: HandshakeType, f: Fragment) {
    exists i, k :: 0 <= i < |o.messages| && i < |o.fragments| && 0 <= k < |o.fragments[i]|
      && o.messages[i].hsType == hsType && o.fragments[i][k] == f
  }

  /** Is what was written or queued a fragment of a message, or no handshake record? */
  ghost predicate Traceable(o: Output, e: Entry) {
    e.queued && e.payload.Handshake? ==> Known(o, e.payload.hsType, e.payload.frag)
  }

  ghost predicate Traced(s: State) {
    forall k :: 0 <= k < |s.trace.log| ==> Traceable(s.output, s.trace.log[k])
  }

  lemma KnownGrows(s: State, s1: State, hsType: HandshakeType, f: Fragment)
    requires Grown(s, s1) && |s.output.fragments| == |s.output.messages| && Known(s.output, hsType, f)
    ensures Known(s1.output, hsType, f)
  {
    var i, k :| 0 <= i < |s.output.messages| && i < |s.output.fragments| && 0 <= k < |s.output.fragments[i]|
      && s.output.messages[i].hsType == hsType && s.output.fragments[i][k] == f;
    assert s1.output.messages[i] == s.output.messages[i] && s1.output.fragments[i][k] == f;
  }

  /** One more number is handed out, or none, and the output grows. */
  lemma TracedGrows(s: State, s1: State)
    requires Traced(s) && Grown(s, s1) && |s.output.fragments| == |s.output.messages|
    requires s.trace.log <= s1.trace.log && |s1.trace.log| <= |s.trace.log| + 1
    requires |s1.trace.log| > |s.trace.log| ==> Traceable(s1.output, s1.trace.log[|s.trace.log|])
    ensures Traced(s1)
  {
    hide Grown, Known;
    forall k | 0 <= k < |s1.trace.log| ensures Traceable(s1.output, s1.trace.log[k]) {
      if k < |s.trace.log| {
        assert s1.trace.log[k] == s.trace.log[k] && Traceable(s.output, s.trace.log[k]);
        var e := s.trace.log[k];
        if e.queued && e.payload.Handshake? {
          KnownGrows(s, s1, e.payload.hsType, e.payload.frag);
        }
      }
    }
  }

  lemma EmitLog(s: State, owner: int, payload: Payload, plain: bool, wire: Wire)
    requires s.table.enc < |s.table.slots|
    ensures var (ret, s1) := Emit(s, owner, payload, plain, wire);
      && s.trace.log <= s1.trace.log && |s1.trace.log| <= |s.trace.log| + 1
      && (|s1.trace.log| > |s.trace.log| ==>
            s1.trace.log[|s.trace.log|].payload == payload && s1.trace.log[|s.trace.log|].queued == ret.Queued())
  {
    hide TakeSeq, EmitRet, SendingEpoch, NextSeq;
  }

  lemma FragmentLog(s: State, hsType: HandshakeType, frag: Fragment, wire: Wire)
    requires s.table.enc < |s.table.slots|
    ensures var (ret, s1) := SendOneFragment(s, hsType, frag, wire);
      && s.trace.log <= s1.trace.log && |s1.trace.log| <= |s.trace.log| + 1
      && (|s1.trace.log| > |s.trace.log| ==>
            s1.trace.log[|s.trace.log|].payload == Handshake(hsType, frag)
            && s1.trace.log[|s.trace.log|].queued == ret.Queued())
  {
    hide Emit, IsEncrypted;
    EmitLog(s, if hsType == HELLO_RETRY_REQUEST then -1 else s.trace.nextId, Handshake(hsType, frag),
            !IsEncrypted(hsType), wire);
  }

  /** A fragment noted for the latest message is one of it. */
  lemma NotedIsKnown(o: Output, f: Fragment)
    requires |o.messages| == |o.fragments| > 0
    ensures Known(Noted(o, f), o.messages[|o.messages| - 1].hsType, f)
  {
    var last := |o.fragments| - 1;
    assert Noted(o, f).fragments[last][|o.fragments[last]|] == f;
  }

  lemma TurnLog(s: State, maxFrag: nat, attempt: Attempt)
    requires s.table.enc < |s.table.slots| && s.buffer.Pending? && s.buffer.offset < |s.buffer.message|
    requires maxFrag > HeadersLength(s.cidSize, s.buffer.hsType)
    ensures var (ret, s1) := FragmentTurn(s, maxFrag, attempt); var f := NextFragment(s, maxFrag);
      && s.trace.log <= s1.trace.log && |s1.trace.log| <= |s.trace.log| + 1
      && (|s1.trace.log| > |s.trace.log| ==>
            && s1.trace.log[|s.trace.log|].payload == Handshake(s.buffer.hsType, f)
            && (s1.trace.log[|s.trace.log|].queued ==> s1.output == Noted(s.output, f)))
  {
    if attempt.Build? {
      FragmentLog(s, s.buffer.hsType, NextFragment(s, maxFrag), attempt.wire);
      FragmentOutcome(s, s.buffer.hsType, NextFragment(s, maxFrag), attempt.wire);
      hide SendOneFragment, Refused;
    }
  }

  lemma TurnTraced(s: State, maxFrag: nat, attempt: Attempt)
    requires s.table.enc < |s.table.slots| && PartlyOut(s) && s.buffer.offset < |s.buffer.message| && Traced(s)
    requires maxFrag > HeadersLength(s.cidSize, s.buffer.hsType)
    ensures Traced(FragmentTurn(s, maxFrag, attempt).1)
  {
    assert |s.output.messages| == |s.output.fragments| > 0
        && s.output.messages[|s.output.messages| - 1].hsType == s.buffer.hsType;
    hide FragmentTurn, PartlyOut, Traced, Grown, Known, NextFragment, Noted;
    TurnGrows(s, maxFrag, attempt);
    TurnLog(s, maxFrag, attempt);
    NotedIsKnown(s.output, NextFragment(s, maxFrag));
    TracedGrows(s, FragmentTurn(s, maxFrag, attempt).1);
  }

  lemma {:induction false} PendingTraced(s: State, maxFrag: nat, plan: seq<Attempt>)
    requires s.table.enc < |s.table.slots| && PartlyOut(s) && Traced(s)
    requires maxFrag > HeadersLength(s.cidSize, s.buffer.hsType)
    ensures Traced(SendPending(s, maxFrag, plan).1)
    decreases |s.buffer.message| - s.buffer.offset
  {
    hide FragmentTurn, Known;
    if s.buffer.offset < |s.buffer.message| {
      TurnKeepsOutput(s, maxFrag, FirstAttempt(plan));
      TurnTraced(s, maxFrag, FirstAttempt(plan));
      var (ret, s1) := FragmentTurn(s, maxFrag, FirstAttempt(plan));
      if ret.Ok? {
        PendingTraced(s1, maxFrag, Rest(plan));
      }
    }
  }

  lemma SendWholeTraced(s: State, hsType: HandshakeType, body: seq<byte>, wire: Wire)
    requires s.table.enc < |s.table.slots| && |s.output.fragments| == |s.output.messages| && Traced(s)
    ensures Traced(SendWhole(s, hsType, body, wire).1)
  {
    var f := Fragment(s.hsNumber, |body|, 0, body);
    FragmentLog(s, hsType, f, wire);
    FragmentOutcome(s, hsType, f, wire);
    SendWholeGrows(s, hsType, body, wire);
    hide SendOneFragment, Grown, Traced, Refused;
    var (ret, s1) := SendWhole(s, hsType, body, wire);
    if ret.Queued() {
      assert s1.output.fragments[|s.output.fragments|][0] == f;
      assert Known(s1.output, hsType, f);
    }
    TracedGrows(s, s1);
  }

  lemma SendFragmentedTraced(s: State, hsType: HandshakeType, body: seq<byte>, maxFrag: nat, plan: seq<Attempt>)
    requires s.table.enc < |s.table.slots| && OutputOk(s) && Traced(s)
    requires maxFrag > HeadersLength(s.cidSize, hsType) && body != []
    ensures Traced(SendFragmented(s, hsType, body, maxFrag, plan).1)
  {
    if s.buffer.Idle? {
      var t := TakenOn(s, hsType, body);
      TakenOnIsPartlyOut(s, hsType, body);
      assert Grown(s, t);
      hide SendPending, Grown, Traced, FirstOut, Known;
      TracedGrows(s, t);
      PendingTraced(t, maxFrag, plan);
      TraceFrame(SendPending(t, maxFrag, plan).1, ContinueFragments(t, maxFrag, plan).1);
    }
  }

  lemma TraceFrame(s: State, s1: State)
    requires s1.output == s.output && s1.trace == s.trace
    ensures Traced(s1) == Traced(s)
  {
  }

  lemma SendMessageTraced(s: State, hsType: HandshakeType, body: seq<byte>, maxFrag: nat, wire: Wire,
                          plan: seq<Attempt>)
    requires s.table.enc < |s.table.slots| && OutputOk(s) && Traced(s) && maxFrag > HeadersLength(s.cidSize, hsType)
    ensures Traced(HandshakeSend(s, hsType, body, maxFrag, wire, plan).1)
  {
    assert |s.output.fragments| == |s.output.messages|;
    hide SendWhole, SendFragmented, SwitchTo, OutputOk, Traced;
    var (ok, t) := SwitchTo(s.table, s.table.sendEpoch);
    if ok {
      var s1 := s.(table := t, waitKeyUpdateAck := s.waitKeyUpdateAck || hsType == KEY_UPDATE);
      OutputFrame(s, s1);
      TraceFrame(s, s1);
      if HeadersLength(s.cidSize, hsType) + |body| < maxFrag {
        SendWholeTraced(s1, hsType, body, wire);
      } else {
        SendFragmentedTraced(s1, hsType, body, maxFrag, plan);
      }
    }
  }

  /** A record on the list was written or queued before. */
  lemma ListIsTraced(s: State, i: nat)
    requires Inv(s) && Traced(s) && i < |s.rtx|
    ensures Known(s.output, s.rtx[i].hsType, s.rtx[i].frag)
  {
    hide Known, NumbersOk, Gapless, NumbersOf;
    var r := s.rtx[i];
    assert UsedBy(s.trace.log, r, r.tracked[0]);
    var k :| 0 <= k < |s.trace.log|
      && s.trace.log[k] == Entry(r.epoch, r.tracked[0], r.id, true, Handshake(r.hsType, r.frag));
    assert Traceable(s.output, s.trace.log[k]);
  }

  lemma RetransmitOneTraced(s: State, i: nat, wire: Wire)
    requires Inv(s) && Traced(s) && |s.output.fragments| == |s.output.messages| && i < |s.rtx|
    ensures Traced(RetransmitOne(s, i, wire).1) && SameOutput(s, RetransmitOne(s, i, wire).1)
  {
    ListIsTraced(s, i);
    assert s.table.enc < |s.table.slots|;
    hide Inv;
    ResendLog(s, i, wire);
    hide RetransmitOne, Grown, Traced, Known;
    SameIsGrown(s, RetransmitOne(s, i, wire).1);
    TracedGrows(s, RetransmitOne(s, i, wire).1);
  }

  lemma ResendLog(s: State, i: nat, wire: Wire)
    requires s.table.enc < |s.table.slots| && i < |s.rtx|
    ensures var s1 := RetransmitOne(s, i, wire).1;
      && SameOutput(s, s1) && s.trace.log <= s1.trace.log && |s1.trace.log| <= |s.trace.log| + 1
      && (|s1.trace.log| > |s.trace.log| ==>
            s1.trace.log[|s.trace.log|].payload == Handshake(s.rtx[i].hsType, s.rtx[i].frag))
  {
    hide Emit, SwitchTo, Track, MovedToEnd, IsEncrypted;
    var r := s.rtx[i];
    EmitLog(s.(table := SwitchTo(s.table, r.epoch).1), r.id, Handshake(r.hsType, r.frag), !IsEncrypted(r.hsType), wire);
  }

  lemma {:induction false} RetransmitTraced(s: State, i: nat, plan: seq<Attempt>)
    requires Inv(s) && Traced(s) && |s.output.fragments| == |s.output.messages|
    ensures Traced(Retransmit(s, i, plan).1)
    decreases |s.rtx| - i
  {
    if i < |s.rtx| && FirstAttempt(plan).Build? {
      RetransmitOneTraced(s, i, FirstAttempt(plan).wire);
      RetransmitOneKeeps(s, i, FirstAttempt(plan).wire);
      assert s.table.enc < |s.table.slots|;
      hide RetransmitOne, Inv, Traced;
      RetransmitTraced(RetransmitOne(s, i, FirstAttempt(plan).wire).1, i + 1, Rest(plan));
    }
  }

  lemma OtherTraced(s: State, attempt: Attempt)
    requires s.table.enc < |s.table.slots| && Traced(s) && |s.output.fragments| == |s.output.messages|
    ensures Traced(SendOther(s, attempt).1)
  {
    if attempt.Build? {
      EmitLog(s, -1, Other, SendingEpoch(s.table) == 0, attempt.wire);
      hide Emit, Traced, Grown;
      SameIsGrown(s, SendOther(s, attempt).1);
      TracedGrows(s, SendOther(s, attempt).1);
    }
  }

  lemma OtherRecordsTraced(s: State, early: bool, attempt: Attempt)
    requires s.table.enc < |s.table.slots| && Traced(s) && |s.output.fragments| == |s.output.messages|
    ensures Traced(SendAck(s, attempt).1) && Traced(SendData(s, early, attempt).1)
  {
    hide Emit, SwitchForAck, UseKeys, SwitchTo, SendOther;
    OtherTraced(s.(table := SwitchForAck(s).1), attempt);
    OtherTraced(s.(table := UseKeys(s.table, DTLS13_EPOCH_EARLYDATA, EncryptOnly).1), attempt);
    OtherTraced(s.(table := SwitchTo(s.table, s.table.sendEpoch).1), attempt);
  }

  lemma BookkeepingSameLog(s: State, op: Op)
    requires WellFormed(s) && Enabled(s, op)
    requires !op.SendMessage? && !op.ResumeMessage? && !op.SendAckOp? && !op.SendDataOp? && !op.RetransmitOp?
    ensures Step(s, op).1.trace.log == s.trace.log
  {
    hide Install, UseKeys, Flushed, WithoutFirst, RemoveEach, HasKeyUpdate, SlotFor, Find;
  }

  lemma StepTraced(s: State, op: Op)
    requires Inv(s) && Traced(s) && OutputOk(s) && Enabled(s, op)
    ensures Traced(Step(s, op).1)
  {
    assert |s.output.fragments| == |s.output.messages| && s.table.enc < |s.table.slots|;
    match op
    case SendMessage(hsType, body, maxFrag, wire, plan) =>
      SendMessageTraced(s, hsType, body, maxFrag, wire, plan);
    case ResumeMessage(maxFrag, plan) =>
      PendingTraced(s, maxFrag, plan);
      hide SendPending, Traced, Inv;
      TraceFrame(SendPending(s, maxFrag, plan).1, Step(s, op).1);
    case RetransmitOp(plan) => RetransmitTraced(s, 0, plan);
    case SendAckOp(attempt) => OtherRecordsTraced(s, false, attempt);
    case SendDataOp(early, attempt) => OtherRecordsTraced(s, early, attempt);
    case _ =>
      BookkeepingSameLog(s, op);
      OtherStepsSameOutput(s, op);
  }

  lemma {:induction false} RunTraced(s: State, ops: seq<Op>)
    requires Inv(s) && LegalRun(s, ops) && Undisrupted(s, ops) && OutputOk(s) && Traced(s)
    ensures OutputOk(Run(s, ops)) && Traced(Run(s, ops))
    decreases |ops|
  {
    hide Step, OutputOk, Traced, Disrupts;
    if ops != [] {
      StepTraced(s, ops[0]);
      StepKeepsOutput(s, ops[0]);
      RunTraced(Next(s, ops[0]), ops[1..]);
    }
  }

  /** Over every run that disrupts nothing: whatever handshake record was written or queued, first or again, carries one
      of the fragments cut from the messages, with the type of its message; so does every record on the list. */
  lemma OnlyFragmentsAreSent(epochs: nat, rnSize: nat, server: bool, cidSize: byte, ops: seq<Op>)
    requires epochs > 0 && rnSize > 0 && LegalRun(Start(epochs, rnSize, server, cidSize), ops)
    requires Undisrupted(Start(epochs, rnSize, server, cidSize), ops)
    ensures var s := Run(Start(epochs, rnSize, server, cidSize), ops);
      && OutputOk(s) && Traced(s)
      && forall i :: 0 <= i < |s.rtx| ==> Known(s.output, s.rtx[i].hsType, s.rtx[i].frag)
  {
    var s0 := Start(epochs, rnSize, server, cidSize);
    StartIsOk(epochs, rnSize, server, cidSize);
    RunTraced(s0, ops);
    var s := Run(s0, ops);
    hide Run, Start, LegalRun, Undisrupted, Known, Traced, Inv;
    forall i | 0 <= i < |s.rtx| ensures Known(s.output, s.rtx[i].hsType, s.rtx[i].frag) {
      ListIsTraced(s, i);
    }
  }
}
