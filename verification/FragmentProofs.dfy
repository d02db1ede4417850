/** Section 5.5 of RFC 9147: over every run that disrupts none of them the fragments sent for each message tile it,
    carry its number and fit the record, however often sending is interrupted; and exactly which steps disrupt. */
module FragmentProofs {
  import opened Words
  import opened EpochTable
  import opened RtxQueue
  import opened SenderSpec
  import opened SenderProofs

  // ----- tilings ---------------------------------------------------------------------------------------

  /** The fragments cut m[..upto] without gap or overlap, in order, and all carry the number and length of the message;
      none is empty but the only one of an empty message. */
  ghost predicate Tiles(fs: seq<Fragment>, number: word16, m: seq<byte>, upto: nat) {
    upto <= |m| &&
    if fs == [] then upto == 0
    else
      var f := fs[|fs| - 1];
      && f.messageSeq == number && f.length == |m|
      && f.offset <= upto && f.body == m[f.offset..upto] && (f.body != [] || (m == [] && |fs| == 1))
      && Tiles(fs[..|fs| - 1], number, m, f.offset)
  }

  ghost predicate Complete(fs: seq<Fragment>, number: word16, m: seq<byte>) {
    fs != [] && Tiles(fs, number, m, |m|)
  }

  lemma TilesGrow(fs: seq<Fragment>, number: word16, m: seq<byte>, from: nat, upto: nat)
    requires Tiles(fs, number, m, from) && from <= upto <= |m| && (from < upto || (fs == [] && m == []))
    ensures Tiles(fs + [Fragment(number, |m|, from, m[from..upto])], number, m, upto)
  {
    var gs := fs + [Fragment(number, |m|, from, m[from..upto])];
    assert gs[..|gs| - 1] == fs;
  }

  lemma TilesEndOnce(fs: seq<Fragment>, number: word16, m: seq<byte>, a: nat, b: nat)
    requires Tiles(fs, number, m, a) && Tiles(fs, number, m, b)
    ensures a == b
  {
    if fs != [] {
      var f := fs[|fs| - 1];
      assert |f.body| == a - f.offset == b - f.offset;
    }
  }

  lemma {:induction false} TilesArePieces(fs: seq<Fragment>, number: word16, m: seq<byte>, upto: nat, i: nat)
    requires Tiles(fs, number, m, upto) && i < |fs|
    ensures var f := fs[i];
      && f.messageSeq == number && f.length == |m| && f.offset + |f.body| <= |m|
      && f.body == m[f.offset..f.offset + |f.body|] && (f.body == [] ==> m == [])
    decreases |fs|
  {
    if i < |fs| - 1 {
      TilesArePieces(fs[..|fs| - 1], number, m, fs[|fs| - 1].offset, i);
    }
  }

  /** ... and together they leave no byte out. */
  lemma {:induction false} TilesCover(fs: seq<Fragment>, number: word16, m: seq<byte>, upto: nat, b: nat)
    returns (i: nat)
    requires Tiles(fs, number, m, upto) && b < upto
    ensures i < |fs| && fs[i].offset <= b < fs[i].offset + |fs[i].body|
    decreases |fs|
  {
    var f := fs[|fs| - 1];
    if b >= f.offset {
      i := |fs| - 1;
    } else {
      i := TilesCover(fs[..|fs| - 1], number, m, f.offset, b);
    }
  }

  // ----- messages and their fragments -----------------------------------------------------------------------

  /** The number of the i-th message. */
  function NumberOf(i: nat): word16 { i % 0x1_0000 }

  /** The first n messages are out, each with its own number. */
  ghost predicate FirstOut(o: Output, n: nat) {
    && n <= |o.messages| == |o.fragments|
    && forall i :: 0 <= i < n ==> Complete(o.fragments[i], NumberOf(i), o.messages[i].body)
  }

  /** All messages are out, and the next number belongs to the next one. */
  ghost predicate AllOut(o: Output, hsNumber: word16) {
    FirstOut(o, |o.messages|) && hsNumber == NumberOf(|o.messages|)
  }

  /** All messages but the latest are out; that one is pending, and its fragments so far tile what was sent of it. */
  ghost predicate PartlyOut(s: State) {
    && s.buffer.Pending? && s.buffer.offset <= |s.buffer.message| && s.buffer.message != []
    && |s.output.messages| > 0
    && var last := |s.output.messages| - 1;
    && FirstOut(s.output, last)
    && s.hsNumber == NumberOf(last)
    && s.output.messages[last] == Message(s.buffer.hsType, s.buffer.message)
    && Tiles(s.output.fragments[last], s.hsNumber, s.buffer.message, s.buffer.offset)
  }

  ghost predicate OutputOk(s: State) {
    if s.buffer.Pending? then PartlyOut(s) else AllOut(s.output, s.hsNumber)
  }

  ghost predicate SameOutput(s: State, s1: State) {
    s1.output == s.output && s1.buffer == s.buffer && s1.hsNumber == s.hsNumber
  }

  lemma OutputFrame(s: State, s1: State)
    requires SameOutput(s, s1)
    ensures OutputOk(s1) == OutputOk(s) && PartlyOut(s1) == PartlyOut(s)
  {
    hide FirstOut, Tiles;
  }

  // ----- when a fragment is not sent ---------------------------------------------------------------------------

  /** The record is neither written nor queued: there is no room for it, it cannot be built, or it would use up the
      counter of a plaintext epoch. */
  predicate Refused(attempt: Attempt, plain: bool, seqNumber: int) {
    !attempt.Queues() || (plain && seqNumber == TWO_64 - 1)
  }

  /** How many fragments of the given size are left to send. */
  function Turns(remaining: nat, size: nat): nat
    requires size > 0
  {
    if remaining == 0 then 0 else 1 + Turns(remaining - Min(size, remaining), size)
  }

  /** Among as many attempts the first that is not written out is refused. */
  predicate GivesUp(plan: seq<Attempt>, turns: nat, plain: bool, seqNumber: int) {
    && turns > 0
    && (|| Refused(FirstAttempt(plan), plain, seqNumber)
        || (FirstAttempt(plan).wire.Sent? && GivesUp(Rest(plan), turns - 1, plain, seqNumber + 1)))
  }

  /** ... for a call that goes on sending the pending message. */
  predicate CallGivesUp(s: State, maxFrag: nat, plan: seq<Attempt>)
    requires s.table.enc < |s.table.slots|
    requires s.buffer.Pending? && s.buffer.offset <= |s.buffer.message|
    requires maxFrag > HeadersLength(s.cidSize, s.buffer.hsType)
  {
    GivesUp(plan, Turns(|s.buffer.message| - s.buffer.offset, maxFrag - HeadersLength(s.cidSize, s.buffer.hsType)),
            !IsEncrypted(s.buffer.hsType), NextSeq(s.table))
  }

  lemma {:induction false} ProtectedGivesUp(plan: seq<Attempt>, turns: nat, q: int, q': int)
    ensures GivesUp(plan, turns, false, q) == GivesUp(plan, turns, false, q')
    decreases turns
  {
    if turns > 0 {
      ProtectedGivesUp(Rest(plan), turns - 1, q + 1, q' + 1);
    }
  }

  lemma EmitOutcome(s: State, owner: int, payload: Payload, plain: bool, wire: Wire)
    requires s.table.enc < |s.table.slots|
    ensures var (ret, s1) := Emit(s, owner, payload, plain, wire);
      && (ret.Queued() <==> !Refused(Build(wire), plain, NextSeq(s.table)))
      && (ret.Queued() ==> ret == WireRet(wire) && NextSeq(s1.table) == Increment64(NextSeq(s.table)))
      && s1 == s.(table := s1.table, trace := s1.trace)
  {
    hide SendingEpoch;
  }

  lemma FragmentOutcome(s: State, hsType: HandshakeType, frag: Fragment, wire: Wire)
    requires s.table.enc < |s.table.slots|
    ensures var (ret, s1) := SendOneFragment(s, hsType, frag, wire);
      && (ret.Queued() <==> !Refused(Build(wire), !IsEncrypted(hsType), NextSeq(s.table)))
      && (ret.Queued() ==>
            ret == WireRet(wire) && NextSeq(s1.table) == Increment64(NextSeq(s.table)))
      && s1.table.enc < |s1.table.slots| && SameOutput(s, s1) && s1.cidSize == s.cidSize
  {
    hide Emit, Refused, IsEncrypted;
    EmitOutcome(s, if hsType == HELLO_RETRY_REQUEST then -1 else s.trace.nextId, Handshake(hsType, frag),
                !IsEncrypted(hsType), wire);
  }

  /** A turn of the loop: refused, it gives the message up; otherwise the next nonempty piece of the message goes
      out and fits. */
  lemma TurnOutcome(s: State, maxFrag: nat, attempt: Attempt)
    requires s.table.enc < |s.table.slots|
    requires s.buffer.Pending? && s.buffer.offset < |s.buffer.message|
    requires maxFrag > HeadersLength(s.cidSize, s.buffer.hsType)
    ensures var (ret, s1) := FragmentTurn(s, maxFrag, attempt); var f := NextFragment(s, maxFrag);
      && s1.hsNumber == s.hsNumber && s1.cidSize == s.cidSize
      && if Refused(attempt, !IsEncrypted(s.buffer.hsType), NextSeq(s.table))
         then !ret.Ok? && s1.buffer.Idle? && s1.output == s.output
         else && ret == WireRet(attempt.wire) && NextSeq(s1.table) == Increment64(NextSeq(s.table))
              && f.body != [] && s1.buffer == s.buffer.(offset := s.buffer.offset + |f.body|)
              && s1.output == Noted(s.output, f)
  {
    if attempt.Build? {
      FragmentOutcome(s, s.buffer.hsType, NextFragment(s, maxFrag), attempt.wire);
      hide SendOneFragment;
    }
  }

  /** Every fragment that goes out fits and, unless it is of a HelloRetryRequest, joins the retransmission list,
      tracking the number it is sent with. */
  lemma TurnSends(s: State, maxFrag: nat, wire: Wire)
    requires s.table.enc < |s.table.slots|
    requires s.buffer.Pending? && s.buffer.offset < |s.buffer.message|
    requires maxFrag > HeadersLength(s.cidSize, s.buffer.hsType)
    ensures var (ret, s1) := FragmentTurn(s, maxFrag, Build(wire)); var f := NextFragment(s, maxFrag);
      ret.Queued() ==>
        && s1.buffer == s.buffer.(offset := s.buffer.offset + |f.body|)
        && s1.output == Noted(s.output, f)
        && s1.hsNumber == s.hsNumber && s1.cidSize == s.cidSize
        && f.body != [] && HeadersLength(s.cidSize, s.buffer.hsType) + |f.body| <= maxFrag
        && s1.rtx == if s.buffer.hsType == 6 then s.rtx
                     else s.rtx + [Rec(s.trace.nextId, SendingEpoch(s.table), s.buffer.hsType, f, [NextSeq(s.table)])]
  {
    FragmentJoinsList(s, s.buffer.hsType, NextFragment(s, maxFrag), wire);
    FragmentOutcome(s, s.buffer.hsType, NextFragment(s, maxFrag), wire);
    hide SendOneFragment, Refused;
  }

  lemma FragmentJoinsList(s: State, hsType: HandshakeType, frag: Fragment, wire: Wire)
    requires s.table.enc < |s.table.slots|
    ensures var (ret, s1) := SendOneFragment(s, hsType, frag, wire);
      s1.rtx == if ret.Queued() && hsType != 6
                then s.rtx + [Rec(s.trace.nextId, SendingEpoch(s.table), hsType, frag, [NextSeq(s.table)])] else s.rtx
  {
    hide Emit, IsEncrypted;
  }

  /** A call finishes the message or leaves it pending after some progress, or gives it up: exactly if among the
      attempts it needs the first that is not written out is refused. */
  lemma {:induction false} CallGivesUpExactly(s: State, maxFrag: nat, plan: seq<Attempt>)
    requires s.table.enc < |s.table.slots| && s.buffer.Pending? && s.buffer.offset <= |s.buffer.message|
    requires maxFrag > HeadersLength(s.cidSize, s.buffer.hsType)
    ensures var (ret, s1) := SendPending(s, maxFrag, plan);
      && s1.hsNumber == s.hsNumber
      && (CallGivesUp(s, maxFrag, plan) <==> s1.buffer.Idle? && !ret.Ok?)
      && (s1.buffer.Pending? ==> ret.WantWrite? && s.buffer.offset < s1.buffer.offset)
    decreases |s.buffer.message| - s.buffer.offset
  {
    hide FragmentTurn, IsEncrypted, CallGivesUp;
    GivesUpInTurns(s, maxFrag, plan);
    if s.buffer.offset < |s.buffer.message| {
      TurnOutcome(s, maxFrag, FirstAttempt(plan));
      var (ret, s1) := FragmentTurn(s, maxFrag, FirstAttempt(plan));
      if ret.Ok? {
        CallGivesUpExactly(s1, maxFrag, Rest(plan));
      }
    }
  }

  /** Turn by turn: a call gives up if its first turn is refused, or sends its record and the rest gives up. */
  lemma GivesUpInTurns(s: State, maxFrag: nat, plan: seq<Attempt>)
    requires s.table.enc < |s.table.slots| && s.buffer.Pending? && s.buffer.offset <= |s.buffer.message|
    requires maxFrag > HeadersLength(s.cidSize, s.buffer.hsType)
    ensures s.buffer.offset == |s.buffer.message| ==> !CallGivesUp(s, maxFrag, plan)
    ensures s.buffer.offset < |s.buffer.message| ==>
      var (ret, s1) := FragmentTurn(s, maxFrag, FirstAttempt(plan));
      (CallGivesUp(s, maxFrag, plan) <==>
         Refused(FirstAttempt(plan), !IsEncrypted(s.buffer.hsType), NextSeq(s.table))
         || (ret.Ok? && CallGivesUp(s1, maxFrag, Rest(plan))))
  {
    if s.buffer.offset < |s.buffer.message| {
      TurnOutcome(s, maxFrag, FirstAttempt(plan));
      hide FragmentTurn, IsEncrypted;
      var (ret, s1) := FragmentTurn(s, maxFrag, FirstAttempt(plan));
      if ret.Ok? {
        var turns := Turns(|s1.buffer.message| - s1.buffer.offset, maxFrag - HeadersLength(s.cidSize, s.buffer.hsType));
        ProtectedGivesUp(Rest(plan), turns, NextSeq(s1.table), NextSeq(s.table) + 1);
      }
    }
  }

  // ----- steps that disrupt nothing ------------------------------------------------------------------------------

  lemma NextFragmentIs(s: State, maxFrag: nat)
    requires s.buffer.Pending? && s.buffer.offset < |s.buffer.message|
    requires maxFrag > HeadersLength(s.cidSize, s.buffer.hsType)
    ensures var b, f := s.buffer, NextFragment(s, maxFrag); var upto := b.offset + |f.body|;
      && b.offset < upto <= |b.message|
      && f == Fragment(s.hsNumber, |b.message|, b.offset, b.message[b.offset..upto])
  {
    hide HeadersLength;
  }

  lemma PartGrows(s: State, s1: State, f: Fragment)
    requires PartlyOut(s) && s1.output == Noted(s.output, f) && s1.hsNumber == s.hsNumber
    requires var b := s.buffer; var upto := b.offset + |f.body|;
      && b.offset < upto <= |b.message| && s1.buffer == b.(offset := upto)
      && f == Fragment(s.hsNumber, |b.message|, b.offset, b.message[b.offset..upto])
    ensures PartlyOut(s1)
  {
    var last := |s.output.messages| - 1;
    hide Tiles;
    TilesGrow(s.output.fragments[last], s.hsNumber, s.buffer.message, s.buffer.offset, s1.buffer.offset);
  }

  lemma TurnKeepsOutput(s: State, maxFrag: nat, attempt: Attempt)
    requires s.table.enc < |s.table.slots| && PartlyOut(s) && s.buffer.offset < |s.buffer.message|
    requires maxFrag > HeadersLength(s.cidSize, s.buffer.hsType)
    ensures var s1 := FragmentTurn(s, maxFrag, attempt).1;
      if s1.buffer.Pending? then PartlyOut(s1) else s1.output == s.output && s1.hsNumber == s.hsNumber
  {
    assert s.buffer.Pending?;
    hide FragmentTurn, PartlyOut, Refused, NextFragment, Noted;
    TurnOutcome(s, maxFrag, attempt);
    NextFragmentIs(s, maxFrag);
    var s1 := FragmentTurn(s, maxFrag, attempt).1;
    if s1.buffer.Pending? {
      PartGrows(s, s1, NextFragment(s, maxFrag));
    }
  }

  /** The latest message has been given up. */
  ghost predicate GivenUp(s: State) {
    && s.buffer.Idle? && |s.output.messages| == |s.output.fragments| > 0
    && var last := |s.output.messages| - 1;
       !Complete(s.output.fragments[last], NumberOf(last), s.output.messages[last].body)
  }

  lemma PartIsNotComplete(s: State, s1: State)
    requires PartlyOut(s) && s.buffer.offset < |s.buffer.message| && s1.buffer.Idle? && s1.output == s.output
    ensures GivenUp(s1)
  {
    var last := |s.output.messages| - 1;
    hide Tiles;
    if Tiles(s.output.fragments[last], s.hsNumber, s.buffer.message, |s.buffer.message|) {
      TilesEndOnce(s.output.fragments[last], s.hsNumber, s.buffer.message, s.buffer.offset, |s.buffer.message|);
    }
  }

  /** A pending message is finished, stays pending, or is given up and never completed. */
  lemma {:induction false} SendPendingKeepsOutput(s: State, maxFrag: nat, plan: seq<Attempt>)
    requires s.table.enc < |s.table.slots| && PartlyOut(s)
    requires maxFrag > HeadersLength(s.cidSize, s.buffer.hsType)
    ensures var (ret, s1) := SendPending(s, maxFrag, plan);
      if s1.buffer.Pending? then PartlyOut(s1)
      else if ret.Ok? then AllOut(s1.output, Increment16(s1.hsNumber)) else GivenUp(s1)
    decreases |s.buffer.message| - s.buffer.offset
  {
    if s.buffer.offset < |s.buffer.message| {
      TurnKeepsOutput(s, maxFrag, FirstAttempt(plan));
      var (ret, s1) := FragmentTurn(s, maxFrag, FirstAttempt(plan));
      hide FragmentTurn, PartlyOut, GivenUp, AllOut;
      if ret.Ok? {
        SendPendingKeepsOutput(s1, maxFrag, Rest(plan));
      } else if s1.buffer.Idle? {
        PartIsNotComplete(s, s1);
      }
    } else {
      LastOut(s);
    }
  }

  lemma LastOut(s: State)
    requires PartlyOut(s) && s.buffer.offset == |s.buffer.message|
    ensures AllOut(s.output, Increment16(s.hsNumber))
  {
    assert s.output.fragments[|s.output.messages| - 1] != [];
  }

  lemma ContinueKeepsOutput(s: State, maxFrag: nat, plan: seq<Attempt>)
    requires s.table.enc < |s.table.slots| && PartlyOut(s)
    requires maxFrag > HeadersLength(s.cidSize, s.buffer.hsType)
    ensures var s1 := ContinueFragments(s, maxFrag, plan).1;
      if CallGivesUp(s, maxFrag, plan) then GivenUp(s1) else OutputOk(s1)
  {
    SendPendingKeepsOutput(s, maxFrag, plan);
    CallGivesUpExactly(s, maxFrag, plan);
    hide SendPending, CallGivesUp, FirstOut, Tiles;
  }

  lemma TakenOnIsPartlyOut(s: State, hsType: HandshakeType, body: seq<byte>)
    requires AllOut(s.output, s.hsNumber) && body != []
    ensures PartlyOut(TakenOn(s, hsType, body))
  {
    hide Complete;
  }

  lemma OneMoreOut(o: Output, hsNumber: word16, hsType: HandshakeType, body: seq<byte>)
    requires AllOut(o, hsNumber)
    ensures AllOut(Accept(o, Message(hsType, body), [Fragment(hsNumber, |body|, 0, body)]), Increment16(hsNumber))
  {
    assert body[0..|body|] == body;
    TilesGrow([], hsNumber, body, 0, |body|);
    assert [] + [Fragment(hsNumber, |body|, 0, body)] == [Fragment(hsNumber, |body|, 0, body)];
    hide Tiles;
  }

  // ----- operations that disrupt -----------------------------------------------------------------------------------

  /** Is a message overtaken or given up: a short one is sent while another is pending, or a call that sends
      fragments gives its message up? */
  predicate Disrupts(s: State, op: Op)
    requires s.table.enc < |s.table.slots| && (s.buffer.Pending? ==> s.buffer.offset <= |s.buffer.message|)
    requires Enabled(s, op)
  {
    match op
    case SendMessage(hsType, body, maxFrag, wire, plan) =>
      var (ok, t) := SwitchTo(s.table, s.table.sendEpoch);
      ok && SendDisrupts(s.(table := t), hsType, body, maxFrag, wire, plan)
    case ResumeMessage(maxFrag, plan) => CallGivesUp(s, maxFrag, plan)
    case _ => false
  }

  predicate SendDisrupts(s: State, hsType: HandshakeType, body: seq<byte>, maxFrag: nat, wire: Wire, plan: seq<Attempt>)
    requires s.table.enc < |s.table.slots| && maxFrag > HeadersLength(s.cidSize, hsType)
  {
    if HeadersLength(s.cidSize, hsType) + |body| < maxFrag then
      s.buffer.Pending? && !Refused(Build(wire), !IsEncrypted(hsType), NextSeq(s.table))
    else
      s.buffer.Idle?
      && GivesUp(plan, Turns(|body|, maxFrag - HeadersLength(s.cidSize, hsType)), !IsEncrypted(hsType),
                 NextSeq(s.table))
  }

  /** Some fragment carries another number than its message has. */
  ghost predicate WrongNumber(o: Output) {
    exists i, k :: 0 <= i < |o.fragments| && 0 <= k < |o.fragments[i]| && o.fragments[i][k].messageSeq != NumberOf(i)
  }

  /** Some message that nothing more will be sent of is not complete. */
  ghost predicate LeftIncomplete(s: State) {
    exists i :: 0 <= i < |s.output.messages| && i < |s.output.fragments|
      && (i < |s.output.messages| - 1 || s.buffer.Idle?)
      && !Complete(s.output.fragments[i], NumberOf(i), s.output.messages[i].body)
  }

  ghost predicate Broken(s: State) {
    |s.output.fragments| == |s.output.messages| && (WrongNumber(s.output) || LeftIncomplete(s))
  }

  lemma BrokenIsNotOk(s: State)
    requires Broken(s)
    ensures !OutputOk(s)
  {
    if OutputOk(s) && WrongNumber(s.output) {
      var i, k :| 0 <= i < |s.output.fragments| && 0 <= k < |s.output.fragments[i]|
        && s.output.fragments[i][k].messageSeq != NumberOf(i);
      var pending := s.buffer.Pending? && i == |s.output.messages| - 1;
      var upto := if pending then s.buffer.offset else |s.output.messages[i].body|;
      assert Tiles(s.output.fragments[i], NumberOf(i), s.output.messages[i].body, upto);
      TilesArePieces(s.output.fragments[i], NumberOf(i), s.output.messages[i].body, upto, k);
    }
  }

  /** A whole message sent while another is pending carries the pending one's number. */
  lemma OvertakingBreaks(s: State, hsType: HandshakeType, body: seq<byte>, wire: Wire)
    requires s.table.enc < |s.table.slots| && PartlyOut(s)
    requires !Refused(Build(wire), !IsEncrypted(hsType), NextSeq(s.table))
    ensures Broken(SendWhole(s, hsType, body, wire).1)
  {
    var f := Fragment(s.hsNumber, |body|, 0, body);
    FragmentOutcome(s, hsType, f, wire);
    hide SendOneFragment, FirstOut, Tiles, Refused, LeftIncomplete;
    var o := SendWhole(s, hsType, body, wire).1.output;
    assert o.fragments[|s.output.messages|][0] == f;
  }

  lemma GivenUpIsBroken(s: State)
    requires GivenUp(s)
    ensures Broken(s)
  {
    hide Complete, WrongNumber;
  }

  lemma SendWholeKeepsOutput(s: State, hsType: HandshakeType, body: seq<byte>, wire: Wire)
    requires s.table.enc < |s.table.slots| && OutputOk(s)
    ensures var s1 := SendWhole(s, hsType, body, wire).1;
      if s.buffer.Pending? && !Refused(Build(wire), !IsEncrypted(hsType), NextSeq(s.table)) then Broken(s1)
      else OutputOk(s1)
  {
    var f := Fragment(s.hsNumber, |body|, 0, body);
    FragmentOutcome(s, hsType, f, wire);
    if s.buffer.Pending? && !Refused(Build(wire), !IsEncrypted(hsType), NextSeq(s.table)) {
      OvertakingBreaks(s, hsType, body, wire);
    } else {
      hide SendOneFragment, Refused, FirstOut, PartlyOut, Accept;
      if s.buffer.Idle? {
        OneMoreOut(s.output, s.hsNumber, hsType, body);
      }
      OutputFrame(s, SendOneFragment(s, hsType, f, wire).1);
    }
  }

  lemma SendFragmentedKeepsOutput(s: State, hsType: HandshakeType, body: seq<byte>, maxFrag: nat, plan: seq<Attempt>)
    requires s.table.enc < |s.table.slots| && OutputOk(s)
    requires maxFrag > HeadersLength(s.cidSize, hsType) && body != []
    ensures var s1 := SendFragmented(s, hsType, body, maxFrag, plan).1;
      if s.buffer.Idle?
         && GivesUp(plan, Turns(|body|, maxFrag - HeadersLength(s.cidSize, hsType)), !IsEncrypted(hsType),
                    NextSeq(s.table))
      then Broken(s1) else OutputOk(s1)
  {
    if s.buffer.Idle? {
      var t := TakenOn(s, hsType, body);
      assert AllOut(s.output, s.hsNumber);
      assert CallGivesUp(t, maxFrag, plan)
          == GivesUp(plan, Turns(|body|, maxFrag - HeadersLength(s.cidSize, hsType)), !IsEncrypted(hsType),
                     NextSeq(s.table));
      hide ContinueFragments, GivesUp, Turns, CallGivesUp, OutputOk, Broken, PartlyOut, GivenUp, AllOut;
      TakenOnIsPartlyOut(s, hsType, body);
      ContinueKeepsOutput(t, maxFrag, plan);
      if CallGivesUp(t, maxFrag, plan) {
        GivenUpIsBroken(ContinueFragments(t, maxFrag, plan).1);
      }
    }
  }

  lemma SendMessageKeepsOutput(s: State, hsType: HandshakeType, body: seq<byte>, maxFrag: nat, wire: Wire,
                               plan: seq<Attempt>)
    requires s.table.enc < |s.table.slots| && OutputOk(s) && maxFrag > HeadersLength(s.cidSize, hsType)
    ensures var (ok, t) := SwitchTo(s.table, s.table.sendEpoch);
      var s1 := HandshakeSend(s, hsType, body, maxFrag, wire, plan).1;
      if ok && SendDisrupts(s.(table := t), hsType, body, maxFrag, wire, plan) then Broken(s1) else OutputOk(s1)
  {
    hide SendWhole, SendFragmented, SwitchTo, OutputOk, Broken, GivesUp, Turns, Refused;
    var (ok, t) := SwitchTo(s.table, s.table.sendEpoch);
    if ok {
      var s1 := s.(table := t, waitKeyUpdateAck := s.waitKeyUpdateAck || hsType == KEY_UPDATE);
      OutputFrame(s, s1);
      if HeadersLength(s.cidSize, hsType) + |body| < maxFrag {
        SendWholeKeepsOutput(s1, hsType, body, wire);
      } else {
        SendFragmentedKeepsOutput(s1, hsType, body, maxFrag, plan);
      }
    }
  }

  // ----- what is broken stays broken -----------------------------------------------------------------

  /** Messages and fragments are only added, fragments only to a pending latest message. */
  ghost predicate Grown(s: State, s1: State) {
    var o, o1 := s.output, s1.output;
    |o.fragments| == |o.messages| ==>
      && |o1.fragments| == |o1.messages| >= |o.messages| && o.messages <= o1.messages
      && (forall i :: 0 <= i < |o.fragments| ==> o.fragments[i] <= o1.fragments[i])
      && (forall i :: 0 <= i < |o.fragments| && (i < |o.fragments| - 1 || s.buffer.Idle?) ==>
            o1.fragments[i] == o.fragments[i])
      && (s.buffer.Idle? && |o1.messages| == |o.messages| ==> s1.buffer.Idle?)
  }

  lemma BrokenStays(s: State, s1: State)
    requires Broken(s) && Grown(s, s1)
    ensures Broken(s1)
  {
    hide Complete;
    if WrongNumber(s.output) {
      var i, k :| 0 <= i < |s.output.fragments| && 0 <= k < |s.output.fragments[i]|
        && s.output.fragments[i][k].messageSeq != NumberOf(i);
      assert s1.output.fragments[i][k] == s.output.fragments[i][k];
    } else {
      var i :| 0 <= i < |s.output.messages| && i < |s.output.fragments|
        && (i < |s.output.messages| - 1 || s.buffer.Idle?)
        && !Complete(s.output.fragments[i], NumberOf(i), s.output.messages[i].body);
      assert s1.output.fragments[i] == s.output.fragments[i] && s1.output.messages[i] == s.output.messages[i];
    }
  }

  lemma GrownTwice(s: State, s1: State, s2: State)
    requires Grown(s, s1) && Grown(s1, s2)
    ensures Grown(s, s2)
  {
  }

  lemma SameIsGrown(s: State, s1: State)
    requires s1.output == s.output && (s.buffer.Idle? ==> s1.buffer.Idle?)
    ensures Grown(s, s1)
  {
  }

  lemma TurnGrows(s: State, maxFrag: nat, attempt: Attempt)
    requires s.table.enc < |s.table.slots| && s.buffer.Pending? && s.buffer.offset < |s.buffer.message|
    requires maxFrag > HeadersLength(s.cidSize, s.buffer.hsType)
    ensures Grown(s, FragmentTurn(s, maxFrag, attempt).1)
  {
    TurnOutcome(s, maxFrag, attempt);
    hide FragmentTurn, Refused;
  }

  lemma {:induction false} PendingGrows(s: State, maxFrag: nat, plan: seq<Attempt>)
    requires s.table.enc < |s.table.slots| && s.buffer.Pending? && s.buffer.offset <= |s.buffer.message|
    requires maxFrag > HeadersLength(s.cidSize, s.buffer.hsType)
    ensures Grown(s, SendPending(s, maxFrag, plan).1)
    decreases |s.buffer.message| - s.buffer.offset
  {
    hide FragmentTurn, Grown;
    if s.buffer.offset < |s.buffer.message| {
      TurnGrows(s, maxFrag, FirstAttempt(plan));
      var (ret, s1) := FragmentTurn(s, maxFrag, FirstAttempt(plan));
      if ret.Ok? {
        PendingGrows(s1, maxFrag, Rest(plan));
        GrownTwice(s, s1, SendPending(s1, maxFrag, Rest(plan)).1);
      }
    } else {
      SameIsGrown(s, SendPending(s, maxFrag, plan).1);
    }
  }

  lemma ContinueGrows(s: State, maxFrag: nat, plan: seq<Attempt>)
    requires s.table.enc < |s.table.slots| && s.buffer.Pending? && s.buffer.offset <= |s.buffer.message|
    requires maxFrag > HeadersLength(s.cidSize, s.buffer.hsType)
    ensures Grown(s, ContinueFragments(s, maxFrag, plan).1)
  {
    PendingGrows(s, maxFrag, plan);
    hide SendPending;
  }

  lemma SendWholeGrows(s: State, hsType: HandshakeType, body: seq<byte>, wire: Wire)
    requires s.table.enc < |s.table.slots|
    ensures Grown(s, SendWhole(s, hsType, body, wire).1)
  {
    FragmentOutcome(s, hsType, Fragment(s.hsNumber, |body|, 0, body), wire);
    hide SendOneFragment, Refused;
  }

  lemma SendFragmentedGrows(s: State, hsType: HandshakeType, body: seq<byte>, maxFrag: nat, plan: seq<Attempt>)
    requires s.table.enc < |s.table.slots| && maxFrag > HeadersLength(s.cidSize, hsType)
    ensures Grown(s, SendFragmented(s, hsType, body, maxFrag, plan).1)
  {
    if s.buffer.Idle? {
      var t := TakenOn(s, hsType, body);
      assert Grown(s, t);
      ContinueGrows(t, maxFrag, plan);
      hide ContinueFragments, Grown;
      GrownTwice(s, t, ContinueFragments(t, maxFrag, plan).1);
    }
  }

  lemma SendMessageGrows(s: State, hsType: HandshakeType, body: seq<byte>, maxFrag: nat, wire: Wire, plan: seq<Attempt>)
    requires s.table.enc < |s.table.slots| && maxFrag > HeadersLength(s.cidSize, hsType)
    ensures Grown(s, HandshakeSend(s, hsType, body, maxFrag, wire, plan).1)
  {
    hide SendWhole, SendFragmented, SwitchTo, Grown;
    var (ok, t) := SwitchTo(s.table, s.table.sendEpoch);
    SameIsGrown(s, s);
    if ok {
      var s1 := s.(table := t, waitKeyUpdateAck := s.waitKeyUpdateAck || hsType == KEY_UPDATE);
      SameIsGrown(s, s1);
      SendWholeGrows(s1, hsType, body, wire);
      SendFragmentedGrows(s1, hsType, body, maxFrag, plan);
      GrownTwice(s, s1, HandshakeSend(s, hsType, body, maxFrag, wire, plan).1);
    }
  }

  // ----- the other steps -----------------------------------------------------------------------------

  lemma {:induction false} RetransmitSameOutput(s: State, i: nat, plan: seq<Attempt>)
    requires s.table.enc < |s.table.slots|
    ensures SameOutput(s, Retransmit(s, i, plan).1)
    decreases |s.rtx| - i
  {
    hide Emit, SwitchTo, Track, MovedToEnd;
    if i < |s.rtx| && FirstAttempt(plan).Build? {
      var s1 := RetransmitOne(s, i, FirstAttempt(plan).wire).1;
      assert SameOutput(s, s1);
      RetransmitSameOutput(s1, i + 1, Rest(plan));
    }
  }

  lemma KeyUpdateAckedSameOutput(s: State, derived: bool)
    ensures SameOutput(s, KeyUpdateAcked(s, derived).1)
  {
    hide Install, Retire, UseKeys;
  }

  lemma ReceiveAckSameOutput(s: State, rns: seq<RecordNumber>, derived: bool)
    ensures SameOutput(s, ReceiveAck(s, rns, derived).1)
  {
    hide KeyUpdateAcked, RemoveEach, HasKeyUpdate;
    KeyUpdateAckedSameOutput(s.(rtx := RemoveEach(s.rtx, rns), waitKeyUpdateAck := false), derived);
  }

  lemma OtherRecordsSameOutput(s: State, early: bool, attempt: Attempt)
    requires s.table.enc < |s.table.slots|
    ensures SameOutput(s, SendAck(s, attempt).1)
    ensures SameOutput(s, SendData(s, early, attempt).1)
  {
    hide Emit, SwitchForAck, UseKeys, SwitchTo;
  }

  lemma OtherStepsSameOutput(s: State, op: Op)
    requires WellFormed(s) && Enabled(s, op) && !op.SendMessage? && !op.ResumeMessage?
    ensures SameOutput(s, Step(s, op).1)
  {
    hide Install, Retire, UseKeys, Flushed, WithoutFirst, Retransmit, SendAck, SendData, ReceiveAck;
    match op
    case RetransmitOp(plan) => RetransmitSameOutput(s, 0, plan);
    case SendAckOp(attempt) => OtherRecordsSameOutput(s, false, attempt);
    case SendDataOp(early, attempt) => OtherRecordsSameOutput(s, early, attempt);
    case AckReceived(rns, derived) => ReceiveAckSameOutput(s, rns, derived);
    case _ =>
  }

  /** A step that disrupts nothing keeps every message in order, one that does breaks the output. */
  lemma StepKeepsOutput(s: State, op: Op)
    requires WellFormed(s) && OutputOk(s) && Enabled(s, op)
    ensures if Disrupts(s, op) then Broken(Step(s, op).1) else OutputOk(Step(s, op).1)
  {
    match op
    case SendMessage(hsType, body, maxFrag, wire, plan) =>
      hide HandshakeSend, OutputOk, Broken, SendDisrupts;
      SendMessageKeepsOutput(s, hsType, body, maxFrag, wire, plan);
    case ResumeMessage(maxFrag, plan) =>
      ContinueKeepsOutput(s, maxFrag, plan);
      hide ContinueFragments, OutputOk, Broken, GivenUp, CallGivesUp;
      if CallGivesUp(s, maxFrag, plan) {
        GivenUpIsBroken(ContinueFragments(s, maxFrag, plan).1);
      }
    case _ =>
      OtherStepsSameOutput(s, op);
      hide Step, OutputOk;
      OutputFrame(s, Step(s, op).1);
  }

  lemma StepKeepsBroken(s: State, op: Op)
    requires WellFormed(s) && Broken(s) && Enabled(s, op)
    ensures Broken(Step(s, op).1)
  {
    match op
    case SendMessage(hsType, body, maxFrag, wire, plan) =>
      hide HandshakeSend, Broken, Grown;
      SendMessageGrows(s, hsType, body, maxFrag, wire, plan);
      BrokenStays(s, Step(s, op).1);
    case ResumeMessage(maxFrag, plan) =>
      hide ContinueFragments, Broken, Grown;
      ContinueGrows(s, maxFrag, plan);
      BrokenStays(s, Step(s, op).1);
    case _ =>
      OtherStepsSameOutput(s, op);
      hide Step, Broken, Grown;
      SameIsGrown(s, Step(s, op).1);
      BrokenStays(s, Step(s, op).1);
  }

  // ----- whole runs ----------------------------------------------------------------------------------

  /** No step of the run disrupts. */
  ghost predicate Undisrupted(s: State, ops: seq<Op>)
    requires Inv(s) && LegalRun(s, ops)
    decreases |ops|
  {
    ops == [] || (!Disrupts(s, ops[0]) && Undisrupted(Next(s, ops[0]), ops[1..]))
  }

  lemma {:induction false} RunKeepsBroken(s: State, ops: seq<Op>)
    requires Inv(s) && LegalRun(s, ops) && Broken(s)
    ensures Broken(Run(s, ops))
    decreases |ops|
  {
    hide Step, Broken;
    if ops != [] {
      StepKeepsBroken(s, ops[0]);
      RunKeepsBroken(Next(s, ops[0]), ops[1..]);
    }
  }

  lemma {:induction false} RunKeepsOutput(s: State, ops: seq<Op>)
    requires Inv(s) && LegalRun(s, ops) && OutputOk(s)
    ensures OutputOk(Run(s, ops)) <==> Undisrupted(s, ops)
    decreases |ops|
  {
    hide Step, OutputOk, Broken, Disrupts;
    if ops != [] {
      StepKeepsOutput(s, ops[0]);
      if Disrupts(s, ops[0]) {
        RunKeepsBroken(Next(s, ops[0]), ops[1..]);
        BrokenIsNotOk(Run(s, ops));
      } else {
        RunKeepsOutput(Next(s, ops[0]), ops[1..]);
      }
    }
  }

  /** Over every run: the messages carry consecutive numbers from zero, the fragments of each finished one tile it, and
      those of a pending one tile what has been sent of it, if and only if no step of the run disrupts. */
  lemma MessagesAreTiled(epochs: nat, rnSize: nat, server: bool, cidSize: byte, ops: seq<Op>)
    requires epochs > 0 && rnSize > 0 && LegalRun(Start(epochs, rnSize, server, cidSize), ops)
    ensures var s := Run(Start(epochs, rnSize, server, cidSize), ops);
      (if s.buffer.Pending? then PartlyOut(s) else AllOut(s.output, s.hsNumber))
      <==> Undisrupted(Start(epochs, rnSize, server, cidSize), ops)
  {
    StartIsOk(epochs, rnSize, server, cidSize);
    RunKeepsOutput(Start(epochs, rnSize, server, cidSize), ops);
  }

  lemma StartIsOk(epochs: nat, rnSize: nat, server: bool, cidSize: byte)
    requires epochs > 0 && rnSize > 0
    ensures OutputOk(Start(epochs, rnSize, server, cidSize))
  {
  }

  // ----- interruption and completion -----------------------------------------------------------------

  datatype Call = Call(maxFrag: nat, plan: seq<Attempt>)

  ghost predicate CallsFit(s: State, calls: seq<Call>) {
    && s.table.enc < |s.table.slots|
    && (s.buffer.Pending? ==>
          && s.buffer.offset <= |s.buffer.message|
          && forall i :: 0 <= i < |calls| ==> calls[i].maxFrag > HeadersLength(s.cidSize, s.buffer.hsType))
  }

  /** Dtls13FragmentsContinue called until nothing is pending; the fragment size may differ from call to call. */
  ghost function ResumeAll(s: State, calls: seq<Call>): State
    requires CallsFit(s, calls)
    decreases |calls|
  {
    if calls == [] || s.buffer.Idle? then s
    else ResumeAll(ContinueFragments(s, calls[0].maxFrag, calls[0].plan).1, calls[1..])
  }

  /** Does one of the calls made give the message up? */
  ghost predicate SomeCallGivesUp(s: State, calls: seq<Call>)
    requires CallsFit(s, calls)
    decreases |calls|
  {
    && calls != [] && s.buffer.Pending?
    && (|| CallGivesUp(s, calls[0].maxFrag, calls[0].plan)
        || SomeCallGivesUp(ContinueFragments(s, calls[0].maxFrag, calls[0].plan).1, calls[1..]))
  }

  /** After at most one call more than it has bytes left nothing of a message is pending; its handshake number is
      passed, once, if and only if no call gave it up. */
  lemma {:induction false} ResumptionFinishes(s: State, calls: seq<Call>)
    requires CallsFit(s, calls) && s.buffer.Pending? && |calls| > |s.buffer.message| - s.buffer.offset
    ensures var s1 := ResumeAll(s, calls);
      && s1.buffer.Idle?
      && s1.hsNumber == (if SomeCallGivesUp(s, calls) then s.hsNumber else Increment16(s.hsNumber))
    decreases |calls|
  {
    CallGivesUpExactly(s, calls[0].maxFrag, calls[0].plan);
    hide SendPending, CallGivesUp;
    var (ret, s1) := ContinueFragments(s, calls[0].maxFrag, calls[0].plan);
    if s1.buffer.Pending? {
      ResumptionFinishes(s1, calls[1..]);
    }
  }

  /** When CheckAvailableSize cannot flush to make room the message is given up although WANT_WRITE is
      returned: nothing is left to resume, and the message number is not passed. */
  lemma NoRoomAbandons(s: State, maxFrag: nat, rest: seq<Attempt>)
    requires s.table.enc < |s.table.slots| && PartlyOut(s) && s.buffer.offset < |s.buffer.message|
    requires maxFrag > HeadersLength(s.cidSize, s.buffer.hsType)
    ensures var plan := [NoRoom(true)] + rest; var (ret, s1) := ContinueFragments(s, maxFrag, plan);
      && CallGivesUp(s, maxFrag, plan)
      && ret.WantWrite? && s1.hsNumber == s.hsNumber && GivenUp(s1)
  {
    var plan := [NoRoom(true)] + rest;
    assert FirstAttempt(plan) == NoRoom(true);
    ContinueKeepsOutput(s, maxFrag, plan);
    hide GivenUp, PartlyOut;
  }

  /** A whole message sent while another is pending takes the pending message's number. */
  lemma OvertakingSharesNumber(s: State, hsType: HandshakeType, body: seq<byte>, wire: Wire)
    requires s.table.enc < |s.table.slots| && PartlyOut(s) && s.output.fragments[|s.output.messages| - 1] != []
    requires SendWhole(s, hsType, body, wire).0.Queued()
    ensures var o := SendWhole(s, hsType, body, wire).1.output; var n := |s.output.messages|;
      && |o.fragments| == n + 1 && |o.fragments[n]| == 1
      && o.fragments[n][0].messageSeq == o.fragments[n - 1][|o.fragments[n - 1]| - 1].messageSeq
  {
  }
}
