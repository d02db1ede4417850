/** The sizes of records, told from the bytes the two ends agree on: what the fragmenter cuts fits, and nothing is cut
    shorter than it must be. */
module SizeProofs {
  import opened Words
  import opened EpochTable
  import opened RtxQueue
  import opened SenderSpec
  import opened FragmentProofs
  import opened EmittedFragments
  import H = HandshakeSpec
  import RecordHeader

  // ----- the bytes of a record -------------------------------------------------------------------------

  /** enum HandShakeType: the messages that open a handshake, and the others it names. */
  const HELLOS: set<HandshakeType> := {0, 1, 2, 3, 6}
  const LATER_TYPES: set<HandshakeType> := {4, 5, 8, 11, 12, 13, 14, 15, 16, 20, 22, 24, 55, 254, 255}

  /** Hellos go out in the plain, and so does a type without a name; every other message is protected. */
  lemma PlainTypes(hsType: HandshakeType)
    ensures IsEncrypted(hsType) <==> hsType in LATER_TYPES
    ensures !IsEncrypted(hsType) <==> hsType in HELLOS || hsType !in HELLOS + LATER_TYPES
  {
  }

  /** Dtls13RlAddPlaintextHeader: a handshake record of DTLS 1.2, with the epoch and 48 bits of the number. */
  function PlaintextHeader(epoch: word64, seqNumber: word64, length: word16): (h: seq<byte>)
    ensures |h| == 13
  {
    [22, 0xFE, 0xFD] + C16toa(epoch % 0x1_0000) + C16toa(seqNumber / 0x1_0000_0000 % 0x1_0000)
    + C32toa(seqNumber % 0x1_0000_0000) + C16toa(length)
  }

  predicate IsHandshake(e: Entry) {
    && e.payload.Handshake?
    && var f := e.payload.frag; f.length < 0x100_0000 && f.offset < 0x100_0000 && |f.body| < 0x100_0000
  }

  /** A handshake record as it is put together, before its content is protected; length is what its header tells. */
  function Record(e: Entry, cid: seq<byte>, length: word16): seq<byte>
    requires IsHandshake(e)
  {
    (if e.payload.hsType in LATER_TYPES then RecordHeader.Header(e.epoch, e.seqNumber, cid, length)
     else PlaintextHeader(e.epoch, e.seqNumber, length))
    + H.EncodeFragment(e.payload.hsType, e.payload.frag)
  }

  /** The record fits; and it is as large as it may be, unless its fragment is the end of the message. */
  ghost predicate Fits(e: Entry, cidSize: byte, maxFrag: nat) {
    && IsHandshake(e)
    && forall cid: seq<byte>, length: word16 | |cid| == cidSize ::
         var n := |Record(e, cid, length)|;
         n <= maxFrag && (n == maxFrag || e.payload.frag.offset + |e.payload.frag.body| == e.payload.frag.length)
  }

  /** Every record handed out since fits. */
  ghost predicate NewOnesFit(log: seq<Entry>, log1: seq<Entry>, cidSize: byte, maxFrag: nat) {
    log <= log1 && forall k :: |log| <= k < |log1| ==> Fits(log1[k], cidSize, maxFrag)
  }

  /** The fragmenter reckons with the true size of the headers. */
  lemma RecordSize(e: Entry, cid: seq<byte>, length: word16)
    requires IsHandshake(e) && |cid| < 0x100
    ensures |Record(e, cid, length)| == HeadersLength(|cid|, e.payload.hsType) + |e.payload.frag.body|
  {
    PlainTypes(e.payload.hsType);
  }

  lemma FitsIf(e: Entry, cidSize: byte, maxFrag: nat)
    requires IsHandshake(e)
    requires var f := e.payload.frag; var n := HeadersLength(cidSize, e.payload.hsType) + |f.body|;
      n <= maxFrag && (n == maxFrag || f.offset + |f.body| == f.length)
    ensures Fits(e, cidSize, maxFrag)
  {
    hide HeadersLength, Record;
    forall cid: seq<byte>, length: word16 | |cid| == cidSize
      ensures |Record(e, cid, length)| == HeadersLength(cidSize, e.payload.hsType) + |e.payload.frag.body|
    {
      RecordSize(e, cid, length);
    }
  }

  // ----- what the fragmenter sends -----------------------------------------------------------------------

  lemma TurnFits(s: State, maxFrag: nat, attempt: Attempt)
    requires s.table.enc < |s.table.slots|
    requires s.buffer.Pending? && s.buffer.offset < |s.buffer.message| < 0x100_0000
    requires maxFrag > HeadersLength(s.cidSize, s.buffer.hsType)
    ensures NewOnesFit(s.trace.log, FragmentTurn(s, maxFrag, attempt).1.trace.log, s.cidSize, maxFrag)
  {
    hide FragmentTurn, Fits, HeadersLength;
    TurnLog(s, maxFrag, attempt);
    var log := FragmentTurn(s, maxFrag, attempt).1.trace.log;
    if |log| > |s.trace.log| {
      FitsIf(log[|s.trace.log|], s.cidSize, maxFrag);
    }
  }

  lemma MoreFit(log: seq<Entry>, log1: seq<Entry>, log2: seq<Entry>, cidSize: byte, maxFrag: nat)
    requires NewOnesFit(log, log1, cidSize, maxFrag) && NewOnesFit(log1, log2, cidSize, maxFrag)
    ensures NewOnesFit(log, log2, cidSize, maxFrag)
  {
    hide Fits;
    assert forall k :: |log| <= k < |log1| ==> log2[k] == log1[k];
  }

  lemma NothingNewFits(log: seq<Entry>, cidSize: byte, maxFrag: nat)
    ensures NewOnesFit(log, log, cidSize, maxFrag)
  {
  }

  lemma {:induction false} PendingFits(s: State, maxFrag: nat, plan: seq<Attempt>)
    requires s.table.enc < |s.table.slots|
    requires s.buffer.Pending? && s.buffer.offset <= |s.buffer.message| < 0x100_0000
    requires maxFrag > HeadersLength(s.cidSize, s.buffer.hsType)
    ensures NewOnesFit(s.trace.log, SendPending(s, maxFrag, plan).1.trace.log, s.cidSize, maxFrag)
    decreases |s.buffer.message| - s.buffer.offset
  {
    hide FragmentTurn, NewOnesFit, HeadersLength;
    NothingNewFits(s.trace.log, s.cidSize, maxFrag);
    if s.buffer.offset < |s.buffer.message| {
      TurnFits(s, maxFrag, FirstAttempt(plan));
      var (ret, s1) := FragmentTurn(s, maxFrag, FirstAttempt(plan));
      if ret.Ok? {
        PendingFits(s1, maxFrag, Rest(plan));
        var s2 := SendPending(s1, maxFrag, Rest(plan)).1;
        MoreFit(s.trace.log, s1.trace.log, s2.trace.log, s.cidSize, maxFrag);
      }
    }
  }

  lemma WholeFits(s: State, hsType: HandshakeType, body: seq<byte>, maxFrag: nat, wire: Wire)
    requires s.table.enc < |s.table.slots| && |body| < 0x100_0000
    requires HeadersLength(s.cidSize, hsType) + |body| < maxFrag
    ensures NewOnesFit(s.trace.log, SendWhole(s, hsType, body, wire).1.trace.log, s.cidSize, maxFrag)
  {
    hide SendOneFragment, Fits, HeadersLength;
    var f := Fragment(s.hsNumber, |body|, 0, body);
    FragmentLog(s, hsType, f, wire);
    var log := SendOneFragment(s, hsType, f, wire).1.trace.log;
    if |log| > |s.trace.log| {
      FitsIf(log[|s.trace.log|], s.cidSize, maxFrag);
    }
  }

  /** Every record of a message fits, whether it goes out whole or in pieces, and whether now or later; and every
      piece but the last is as large as it may be. */
  lemma RecordsFit(s: State, op: Op)
    requires WellFormed(s) && Enabled(s, op)
    requires match op case SendMessage(_, body, _, _, _) => |body| < 0x100_0000
                      case ResumeMessage(_, _) => |s.buffer.message| < 0x100_0000 case _ => false
    ensures NewOnesFit(s.trace.log, Step(s, op).1.trace.log, s.cidSize, op.maxFrag)
  {
    hide SendWhole, SendPending, SwitchTo, NewOnesFit, HeadersLength;
    match op
    case SendMessage(hsType, body, maxFrag, wire, plan) =>
      NothingNewFits(s.trace.log, s.cidSize, maxFrag);
      var (ok, t) := SwitchTo(s.table, s.table.sendEpoch);
      if ok {
        var s1 := s.(table := t, waitKeyUpdateAck := s.waitKeyUpdateAck || hsType == KEY_UPDATE);
        if HeadersLength(s.cidSize, hsType) + |body| < maxFrag {
          WholeFits(s1, hsType, body, maxFrag, wire);
        } else if s.buffer.Idle? {
          PendingFits(TakenOn(s1, hsType, body), maxFrag, plan);
        }
      }
    case ResumeMessage(maxFrag, plan) => PendingFits(s, maxFrag, plan);
  }
}
