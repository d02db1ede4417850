/** The sending half of the DTLS 1.3 engine as a state machine over values: epochs,
    record numbers, the retransmission list, the fragmenter, acknowledgements and
    the key update they gate.  The class in Sender.dfy carries these steps out in place. */
module SenderSpec {
  import opened Words
  import opened EpochTable
  import opened RtxQueue

  /** How building and flushing one record ends: written out, queued because the socket
      would block, or failed before or after a record number was consumed. */
  datatype Wire = Sent | WouldBlock | FailedEarly | FailedLate

  /** One turn of a sending loop: CheckAvailableSize returned something other than
      zero, or the record was built. */
  datatype Attempt = NoRoom(wantWrite: bool) | Build(wire: Wire)
  {
    /** Is the record written, or queued to be? */
    predicate Queues() { Build? && (wire.Sent? || wire.WouldBlock?) }
  }

  datatype Ret = Ok | WantWrite | BadState | Failed
  {
    predicate Queued() { Ok? || WantWrite? }
  }

  datatype Payload = Handshake(hsType: HandshakeType, frag: Fragment) | Other

  /** A record number handed out, the retransmission record it was used for (-1: none),
      and whether the record was written or queued. */
  datatype Entry = Entry(epoch: word64, seqNumber: word64, owner: int, queued: bool, payload: Payload)

  /** dtls13FragmentsBuffer with dtls13MessageLength and dtls13FragOffset. */
  datatype FragBuffer = Idle | Pending(hsType: HandshakeType, message: seq<byte>, offset: nat)

  /** Every record number handed out, the epochs whose counter was lost after use, each with how many
      numbers had been handed out then, and the next free record id. */
  datatype Trace = Trace(log: seq<Entry>, spent: map<word64, nat>, nextId: nat)
  {
    /** From now on the numbers of the epoch start over. */
    function Spend(epoch: word64): Trace {
      if epoch in spent then this else this.(spent := spent[epoch := |log|])
    }
  }

  /** The messages accepted for sending and the fragments first sent for each. */
  datatype Output = Output(messages: seq<Message>, fragments: seq<seq<Fragment>>)

  datatype State = State(
    table: Table,
    rtx: seq<Rec>,
    hsNumber: word16,
    buffer: FragBuffer,
    waitKeyUpdateAck: bool,
    retransmit: bool,
    server: bool,
    cidSize: byte,
    rnSize: nat,
    trace: Trace,
    output: Output)

  const DTLS_HANDSHAKE_HEADER_SZ: nat := 12
  const DTLS_RECORD_HEADER_SZ: nat := 13
  const DTLS13_UNIFIED_HEADER_SIZE: nat := 5
  const DTLS13_EPOCH_EARLYDATA: word64 := 1
  const DTLS13_EPOCH_HANDSHAKE: word64 := 2
  const DTLS13_EPOCH_TRAFFIC0: word64 := 3

  /** Dtls13GetHeadersLength */
  function HeadersLength(cidSize: byte, hsType: HandshakeType): nat {
    (if IsEncrypted(hsType) then DTLS13_UNIFIED_HEADER_SIZE + cidSize else DTLS_RECORD_HEADER_SZ)
    + DTLS_HANDSHAKE_HEADER_SZ
  }

  // ----- one record --------------------------------------------------------------------

  function WireRet(wire: Wire): Ret {
    match wire case Sent => Ok case WouldBlock => WantWrite case _ => Failed
  }

  /** Dtls13SendFragment, or any other record: one number of the sending epoch is consumed, unless
      building fails before.  Only the plaintext header reports a counter that wrapped. */
  function EmitRet(t: Table, plain: bool, wire: Wire): Ret
    requires t.enc < |t.slots|
  {
    if !wire.FailedEarly? && plain && NextSeq(t) == TWO_64 - 1 then BadState else WireRet(wire)
  }

  function Emit(s: State, owner: int, payload: Payload, plain: bool, wire: Wire): (r: (Ret, State))
    requires s.table.enc < |s.table.slots|
    ensures r.1.table.enc < |r.1.table.slots|
    ensures r.1 == s.(table := r.1.table, trace := s.trace.(log := r.1.trace.log, spent := r.1.trace.spent))
  {
    var ret := EmitRet(s.table, plain, wire);
    if wire.FailedEarly? then (ret, s)
    else
      var e := Entry(SendingEpoch(s.table), NextSeq(s.table), owner, ret.Queued(), payload);
      var h := s.trace.(log := s.trace.log + [e]);
      (ret, s.(table := TakeSeq(s.table), trace := if e.seqNumber == TWO_64 - 1 then h.Spend(e.epoch) else h))
  }

  /** A record that joins the retransmission list once queued, tracking the number it is sent with. */
  function SendTracked(s: State, hsType: HandshakeType, frag: Fragment, wire: Wire): (Ret, State)
    requires s.table.enc < |s.table.slots|
  {
    var id := s.trace.nextId;
    var r := Rec(id, SendingEpoch(s.table), hsType, frag, [NextSeq(s.table)]);
    var (ret, s1) := Emit(s, id, Handshake(hsType, frag), !IsEncrypted(hsType), wire);
    (ret, s1.(rtx := if ret.Queued() then s1.rtx + [r] else s1.rtx,
              trace := s1.trace.(nextId := id + 1)))
  }

  /** Dtls13SendOneFragmentRtx: all but a HelloRetryRequest are tracked. */
  function SendOneFragment(s: State, hsType: HandshakeType, frag: Fragment, wire: Wire): (Ret, State)
    requires s.table.enc < |s.table.slots|
  {
    if hsType == HELLO_RETRY_REQUEST then Emit(s, -1, Handshake(hsType, frag), !IsEncrypted(hsType), wire)
    else SendTracked(s, hsType, frag, wire)
  }

  /** Sending always goes back to the highest send epoch first. */
  function SwitchTo(t: Table, n: word64): (r: (bool, Table))
    requires t.enc < |t.slots|
    ensures r.1.enc < |r.1.slots| && r.1 == t.(enc := r.1.enc)
    ensures !r.0 ==> r.1 == t
    ensures r.0 ==> SendingEpoch(r.1) == n
  {
    if SendingEpoch(t) == n then (true, t) else UseKeys(t, n, EncryptOnly)
  }

  // ----- the fragmenter ------------------------------------------------------------------

  function FirstAttempt(plan: seq<Attempt>): Attempt { if plan == [] then Build(Sent) else plan[0] }

  function Rest(plan: seq<Attempt>): seq<Attempt> { if plan == [] then [] else plan[1..] }

  /** The next fragment of a pending message. */
  function NextFragment(s: State, maxFrag: nat): Fragment
    requires s.buffer.Pending? && s.buffer.offset <= |s.buffer.message|
    requires maxFrag > HeadersLength(s.cidSize, s.buffer.hsType)
  {
    var b := s.buffer;
    var n := Min(maxFrag - HeadersLength(s.cidSize, b.hsType), |b.message| - b.offset);
    Fragment(s.hsNumber, |b.message|, b.offset, b.message[b.offset..b.offset + n])
  }

  /** Notes a fragment as first sent for the latest message. */
  function Noted(o: Output, f: Fragment): Output {
    if o.fragments == [] then o
    else o.(fragments := o.fragments[|o.fragments| - 1 := o.fragments[|o.fragments| - 1] + [f]])
  }

  /** Is s1 a state that sending more of the pending message can lead to? */
  predicate SendsOn(s: State, s1: State) {
    && s1.table.enc < |s1.table.slots| && s1.cidSize == s.cidSize
    && (s1.buffer.Pending? ==>
          && s.buffer.Pending? && s1.buffer == s.buffer.(offset := s1.buffer.offset)
          && s.buffer.offset <= s1.buffer.offset <= |s.buffer.message|)
  }

  /** One turn of the loop of Dtls13SendFragmentedInternal. */
  function FragmentTurn(s: State, maxFrag: nat, attempt: Attempt): (r: (Ret, State))
    requires s.table.enc < |s.table.slots|
    requires s.buffer.Pending? && s.buffer.offset < |s.buffer.message|
    requires maxFrag > HeadersLength(s.cidSize, s.buffer.hsType)
    ensures SendsOn(s, r.1)
    ensures r.0.Ok? ==> r.1.buffer.Pending? && s.buffer.offset < r.1.buffer.offset
  {
    match attempt
    case NoRoom(wantWrite) =>
      (if wantWrite then WantWrite else Failed, s.(buffer := Idle))
    case Build(wire) =>
      var f := NextFragment(s, maxFrag);
      var (ret, s1) := SendOneFragment(s, s.buffer.hsType, f, wire);
      if ret.Queued() then
        (ret, s1.(buffer := s.buffer.(offset := s.buffer.offset + |f.body|), output := Noted(s1.output, f)))
      else (ret, s1.(buffer := Idle))
  }

  /** Dtls13SendFragmentedInternal */
  function SendPending(s: State, maxFrag: nat, plan: seq<Attempt>): (r: (Ret, State))
    requires s.table.enc < |s.table.slots|
    requires s.buffer.Pending? && s.buffer.offset <= |s.buffer.message|
    requires maxFrag > HeadersLength(s.cidSize, s.buffer.hsType)
    ensures SendsOn(s, r.1)
    decreases |s.buffer.message| - s.buffer.offset
  {
    if s.buffer.offset == |s.buffer.message| then (Ok, s.(buffer := Idle))
    else
      var (ret, s1) := FragmentTurn(s, maxFrag, FirstAttempt(plan));
      if ret.Ok? then SendPending(s1, maxFrag, Rest(plan)) else (ret, s1)
  }

  /** Dtls13FragmentsContinue */
  function ContinueFragments(s: State, maxFrag: nat, plan: seq<Attempt>): (r: (Ret, State))
    requires s.table.enc < |s.table.slots|
    requires s.buffer.Pending? && s.buffer.offset <= |s.buffer.message|
    requires maxFrag > HeadersLength(s.cidSize, s.buffer.hsType)
    ensures SendsOn(s, r.1)
  {
    var (ret, s1) := SendPending(s, maxFrag, plan);
    (ret, if ret.Ok? then s1.(hsNumber := Increment16(s1.hsNumber)) else s1)
  }

  /** Takes on a message to send. */
  function Accept(o: Output, message: Message, first: seq<Fragment>): Output {
    o.(messages := o.messages + [message], fragments := o.fragments + [first])
  }

  /** The unfragmented branch of Dtls13HandshakeSend. */
  function SendWhole(s: State, hsType: HandshakeType, body: seq<byte>, wire: Wire): (Ret, State)
    requires s.table.enc < |s.table.slots|
  {
    var f := Fragment(s.hsNumber, |body|, 0, body);
    var (ret, s1) := SendOneFragment(s, hsType, f, wire);
    if ret.Queued() then
      (ret, s1.(hsNumber := Increment16(s.hsNumber), output := Accept(s.output, Message(hsType, body), [f])))
    else (ret, s1)
  }

  /** Dtls13SendFragmented, and the rise of the handshake number when it completes. */
  function SendFragmented(s: State, hsType: HandshakeType, body: seq<byte>, maxFrag: nat,
                          plan: seq<Attempt>): (Ret, State)
    requires s.table.enc < |s.table.slots|
    requires maxFrag > HeadersLength(s.cidSize, hsType)
  {
    if s.buffer.Pending? then (BadState, s)
    else ContinueFragments(TakenOn(s, hsType, body), maxFrag, plan)
  }

  /** A message kept in the buffer, with nothing of it sent yet. */
  function TakenOn(s: State, hsType: HandshakeType, body: seq<byte>): State {
    s.(buffer := Pending(hsType, body, 0), output := Accept(s.output, Message(hsType, body), []))
  }

  /** The choice Dtls13HandshakeSend makes by the length of the message. */
  function SendBySize(s: State, hsType: HandshakeType, body: seq<byte>, maxFrag: nat, wire: Wire,
                      plan: seq<Attempt>): (Ret, State)
    requires s.table.enc < |s.table.slots|
    requires maxFrag > HeadersLength(s.cidSize, hsType)
  {
    if HeadersLength(s.cidSize, hsType) + |body| < maxFrag then SendWhole(s, hsType, body, wire)
    else SendFragmented(s, hsType, body, maxFrag, plan)
  }

  /** The part of Dtls13HandshakeSend that follows the switch to the send epoch. */
  function SendReady(s: State, hsType: HandshakeType, body: seq<byte>, maxFrag: nat, wire: Wire,
                     plan: seq<Attempt>): (Ret, State)
    requires s.table.enc < |s.table.slots|
    requires maxFrag > HeadersLength(s.cidSize, hsType)
  {
    SendBySize(s.(waitKeyUpdateAck := s.waitKeyUpdateAck || hsType == KEY_UPDATE), hsType, body, maxFrag, wire, plan)
  }

  /** Dtls13HandshakeSend; the message body comes without its headers. */
  function HandshakeSend(s: State, hsType: HandshakeType, body: seq<byte>, maxFrag: nat, wire: Wire,
                         plan: seq<Attempt>): (Ret, State)
    requires s.table.enc < |s.table.slots|
    requires maxFrag > HeadersLength(s.cidSize, hsType)
  {
    var (ok, t) := SwitchTo(s.table, s.table.sendEpoch);
    if ok then SendReady(s.(table := t), hsType, body, maxFrag, wire, plan) else (BadState, s)
  }

  // ----- ACKs and other records ------------------------------------------------------------

  /** The switch of SendDtls13Ack: a server that has not finished the handshake goes back to the
      handshake epoch, everyone else to the send epoch. */
  function SwitchForAck(s: State): (r: (bool, Table))
    requires s.table.enc < |s.table.slots|
    ensures r.1.enc < |r.1.slots| && r.1.slots == s.table.slots
    ensures !r.0 ==> r.1 == s.table
  {
    if s.server && !s.table.handShakeDone && s.table.sendEpoch >= DTLS13_EPOCH_TRAFFIC0
    then UseKeys(s.table, DTLS13_EPOCH_HANDSHAKE, EncryptOnly)
    else SwitchTo(s.table, s.table.sendEpoch)
  }

  /** SendDtls13Ack: making room for the message may fail, after the switch. */
  function SendAck(s: State, attempt: Attempt): (Ret, State)
    requires s.table.enc < |s.table.slots|
  {
    var (ok, t) := SwitchForAck(s);
    if !ok then (BadState, s)
    else SendOther(s.(table := t), attempt)
  }

  /** A record that carries no handshake fragment, in the epoch in use. */
  function SendOther(s: State, attempt: Attempt): (Ret, State)
    requires s.table.enc < |s.table.slots|
  {
    match attempt
    case NoRoom(wantWrite) => (if wantWrite then WantWrite else Failed, s)
    case Build(wire) => Emit(s, -1, Other, SendingEpoch(s.table) == 0, wire)
  }

  /** One record of application data, or an alert: early data goes out in its own epoch, everything else in the
      send epoch. */
  function SendData(s: State, early: bool, attempt: Attempt): (Ret, State)
    requires s.table.enc < |s.table.slots|
  {
    var (ok, t) := if early then UseKeys(s.table, DTLS13_EPOCH_EARLYDATA, EncryptOnly)
                   else SwitchTo(s.table, s.table.sendEpoch);
    if !ok then (BadState, s)
    else SendOther(s.(table := t), attempt)
  }

  /** The loop of Dtls13RtxSendBuffered from record i on. */
  function Retransmit(s: State, i: nat, plan: seq<Attempt>): (Ret, State)
    requires s.table.enc < |s.table.slots|
    decreases |s.rtx| - i
  {
    if i >= |s.rtx| then (Ok, s)
    else match FirstAttempt(plan)
      case NoRoom(wantWrite) => (if wantWrite then WantWrite else Failed, s)
      case Build(wire) =>
        var (ret, s1) := RetransmitOne(s, i, wire);
        if ret.Ok? then Retransmit(s1, i + 1, Rest(plan))
        else (ret, s1)
  }

  /** One turn of that loop: the keys of the record's epoch, then the record. */
  function RetransmitOne(s: State, i: nat, wire: Wire): (r: (Ret, State))
    requires s.table.enc < |s.table.slots| && i < |s.rtx|
    ensures r.1.table.enc < |r.1.table.slots| && |r.1.rtx| == |s.rtx|
  {
    var (ok, t) := SwitchTo(s.table, s.rtx[i].epoch);
    if ok then Resend(s.(table := t), i, wire) else (BadState, s)
  }

  /** The record goes out again; it tracks the new number, and moves to the end when it would block. */
  function Resend(s: State, i: nat, wire: Wire): (r: (Ret, State))
    requires s.table.enc < |s.table.slots| && i < |s.rtx|
    ensures r.1.table.enc < |r.1.table.slots| && |r.1.rtx| == |s.rtx|
  {
    var r := s.rtx[i];
    var (ret, s1) := Emit(s, r.id, Handshake(r.hsType, r.frag), !IsEncrypted(r.hsType), wire);
    if !ret.Queued() then (ret, s1)
    else
      var rs := s.rtx[i := r.(tracked := Track(r.tracked, s.rnSize, NextSeq(s.table)))];
      (ret, s1.(rtx := if ret.WantWrite? then MovedToEnd(rs, i) else rs))
  }

  // ----- received acknowledgements and key updates ---------------------------------------------

  /** Installing epoch n may throw out another one, in which records may have been sent. */
  function Retire(h: Trace, t: Table, n: word64): Trace {
    var i := SlotFor(t, n);
    if i >= 0 && Find(t.slots, n) < 0 && t.slots[i].isValid && t.slots[i].nextSeq > 0
    then h.Spend(t.slots[i].epochNumber) else h
  }

  /** Dtls13NewEpoch */
  function InstallEpoch(s: State, n: word64, side: Side): (Ret, State) {
    var (ok, t) := Install(s.table, n, side);
    (if ok then Ok else BadState,
     s.(table := t, trace := Retire(s.trace, s.table, n)))
  }

  /** Makes n the send epoch and switches to its keys, unless the number wrapped. */
  function MoveTo(s: State, n: word64): (Ret, State) {
    var t := s.table.(sendEpoch := n);
    if n == 0 then (BadState, s.(table := t))
    else
      var (ok, u) := UseKeys(t, n, EncryptOnly);
      (if ok then Ok else BadState, s.(table := u))
  }

  /** Dtls13KeyUpdateAckReceived; derived tells whether the new keys could be derived. */
  function KeyUpdateAcked(s: State, derived: bool): (Ret, State) {
    if !derived then (Failed, s)
    else
      var n := Increment64(s.table.sendEpoch);
      var (ret, s1) := InstallEpoch(s, n, EncryptOnly);
      if ret.Ok? then MoveTo(s1, n) else (ret, s1)
  }

  /** DoDtls13KeyUpdateAck */
  function CheckKeyUpdateAck(s: State, derived: bool): (Ret, State) {
    if HasKeyUpdate(s.rtx) then (Ok, s) else KeyUpdateAcked(s.(waitKeyUpdateAck := false), derived)
  }

  /** DoDtls13Ack on a well-formed message, from the first record number on. */
  function ReceiveAck(s: State, rns: seq<RecordNumber>, derived: bool): (Ret, State) {
    var s1 := s.(rtx := RemoveEach(s.rtx, rns));
    var (ret, s2) := if s1.waitKeyUpdateAck then CheckKeyUpdateAck(s1, derived) else (Ok, s1);
    if ret.Ok? && s2.rtx != [] then (ret, s2.(retransmit := true)) else (ret, s2)
  }

  // ----- runs --------------------------------------------------------------------------------------

  datatype Op =
    | InstallOp(n: word64, side: Side)
    | UseKeysOp(n: word64, side: Side)
    | AdoptSendEpoch(n: word64)
    | AdoptPeerEpoch(n: word64)
    | FinishHandshake
    | SendMessage(hsType: HandshakeType, body: seq<byte>, maxFrag: nat, wire: Wire, plan: seq<Attempt>)
    | ResumeMessage(maxFrag: nat, plan: seq<Attempt>)
    | SendAckOp(attempt: Attempt)
    | SendDataOp(early: bool, attempt: Attempt)
    | RetransmitOp(plan: seq<Attempt>)
    | AckReceived(rns: seq<RecordNumber>, derived: bool)
    | FlushOp(keepTickets: bool)
    | SaveClientHelloOp

  /** What the callers guarantee: fragments leave room for a payload byte, a message is resumed only
      while one is pending, and the send epoch is assigned directly only during the handshake. */
  predicate Enabled(s: State, op: Op) {
    match op
    case InstallOp(n, side) => !side.NoSide?
    case UseKeysOp(n, side) => !side.NoSide?
    case AdoptSendEpoch(n) => !s.table.handShakeDone
    case SendMessage(hsType, body, maxFrag, wire, plan) => maxFrag > HeadersLength(s.cidSize, hsType)
    case ResumeMessage(maxFrag, plan) =>
      s.buffer.Pending? && maxFrag > HeadersLength(s.cidSize, s.buffer.hsType)
    case _ => true
  }

  ghost predicate WellFormed(s: State) {
    && Valid(s.table)
    && (s.buffer.Pending? ==> s.buffer.offset <= |s.buffer.message|)
  }

  function Step(s: State, op: Op): (Ret, State)
    requires WellFormed(s) && Enabled(s, op)
  {
    match op
    case InstallOp(n, side) => InstallEpoch(s, n, side)
    case UseKeysOp(n, side) =>
      var (ok, t) := UseKeys(s.table, n, side);
      (if ok then Ok else BadState, s.(table := t))
    case AdoptSendEpoch(n) => (Ok, s.(table := s.table.(sendEpoch := n)))
    case AdoptPeerEpoch(n) => (Ok, s.(table := s.table.(peerEpoch := n)))
    case FinishHandshake => (Ok, s.(table := s.table.(handShakeDone := true)))
    case SendMessage(hsType, body, maxFrag, wire, plan) => HandshakeSend(s, hsType, body, maxFrag, wire, plan)
    case ResumeMessage(maxFrag, plan) => ContinueFragments(s, maxFrag, plan)
    case SendAckOp(attempt) => SendAck(s, attempt)
    case SendDataOp(early, attempt) => SendData(s, early, attempt)
    case RetransmitOp(plan) => Retransmit(s, 0, plan)
    case AckReceived(rns, derived) => ReceiveAck(s, rns, derived)
    case FlushOp(keepTickets) => (Ok, s.(rtx := Flushed(s.rtx, keepTickets)))
    case SaveClientHelloOp => (Ok, s.(rtx := WithoutFirst(s.rtx, (r: Rec) => r.hsType == CLIENT_HELLO)))
  }

  /** The state after InitSSL. */
  function Initial(epochs: nat, rnSize: nat, server: bool, cidSize: byte): State
    requires epochs > 0
  {
    State(Table(InitialSlots(epochs), 0, 0, 0, 0, false), [], 0, Idle, false, false, server, cidSize, rnSize,
          Trace([], map[], 0), Output([], []))
  }
}
