/** The receiving half of the DTLS 1.3 handshake layer as a state machine over values: fragments are stored,
    reassembled and handed over by message number. */
module HandshakeSpec {
  import opened Words
  import opened RtxQueue
  import opened FragBuckets

  const DTLS_POOL_SZ: nat := 20
  const DTLS_HANDSHAKE_HEADER_SZ: nat := 12
  const CERTIFICATE_REQUEST: HandshakeType := 13

  /** DtlsMsg: a message being put together, or complete. */
  datatype Msg = Msg(number: word16, epoch: word16, hsType: HandshakeType, size: nat, encrypted: bool,
                     buckets: seq<Bucket>, ready: bool, body: seq<byte>)

  /** How one hand-over of a message ends, and whether the handshake is done then. */
  datatype Result = Success | WantWrite | Pending | Failure

  datatype Verdict = Verdict(encryptionOk: bool, result: Result, handShakeDone: bool)

  datatype Ret =
    | Ok
    | ParseError
    | SanityError
    | IncompleteData
    | BufferError
    | TooManyMessages
    | Unexpected
    | Handler(result: Result)

  /** A message given to the handler, whether it came from the buffer, and what the handler answered. */
  datatype Handed = Handed(number: word16, hsType: HandshakeType, body: seq<byte>, buffered: bool, verdict: Verdict)

  datatype State = State(expected: word16, msgs: seq<Msg>, log: seq<Handed>)

  /** One received handshake record: its decrypted bytes, the epoch it came in, what the checks of type and epoch
      and the choice to accept fragments came to, and whether an asynchronous crypto device is in use. */
  datatype Arrival = Arrival(input: seq<byte>, epoch: word16, encrypted: bool, sane: bool, acceptFragmented: bool,
                             asyncCrypto: bool)

  // ----- the handshake header ------------------------------------------------------------------

  function C24(x: int): (b: seq<byte>)
    requires 0 <= x < 0x100_0000
    ensures |b| == 3
  {
    [x / 0x1_0000, x / 0x100 % 0x100, x % 0x100]
  }

  /** Dtls13HandshakeAddHeaderFrag, followed by the fragment. */
  function EncodeFragment(hsType: HandshakeType, f: Fragment): seq<byte>
    requires f.length < 0x100_0000 && f.offset < 0x100_0000 && |f.body| < 0x100_0000
  {
    [hsType] + C24(f.length) + C16toa(f.messageSeq) + C24(f.offset) + C24(|f.body|) + f.body
  }

  /** GetDtlsHandShakeHeader, and the check that the fragment is all there. */
  function ParseFragment(input: seq<byte>): (r: (Ret, HandshakeType, Fragment))
    ensures r.0 == Ok || r.0 == ParseError || r.0 == IncompleteData
  {
    if |input| < DTLS_HANDSHAKE_HEADER_SZ then (ParseError, NO_SHAKE, Fragment(0, 0, 0, []))
    else
      var n := Ato24(input[9..]);
      if DTLS_HANDSHAKE_HEADER_SZ + n > |input| then (IncompleteData, input[0], Fragment(Ato16(input[4..]), 0, 0, []))
      else (Ok, input[0], Fragment(Ato16(input[4..]), Ato24(input[1..]), Ato24(input[6..]),
                                   input[DTLS_HANDSHAKE_HEADER_SZ..DTLS_HANDSHAKE_HEADER_SZ + n]))
  }

  /** What one end puts before a fragment the other end reads back, whatever follows the fragment. */
  lemma FragmentRoundTrip(hsType: HandshakeType, f: Fragment, padding: seq<byte>)
    requires f.length < 0x100_0000 && f.offset < 0x100_0000 && |f.body| < 0x100_0000
    ensures ParseFragment(EncodeFragment(hsType, f) + padding) == (Ok, hsType, f)
  {
    var input := EncodeFragment(hsType, f) + padding;
    assert input[1..] == C24(f.length) + input[4..] && input[4..] == C16toa(f.messageSeq) + input[6..];
    assert input[6..] == C24(f.offset) + input[9..] && input[9..] == C24(|f.body|) + input[12..];
    Ato24OfC24(f.length, input[4..]);
    Ato16OfC16toa(f.messageSeq, input[6..]);
    Ato24OfC24(f.offset, input[9..]);
    Ato24OfC24(|f.body|, input[12..]);
    hide C24, C16toa, Ato24, Ato16;
    assert input[12..12 + |f.body|] == f.body;
  }

  lemma Ato24OfC24(x: int, tail: seq<byte>)
    requires 0 <= x < 0x100_0000
    ensures Ato24(C24(x) + tail) == x
  {
  }

  // ----- storing ---------------------------------------------------------------------------------

  /** DtlsMsgNew */
  function NewMsg(size: nat): Msg { Msg(0, 0, NO_SHAKE, size, false, [], false, []) }

  /** DtlsMsgSet: whether it succeeds, and the message afterwards. */
  function SetMsg(msg: Msg, a: Arrival, hsType: HandshakeType, f: Fragment, junk: Junk): (bool, Msg)
    requires Apart(msg.buckets)
  {
    if msg.size != f.length || f.offset + |f.body| > f.length then (false, msg)
    else if msg.ready then (true, msg)
    else if msg.hsType != NO_SHAKE && (msg.hsType != hsType || msg.epoch != a.epoch || msg.number != f.messageSeq) then
      (false, msg)
    else
      var known := if msg.hsType != NO_SHAKE then msg.(encrypted := msg.encrypted && a.encrypted)
                   else msg.(hsType := hsType, epoch := a.epoch, number := f.messageSeq, encrypted := a.encrypted);
      match Insert(msg.buckets, f.offset, f.body, junk)
      case TooManyFragments => (false, known)
      case Placed(buckets) => (true, Assembled(known.(buckets := buckets)))
  }

  /** DtlsMsgAssembleCompleteMessage, once as many bytes have come as the message is long. */
  function Assembled(msg: Msg): Msg {
    if Received(msg.buckets) == msg.size && |msg.buckets| == 1 && msg.buckets[0].offset == 0
       && |msg.buckets[0].buf| == msg.size
    then msg.(ready := true, body := msg.buckets[0].buf, buckets := [])
    else msg
  }

  /** DtlsMsgFind: -1 for NULL. */
  function FindMsg(msgs: seq<Msg>, epoch: word16, number: word16): (r: int)
    ensures -1 <= r < |msgs|
    ensures r >= 0 ==> msgs[r].epoch == epoch && msgs[r].number == number
  {
    if msgs == [] then -1
    else if msgs[0].epoch == epoch && msgs[0].number == number then 0
    else
      var r := FindMsg(msgs[1..], epoch, number);
      if r < 0 then -1 else r + 1
  }

  /** DtlsMsgInsert: before the first message whose epoch is not smaller and whose number is larger. */
  function InsertMsg(msgs: seq<Msg>, item: Msg): (r: seq<Msg>)
    ensures |r| == |msgs| + 1
  {
    if msgs == [] || (item.epoch <= msgs[0].epoch && item.number < msgs[0].number) then [item] + msgs
    else [msgs[0]] + InsertMsg(msgs[1..], item)
  }

  ghost predicate AllApart(msgs: seq<Msg>) {
    forall i :: 0 <= i < |msgs| ==> Apart(msgs[i].buckets)
  }

  /** DtlsMsgStore: data that cannot be placed is dropped. */
  function Store(msgs: seq<Msg>, a: Arrival, hsType: HandshakeType, f: Fragment, junk: Junk): (r: seq<Msg>)
    requires AllApart(msgs)
    ensures |r| <= |msgs| + 1
  {
    var i := FindMsg(msgs, a.epoch, f.messageSeq);
    if i >= 0 then msgs[i := SetMsg(msgs[i], a, hsType, f, junk).1]
    else
      var (ok, msg) := SetMsg(NewMsg(f.length), a, hsType, f, junk);
      if ok then InsertMsg(msgs, msg) else msgs
  }

  // ----- handing over --------------------------------------------------------------------------------

  function FirstVerdict(plan: seq<Verdict>): Verdict { if plan == [] then Verdict(true, Success, false) else plan[0] }

  function RestOf(plan: seq<Verdict>): seq<Verdict> { if plan == [] then [] else plan[1..] }

  /** Dtls13NextMessageComplete */
  predicate NextComplete(s: State) {
    s.msgs != [] && s.msgs[0].ready && s.msgs[0].number == s.expected
  }

  /** Does a buffered message count as processed? */
  predicate Counts(hsType: HandshakeType, v: Verdict) {
    v.result.Success? || v.result.WantWrite? || (hsType == CERTIFICATE_REQUEST && v.handShakeDone && v.result.Pending?)
  }

  /** One turn of the loop of Dtls13ProcessBufferedMessages, for a head that is in order and complete. */
  function HandOver(s: State, v: Verdict): (r: (Ret, State))
    requires NextComplete(s)
    ensures r.0.Ok? ==> |r.1.msgs| < |s.msgs|
  {
    var m := s.msgs[0];
    var s1 := s.(log := s.log + [Handed(m.number, m.hsType, m.body, true, v)]);
    if !v.encryptionOk then (Unexpected, s)
    else (if v.result.Success? then Ok else Handler(v.result),
          if Counts(m.hsType, v) then s1.(expected := Increment16(s.expected), msgs := s.msgs[1..]) else s1)
  }

  /** Dtls13ProcessBufferedMessages */
  function ProcessBuffered(s: State, plan: seq<Verdict>): (Ret, State)
    decreases |s.msgs|
  {
    if !NextComplete(s) then (Ok, s)
    else
      var (ret, s1) := HandOver(s, FirstVerdict(plan));
      if ret.Ok? then ProcessBuffered(s1, RestOf(plan)) else (ret, s1)
  }

  function ProcessNext(s: State, plan: seq<Verdict>): (Ret, State) {
    if NextComplete(s) then ProcessBuffered(s, plan) else (Ok, s)
  }

  /** A message that arrived complete and in order is handed over at once. */
  function HandDirectly(s: State, hsType: HandshakeType, f: Fragment, plan: seq<Verdict>): (Ret, State) {
    var v := FirstVerdict(plan);
    var s1 := s.(log := s.log + [Handed(f.messageSeq, hsType, f.body, false, v)]);
    if !v.result.Success? then (Handler(v.result), s1)
    else ProcessNext(s1.(expected := Increment16(s.expected)), RestOf(plan))
  }

  function StoreAndProcess(s: State, a: Arrival, hsType: HandshakeType, f: Fragment, junk: Junk,
                           plan: seq<Verdict>): (Ret, State)
    requires AllApart(s.msgs)
  {
    if |s.msgs| >= DTLS_POOL_SZ then (TooManyMessages, s)
    else ProcessNext(s.(msgs := Store(s.msgs, a, hsType, f, junk)), plan)
  }

  /** Is the whole message in the fragment? */
  predicate IsComplete(f: Fragment) { f.offset == 0 && |f.body| == f.length }

  /** The part of _Dtls13HandshakeRecv that follows the checks, on an end that keeps state. */
  function Dispatch(s: State, a: Arrival, hsType: HandshakeType, f: Fragment, junk: Junk,
                    plan: seq<Verdict>): (Ret, State)
    requires AllApart(s.msgs)
  {
    if f.offset + |f.body| > f.length then (BufferError, s)
    else if f.messageSeq < s.expected then (Ok, s)
    else if !IsComplete(f) && !a.acceptFragmented then (Ok, s)
    else if !IsComplete(f) || f.messageSeq > s.expected || a.asyncCrypto then
      StoreAndProcess(s, a, hsType, f, junk, plan)
    else HandDirectly(s, hsType, f, plan)
  }

  /** _Dtls13HandshakeRecv */
  function Receive(s: State, a: Arrival, junk: Junk, plan: seq<Verdict>): (Ret, State)
    requires AllApart(s.msgs)
  {
    var (ret, hsType, f) := ParseFragment(a.input);
    if ret == ParseError then (ret, s)
    else if !a.sane then (SanityError, s)
    else if ret != Ok then (ret, s)
    else Dispatch(s, a, hsType, f, junk, plan)
  }
}
