/** The sending half of the DTLS 1.3 engine carried out in place: every method takes the
    object from one state of SenderSpec to the next. */
module Sender {
  import opened Words
  import opened EpochTable
  import opened RtxQueue
  import opened AckMessage
  import opened SenderSpec

  class Dtls13Sender {
    const epochs: Epochs
    const list: RtxList
    const server: bool
    const cidSize: byte
    const rnSize: nat
    var hsNumber: word16
    var sendingFragments: bool
    var fragmentsBuffer: seq<byte>
    var fragHandshakeType: HandshakeType
    var fragOffset: nat
    var waitKeyUpdateAck: bool
    var retransmit: bool
    ghost var state: State  // the abstract state, with the history of the run

    /** The fields represent the abstract state. */
    ghost predicate Valid()
      reads this, epochs, epochs.slots, list, list.repr
    {
      && state.table.enc < |state.table.slots|
      && epochs.Represents() && list.Valid() && list.size == rnSize > 0
      && (sendingFragments ==> fragOffset <= |fragmentsBuffer|)
      && state == State(epochs.table, list.contents, hsNumber,
                        if sendingFragments then Pending(fragHandshakeType, fragmentsBuffer, fragOffset) else Idle,
                        waitKeyUpdateAck, retransmit, server, cidSize, rnSize, state.trace, state.output)
    }

    /** The state InitSSL sets up. */
    constructor (epochCount: nat, rnSize: nat, server: bool, cidSize: byte)
      requires epochCount > 0 && rnSize > 0
      ensures Valid() && state == Initial(epochCount, rnSize, server, cidSize)
      ensures fresh(epochs) && fresh(epochs.slots) && fresh(list) && list.repr == {}
    {
      epochs := new Epochs(epochCount);
      list := new RtxList(rnSize);
      this.server, this.cidSize, this.rnSize := server, cidSize, rnSize;
      hsNumber, sendingFragments, fragmentsBuffer, fragHandshakeType, fragOffset := 0, false, [], NO_SHAKE, 0;
      waitKeyUpdateAck, retransmit := false, false;
      state := Initial(epochCount, rnSize, server, cidSize);
    }

    /** Consumes one number of the sending epoch and reports how the record ended. */
    method SendRecord(ghost owner: int, ghost payload: Payload, plain: bool, wire: Wire) returns (ret: Ret)
      requires Valid()
      modifies this`state, epochs`table, epochs.slots
      ensures Valid() && (ret, state) == Emit(old(state), owner, payload, plain, wire)
    {
      hide RtxList.Valid;
      if wire == FailedEarly {
        return Failed;
      }
      var _, ok := epochs.GetSeq();
      ret := if plain && !ok then BadState else WireRet(wire);
      state := Emit(state, owner, payload, plain, wire).1;
    }

    /** Dtls13RtxNewRecord: the record tracks the number it is about to be sent with. */
    method NewRtxRecord(hsType: HandshakeType, frag: Fragment) returns (r: RtxRecord)
      requires Valid()
      ensures fresh(r) && r.Valid() && r.size == rnSize
      ensures r.Value() == Rec(state.trace.nextId, SendingEpoch(state.table), hsType, frag, [NextSeq(state.table)])
    {
      hide RtxList.Valid;
      r := new RtxRecord(state.trace.nextId, epochs.slots[epochs.enc].epochNumber, hsType, frag,
                         epochs.slots[epochs.enc].nextSeq, rnSize);
    }

    /** A record that joins the retransmission list once queued. */
    method SendTrackedRecord(hsType: HandshakeType, frag: Fragment, wire: Wire) returns (ret: Ret)
      requires Valid()
      modifies this`state, epochs`table, epochs.slots, list, list.repr`next
      ensures Valid() && (ret, state) == SendTracked(old(state), hsType, frag, wire)
      ensures fresh(list.repr - old(list.repr))
    {
      hide Emit, RtxList.Valid, Epochs.Represents, SendingEpoch, NextSeq, RtxRecord.Value, IsEncrypted;
      var r := NewRtxRecord(hsType, frag);
      ret := SendRecord(state.trace.nextId, Handshake(hsType, frag), !IsEncrypted(hsType), wire);
      if ret.Queued() {
        list.AddRecord(r);
      }
      state := SendTracked(old(state), hsType, frag, wire).1;
    }

    /** Dtls13SendOneFragmentRtx */
    method SendOneFragmentRtx(hsType: HandshakeType, frag: Fragment, wire: Wire) returns (ret: Ret)
      requires Valid()
      modifies this`state, epochs`table, epochs.slots, list, list.repr`next
      ensures Valid() && (ret, state) == SendOneFragment(old(state), hsType, frag, wire)
      ensures fresh(list.repr - old(list.repr))
    {
      hide Emit, SendTracked, RtxList.Valid, Epochs.Represents;
      if hsType == HELLO_RETRY_REQUEST {
        ret := SendRecord(-1, Handshake(hsType, frag), !IsEncrypted(hsType), wire);
      } else {
        ret := SendTrackedRecord(hsType, frag, wire);
      }
    }

    /** Switches to the keys of epoch n unless they are in use. */
    method SwitchEpoch(n: word64) returns (ok: bool)
      requires Valid()
      modifies this`state, epochs`table, epochs`enc, epochs`dec
      ensures Valid() && ok == SwitchTo(old(state.table), n).0
      ensures state == old(state).(table := SwitchTo(old(state.table), n).1) && (!ok ==> state == old(state))
    {
      ok := true;
      if epochs.slots[epochs.enc].epochNumber != n {
        ok := epochs.SetEpochKeys(n, EncryptOnly);
        state := state.(table := SwitchTo(state.table, n).1);
      }
    }

    /** The rest of a turn of the loop of Dtls13SendFragmentedInternal, once there is room for the record. */
    method BuildNextFragment(maxFrag: nat, wire: Wire) returns (ret: Ret)
      requires Valid() && sendingFragments && fragOffset < |fragmentsBuffer|
      requires maxFrag > HeadersLength(cidSize, fragHandshakeType)
      modifies this, epochs`table, epochs.slots, list, list.repr`next
      ensures Valid() && (ret, state) == FragmentTurn(old(state), maxFrag, Build(wire))
      ensures fresh(list.repr - old(list.repr))
    {
      hide SendOneFragment, Emit, Noted, RtxList.Valid, Epochs.Represents;
      var fragLength := maxFrag - HeadersLength(cidSize, fragHandshakeType);
      if fragLength > |fragmentsBuffer| - fragOffset {
        fragLength := |fragmentsBuffer| - fragOffset;
      }
      var f := Fragment(hsNumber, |fragmentsBuffer|, fragOffset, fragmentsBuffer[fragOffset..fragOffset + fragLength]);
      assert f == NextFragment(state, maxFrag);
      ret := SendOneFragmentRtx(fragHandshakeType, f, wire);
      if ret.Queued() {
        fragOffset := fragOffset + fragLength;
        state := state.(buffer := state.buffer.(offset := fragOffset), output := Noted(state.output, f));
      } else {
        sendingFragments := false;
        state := state.(buffer := Idle);
      }
    }

    /** One turn of that loop. */
    method SendNextFragment(maxFrag: nat, attempt: Attempt) returns (ret: Ret)
      requires Valid() && sendingFragments && fragOffset < |fragmentsBuffer|
      requires maxFrag > HeadersLength(cidSize, fragHandshakeType)
      modifies this, epochs`table, epochs.slots, list, list.repr`next
      ensures Valid() && (ret, state) == FragmentTurn(old(state), maxFrag, attempt)
      ensures fresh(list.repr - old(list.repr))
    {
      hide SendOneFragment, Emit, Noted, RtxList.Valid, Epochs.Represents;
      match attempt
      case NoRoom(wantWrite) =>
        sendingFragments := false;
        state := state.(buffer := Idle);
        ret := if wantWrite then WantWrite else Failed;
      case Build(wire) =>
        ret := BuildNextFragment(maxFrag, wire);
    }

    /** Dtls13SendFragmentedInternal */
    method SendFragmentedInternal(maxFrag: nat, plan: seq<Attempt>) returns (ret: Ret)
      requires Valid() && sendingFragments
      requires maxFrag > HeadersLength(cidSize, fragHandshakeType)
      modifies this, epochs`table, epochs.slots, list, list.repr`next
      ensures Valid() && (ret, state) == SendPending(old(state), maxFrag, plan)
      ensures fresh(list.repr - old(list.repr))
    {
      hide FragmentTurn, Emit, SendOneFragment, NextFragment, Noted, TakeSeq, RtxList.Valid, Epochs.Represents;
      var attempts := plan;
      ret := Ok;
      while ret.Ok? && fragOffset < |fragmentsBuffer|
        invariant Valid() && fresh(list.repr - old(list.repr))
        invariant ret.Ok? ==> SendsOn(old(state), state) && sendingFragments
        invariant SendPending(old(state), maxFrag, plan)
               == if ret.Ok? then SendPending(state, maxFrag, attempts) else (ret, state)
        decreases ret.Ok?, |fragmentsBuffer| - fragOffset
      {
        ret := SendNextFragment(maxFrag, FirstAttempt(attempts));
        attempts := Rest(attempts);
      }
      if ret.Ok? {
        sendingFragments := false;
        state := state.(buffer := Idle);
      }
    }

    /** Dtls13FragmentsContinue */
    method FragmentsContinue(maxFrag: nat, plan: seq<Attempt>) returns (ret: Ret)
      requires Valid() && sendingFragments
      requires maxFrag > HeadersLength(cidSize, fragHandshakeType)
      modifies this, epochs`table, epochs.slots, list, list.repr`next
      ensures Valid() && (ret, state) == ContinueFragments(old(state), maxFrag, plan)
      ensures fresh(list.repr - old(list.repr))
    {
      hide SendPending, RtxList.Valid, Epochs.Represents;
      ret := SendFragmentedInternal(maxFrag, plan);
      if ret.Ok? {
        hsNumber := Increment16(hsNumber);
        state := state.(hsNumber := hsNumber);
      }
    }

    /** The fragmented branch of Dtls13HandshakeSend. */
    method SendLongMessage(hsType: HandshakeType, body: seq<byte>, maxFrag: nat, plan: seq<Attempt>) returns (ret: Ret)
      requires Valid() && maxFrag > HeadersLength(cidSize, hsType)
      modifies this, epochs`table, epochs.slots, list, list.repr`next
      ensures Valid() && (ret, state) == SendFragmented(old(state), hsType, body, maxFrag, plan)
      ensures fresh(list.repr - old(list.repr))
    {
      hide ContinueFragments, SendPending, Accept, RtxList.Valid, Epochs.Represents;
      if sendingFragments {
        return BadState;
      }
      fragmentsBuffer, fragHandshakeType, fragOffset, sendingFragments := body, hsType, 0, true;
      state := TakenOn(state, hsType, body);
      ret := FragmentsContinue(maxFrag, plan);
    }

    /** The other branch. */
    method SendWholeMessage(hsType: HandshakeType, body: seq<byte>, wire: Wire) returns (ret: Ret)
      requires Valid()
      modifies this`state, this`hsNumber, epochs`table, epochs.slots, list, list.repr`next
      ensures Valid() && (ret, state) == SendWhole(old(state), hsType, body, wire)
      ensures fresh(list.repr - old(list.repr))
    {
      hide SendOneFragment, Emit, Accept, RtxList.Valid, Epochs.Represents;
      var f := Fragment(hsNumber, |body|, 0, body);
      ret := SendOneFragmentRtx(hsType, f, wire);
      if ret.Queued() {
        hsNumber := Increment16(hsNumber);
      }
      state := SendWhole(old(state), hsType, body, wire).1;
    }

    /** The choice Dtls13HandshakeSend makes by the length of the message. */
    method SendMessageBySize(hsType: HandshakeType, body: seq<byte>, maxFrag: nat, wire: Wire, plan: seq<Attempt>)
      returns (ret: Ret)
      requires Valid() && maxFrag > HeadersLength(cidSize, hsType)
      modifies this, epochs`table, epochs.slots, list, list.repr`next
      ensures Valid() && (ret, state) == SendBySize(old(state), hsType, body, maxFrag, wire, plan)
      ensures fresh(list.repr - old(list.repr))
    {
      hide SendWhole, SendFragmented, RtxList.Valid, Epochs.Represents;
      if HeadersLength(cidSize, hsType) + |body| < maxFrag {
        ret := SendWholeMessage(hsType, body, wire);
      } else {
        ret := SendLongMessage(hsType, body, maxFrag, plan);
      }
    }

    /** The part of Dtls13HandshakeSend that follows the switch to the send epoch. */
    method SendReadyMessage(hsType: HandshakeType, body: seq<byte>, maxFrag: nat, wire: Wire, plan: seq<Attempt>)
      returns (ret: Ret)
      requires Valid() && maxFrag > HeadersLength(cidSize, hsType)
      modifies this, epochs`table, epochs.slots, list, list.repr`next
      ensures Valid() && (ret, state) == SendReady(old(state), hsType, body, maxFrag, wire, plan)
      ensures fresh(list.repr - old(list.repr))
    {
      hide SendBySize, RtxList.Valid, Epochs.Represents;
      if hsType == KEY_UPDATE {
        waitKeyUpdateAck := true;
      }
      state := state.(waitKeyUpdateAck := state.waitKeyUpdateAck || hsType == KEY_UPDATE);
      ret := SendMessageBySize(hsType, body, maxFrag, wire, plan);
    }

    /** Dtls13HandshakeSend */
    method HandshakeSend(hsType: HandshakeType, body: seq<byte>, maxFrag: nat, wire: Wire, plan: seq<Attempt>)
      returns (ret: Ret)
      requires Valid() && maxFrag > HeadersLength(cidSize, hsType)
      modifies this, epochs`table, epochs`enc, epochs`dec, epochs.slots, list, list.repr`next
      ensures Valid() && (ret, state) == SenderSpec.HandshakeSend(old(state), hsType, body, maxFrag, wire, plan)
      ensures fresh(list.repr - old(list.repr))
    {
      hide SendReady, SwitchTo, RtxList.Valid;
      assert epochs.sendEpoch == state.table.sendEpoch;
      hide Epochs.Represents;
      var ok := SwitchEpoch(epochs.sendEpoch);
      if !ok {
        return BadState;
      }
      ret := SendReadyMessage(hsType, body, maxFrag, wire, plan);
    }

    /** The switch of SendDtls13Ack. */
    method SwitchForAck() returns (ok: bool)
      requires Valid()
      modifies this`state, epochs`table, epochs`enc, epochs`dec
      ensures Valid() && ok == SenderSpec.SwitchForAck(old(state)).0
      ensures state == old(state).(table := SenderSpec.SwitchForAck(old(state)).1) && (!ok ==> state == old(state))
    {
      hide UseKeys, SwitchTo, RtxList.Valid;
      if server && !epochs.handShakeDone && epochs.sendEpoch >= DTLS13_EPOCH_TRAFFIC0 {
        ok := epochs.SetEpochKeys(DTLS13_EPOCH_HANDSHAKE, EncryptOnly);
        state := state.(table := UseKeys(state.table, DTLS13_EPOCH_HANDSHAKE, EncryptOnly).1);
      } else {
        ok := SwitchEpoch(epochs.sendEpoch);
      }
    }

    /** A record that carries no handshake fragment, in the epoch in use. */
    method SendOtherRecord(attempt: Attempt) returns (ret: Ret)
      requires Valid()
      modifies this`state, epochs`table, epochs.slots
      ensures Valid() && (ret, state) == SendOther(old(state), attempt)
    {
      hide Emit, RtxList.Valid;
      match attempt
      case NoRoom(wantWrite) =>
        ret := if wantWrite then WantWrite else Failed;
      case Build(wire) =>
        ret := SendRecord(-1, Other, epochs.slots[epochs.enc].epochNumber == 0, wire);
    }

    /** SendDtls13Ack */
    method SendDtls13Ack(attempt: Attempt) returns (ret: Ret)
      requires Valid()
      modifies this`state, epochs`table, epochs`enc, epochs`dec, epochs.slots
      ensures Valid() && (ret, state) == SendAck(old(state), attempt)
    {
      hide SendOther, RtxList.Valid;
      var ok := SwitchForAck();
      if !ok {
        return BadState;
      }
      ret := SendOtherRecord(attempt);
    }

    /** The switch of SendData, or of an alert, and one record. */
    method SendData(early: bool, attempt: Attempt) returns (ret: Ret)
      requires Valid()
      modifies this`state, epochs`table, epochs`enc, epochs`dec, epochs.slots
      ensures Valid() && (ret, state) == SenderSpec.SendData(old(state), early, attempt)
    {
      hide SendOther, UseKeys, SwitchTo, RtxList.Valid;
      var ok;
      if early {
        ok := epochs.SetEpochKeys(DTLS13_EPOCH_EARLYDATA, EncryptOnly);
        state := state.(table := UseKeys(state.table, DTLS13_EPOCH_EARLYDATA, EncryptOnly).1);
      } else {
        ok := SwitchEpoch(epochs.sendEpoch);
      }
      if !ok {
        return BadState;
      }
      ret := SendOtherRecord(attempt);
    }

    /** Sends the record at k again in the epoch in use. */
    method ResendRecord(prevNext: Link, r: RtxRecord, ghost k: nat, wire: Wire) returns (ret: Ret)
      requires Valid() && k < |list.nodes| && list.nodes[k] == r && prevNext == list.LinkTo(k)
      modifies this`state, epochs`table, epochs.slots, list, list.repr
      ensures Valid() && (ret, state) == Resend(old(state), k, wire)
      ensures list.repr == old(list.repr) && (ret.Ok? ==> list.nodes == old(list.nodes))
    {
      hide Emit, MovedToEnd, Track;
      assert r.Value() == list.contents[k];
      hide RtxList.Valid, RtxList.LinkTo, RtxRecord.Valid, RtxRecord.Value;
      var seqNumber := epochs.slots[epochs.enc].nextSeq;
      assert seqNumber == NextSeq(state.table);
      hide Epochs.Represents, NextSeq;
      ret := SendRecord(r.id, Handshake(r.hsType, r.frag), !IsEncrypted(r.hsType), wire);
      if ret.Queued() {
        list.Resent(prevNext, r, k, seqNumber, ret.WantWrite?);
        state := state.(rtx := list.contents);
      }
    }

    /** One turn of the loop of Dtls13RtxSendBuffered, once there is room for the record. */
    method RetransmitRecord(prevNext: Link, r: RtxRecord, ghost k: nat, wire: Wire) returns (ret: Ret)
      requires Valid() && k < |list.nodes| && list.nodes[k] == r && prevNext == list.LinkTo(k)
      modifies this`state, epochs`table, epochs`enc, epochs`dec, epochs.slots, list, list.repr
      ensures Valid() && (ret, state) == RetransmitOne(old(state), k, wire)
      ensures list.repr == old(list.repr) && (ret.Ok? ==> list.nodes == old(list.nodes))
    {
      hide Resend, SwitchTo;
      assert r.Value() == list.contents[k];
      hide RtxList.Valid, RtxList.LinkTo;
      var ok := SwitchEpoch(r.epoch);
      if !ok {
        return BadState;
      }
      ret := ResendRecord(prevNext, r, k, wire);
    }

    /** The loop of Dtls13RtxSendBuffered */
    method RtxSendBuffered(plan: seq<Attempt>) returns (ret: Ret)
      requires Valid()
      modifies this`state, epochs`table, epochs`enc, epochs`dec, epochs.slots, list, list.repr
      ensures Valid() && (ret, state) == Retransmit(old(state), 0, plan)
      ensures list.repr == old(list.repr)
    {
      hide RetransmitOne, Epochs.Represents;
      var attempts := plan;
      var r, prevNext := list.head, HeadLink;
      ghost var k := 0;
      ret := Ok;
      while ret.Ok? && r != null
        invariant Valid() && list.repr == old(list.repr)
        invariant ret.Ok? ==> k <= |list.nodes| && r == list.Node(k) && prevNext == list.LinkTo(k)
        invariant Retransmit(old(state), 0, plan) == if ret.Ok? then Retransmit(state, k, attempts) else (ret, state)
        decreases ret.Ok?, |state.rtx| - k
      {
        match FirstAttempt(attempts) {
          case NoRoom(wantWrite) =>
            ret := if wantWrite then WantWrite else Failed;
          case Build(wire) =>
            ret := RetransmitRecord(prevNext, r, k, wire);
            prevNext, r, k := NextOf(r), r.next, k + 1;
        }
        attempts := Rest(attempts);
      }
    }

    /** Dtls13RtxFlushBuffered */
    method RtxFlushBuffered(keepNewSessionTicket: bool)
      requires Valid()
      modifies this`state, list, list.repr`next
      ensures Valid() && state == old(state).(rtx := Flushed(old(state).rtx, keepNewSessionTicket))
      ensures list.repr == old(list.repr)
    {
      hide Flushed, RtxList.Valid, Epochs.Represents;
      list.FlushBuffered(keepNewSessionTicket);
      state := state.(rtx := list.contents);
    }

    /** The loop of Dtls13MaybeSaveClientHello: the ClientHello is kept, but no longer sent again. */
    method MaybeSaveClientHello() returns (saved: RtxRecord?)
      requires Valid()
      modifies this`state, list, list.repr`next
      ensures Valid() && state == old(state).(rtx := WithoutFirst(old(state).rtx, (r: Rec) => r.hsType == CLIENT_HELLO))
      ensures saved != null ==> saved.hsType == CLIENT_HELLO && saved !in list.nodes
    {
      hide WithoutFirst, RtxList.Valid, Epochs.Represents;
      saved := list.SaveClientHello();
      state := state.(rtx := list.contents);
    }

    /** Dtls13NewEpoch */
    method NewEpoch(n: word64, side: Side) returns (ret: Ret)
      requires Valid() && EpochTable.Valid(state.table) && !side.NoSide?
      modifies this`state, epochs`table, epochs.slots
      ensures Valid() && (ret, state) == InstallEpoch(old(state), n, side)
    {
      hide Install, Retire, RtxList.Valid;
      var ok := epochs.NewEpoch(n, side);
      ret := if ok then Ok else BadState;
      state := InstallEpoch(state, n, side).1;
      InstallKeeps(old(state.table), n, side);
    }

    /** Makes n the send epoch and switches to its keys, unless the number wrapped. */
    method MoveToEpoch(n: word64) returns (ret: Ret)
      requires Valid()
      modifies this`state, epochs
      ensures epochs.slots == old(epochs.slots)
      ensures Valid() && (ret, state) == MoveTo(old(state), n)
    {
      hide UseKeys, RtxList.Valid;
      ret := BadState;
      epochs.sendEpoch := n;
      epochs.table := epochs.table.(sendEpoch := n);
      if n != 0 {
        var ok := epochs.SetEpochKeys(n, EncryptOnly);
        ret := if ok then Ok else BadState;
      }
      state := MoveTo(state, n).1;
    }

    /** Dtls13KeyUpdateAckReceived */
    method KeyUpdateAckReceived(derived: bool) returns (ret: Ret)
      requires Valid() && EpochTable.Valid(state.table)
      modifies this`state, epochs, epochs.slots
      ensures epochs.slots == old(epochs.slots)
      ensures Valid() && (ret, state) == KeyUpdateAcked(old(state), derived)
    {
      hide InstallEpoch, MoveTo, RtxList.Valid;
      assert epochs.sendEpoch == state.table.sendEpoch;
      hide Epochs.Represents;
      var n := Increment64(epochs.sendEpoch);
      if !derived {
        return Failed;
      }
      ret := NewEpoch(n, EncryptOnly);
      if ret.Ok? {
        ret := MoveToEpoch(n);
      }
    }

    /** The loop of DoDtls13Ack: every number in the list removes the record it names. */
    method RemoveAcked(numbers: seq<byte>)
      requires Valid() && |numbers| % DTLS13_RN_SIZE == 0
      modifies this`state, list, list.repr`next
      ensures Valid() && list.repr == old(list.repr)
      ensures state == old(state).(rtx := RemoveEach(old(state).rtx, DecodeNumbers(numbers)))
    {
      hide RtxList.Valid, Epochs.Represents, Ato64, DecodeNumbers, RemoveEach, WithoutFirst;
      var i := 0;
      assert numbers[0..] == numbers;
      while i < |numbers|
        invariant 0 <= i <= |numbers| && i % DTLS13_RN_SIZE == 0
        invariant Valid() && list.repr == old(list.repr)
        invariant state == old(state).(rtx := state.rtx)
        invariant RemoveEach(state.rtx, DecodeNumbers(numbers[i..]))
            == RemoveEach(old(state).rtx, DecodeNumbers(numbers))
      {
        RemoveDecoded(state.rtx, numbers[i..]);
        assert numbers[i..][DTLS13_RN_SIZE..] == numbers[i + DTLS13_RN_SIZE..];
        list.RemoveRecord(DecodeNumber(numbers[i..]));
        state := state.(rtx := list.contents);
        i := i + DTLS13_RN_SIZE;
      }
      NothingDecoded(state.rtx, numbers[i..]);
    }

    /** DoDtls13KeyUpdateAck */
    method DoDtls13KeyUpdateAck(derived: bool) returns (ret: Ret)
      requires Valid() && EpochTable.Valid(state.table)
      modifies this`state, this`waitKeyUpdateAck, epochs, epochs.slots
      ensures epochs.slots == old(epochs.slots)
      ensures Valid() && (ret, state) == CheckKeyUpdateAck(old(state), derived)
    {
      hide KeyUpdateAcked, HasKeyUpdate, RtxList.Valid, Epochs.Represents;
      var buffered := list.HasKeyUpdateBuffered();
      if buffered {
        return Ok;
      }
      waitKeyUpdateAck := false;
      state := state.(waitKeyUpdateAck := false);
      ret := KeyUpdateAckReceived(derived);
    }

    /** DoDtls13Ack on the record numbers of a well-formed message. */
    method ApplyAck(numbers: seq<byte>, derived: bool) returns (ret: Ret)
      requires Valid() && EpochTable.Valid(state.table) && |numbers| % DTLS13_RN_SIZE == 0
      modifies this`state, this`waitKeyUpdateAck, this`retransmit, epochs, epochs.slots, list, list.repr`next
      ensures Valid() && (ret, state) == ReceiveAck(old(state), DecodeNumbers(numbers), derived)
    {
      hide CheckKeyUpdateAck, RemoveEach, DecodeNumbers, RtxList.Valid, Epochs.Represents;
      RemoveAcked(numbers);
      ret := Ok;
      if waitKeyUpdateAck {
        ret := DoDtls13KeyUpdateAck(derived);
      }
      var empty := list.IsEmpty();
      if ret.Ok? && !empty {
        retransmit := true;
        state := state.(retransmit := true);
      }
    }

    /** DoDtls13Ack */
    method DoDtls13Ack(input: seq<byte>, derived: bool) returns (parsed: Parsed, ret: Ret)
      requires Valid() && EpochTable.Valid(state.table)
      modifies this`state, this`waitKeyUpdateAck, this`retransmit, epochs, epochs.slots, list, list.repr`next
      ensures Valid() && parsed == ParseAck(input)
      ensures if parsed.Acked? then (ret, state) == ReceiveAck(old(state), parsed.numbers, derived)
              else ret == Failed && state == old(state)
    {
      hide ReceiveAck, DecodeNumbers, RtxList.Valid, Epochs.Represents;
      if |input| < 2 {
        return BufferError, Failed;
      }
      var length := Ato16(input);
      if |input| < 2 + length {
        return BufferError, Failed;
      }
      if length % DTLS13_RN_SIZE != 0 {
        return ParseError, Failed;
      }
      ret := ApplyAck(input[2..2 + length], derived);
      parsed := Acked(DecodeNumbers(input[2..2 + length]), length + 2);
    }
  }

  lemma RemoveDecoded(rs: seq<Rec>, b: seq<byte>)
    requires |b| >= DTLS13_RN_SIZE
    ensures RemoveEach(rs, DecodeNumbers(b))
         == RemoveEach(WithoutFirst(rs, (r: Rec) => r.IsTrackedBy(DecodeNumber(b))), DecodeNumbers(b[DTLS13_RN_SIZE..]))
  {
    assert DecodeNumbers(b)[1..] == DecodeNumbers(b[DTLS13_RN_SIZE..]);
  }

  lemma NothingDecoded(rs: seq<Rec>, b: seq<byte>)
    requires |b| < DTLS13_RN_SIZE
    ensures RemoveEach(rs, DecodeNumbers(b)) == rs
  {
  }
}
