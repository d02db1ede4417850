/** The receiving half of the handshake layer carried out in place: every method takes the object from one
    state of HandshakeSpec to the next. */
module HandshakeReceiver {
  import opened Words
  import opened RtxQueue
  import opened FragBuckets
  import opened HandshakeSpec
  import opened HandshakeProofs

  class Dtls13Receiver {
    var expected: word16
    var msgs: seq<Msg>
    var msgCount: nat  // dtls_rx_msg_list_sz
    ghost var log: seq<Handed>

    ghost predicate Valid()
      reads this
    {
      msgCount == |msgs| && AllApart(msgs)
    }

    ghost function State(): HandshakeSpec.State
      reads this
    {
      HandshakeSpec.State(expected, msgs, log)
    }

    constructor (start: word16)
      ensures Valid() && State() == Start(start)
    {
      expected, msgs, msgCount, log := start, [], 0, [];
    }

    /** Dtls13ProcessBufferedMessages */
    method ProcessBufferedMessages(plan: seq<Verdict>) returns (ret: Ret)
      requires Valid()
      modifies this
      ensures Valid() && (ret, State()) == ProcessBuffered(old(State()), plan)
    {
      hide Apart;
      var verdicts := plan;
      ret := Ok;
      while msgs != []
        invariant Valid() && ret == Ok
        invariant ProcessBuffered(old(State()), plan) == ProcessBuffered(State(), verdicts)
        decreases |msgs|
      {
        var msg, v := msgs[0], FirstVerdict(verdicts);
        if expected != msg.number || !msg.ready {
          break;
        }
        if !v.encryptionOk {
          return Unexpected;
        }
        log := log + [Handed(msg.number, msg.hsType, msg.body, true, v)];
        if Counts(msg.hsType, v) {
          expected := Increment16(expected);
          msgs := msgs[1..];
          msgCount := msgCount - 1;
        }
        if !v.result.Success? {
          return Handler(v.result);
        }
        verdicts := RestOf(verdicts);
      }
    }

    /** Dtls13NextMessageComplete */
    method NextMessageComplete() returns (b: bool)
      ensures b == NextComplete(State())
    {
      b := msgs != [] && msgs[0].ready && msgs[0].number == expected;
    }

    /** The end of _Dtls13HandshakeRecv: buffered messages follow if the next one is complete. */
    method ProcessNextMessages(plan: seq<Verdict>) returns (ret: Ret)
      requires Valid()
      modifies this
      ensures Valid() && (ret, State()) == ProcessNext(old(State()), plan)
    {
      hide ProcessBuffered, NextComplete;
      ret := Ok;
      var complete := NextMessageComplete();
      if complete {
        ret := ProcessBufferedMessages(plan);
      }
    }

    /** DtlsMsgStore, counting the messages kept. */
    method MsgStore(a: Arrival, hsType: HandshakeType, f: Fragment, junk: Junk)
      requires Valid()
      modifies this`msgs, this`msgCount
      ensures Valid() && State() == old(State()).(msgs := Store(old(msgs), a, hsType, f, junk))
    {
      StoreKeepsApart(msgs, a, hsType, f, junk);
      hide Insert, Received, AllApart, Assembled;
      var i := FindMsg(msgs, a.epoch, f.messageSeq);
      if i >= 0 {
        msgs := msgs[i := SetMsg(msgs[i], a, hsType, f, junk).1];
      } else {
        var (ok, msg) := SetMsg(NewMsg(f.length), a, hsType, f, junk);
        if ok {
          msgs := InsertMsg(msgs, msg);
          msgCount := msgCount + 1;
        }
      }
    }

    /** _Dtls13HandshakeRecv */
    method HandshakeRecv(a: Arrival, junk: Junk, plan: seq<Verdict>) returns (ret: Ret)
      requires Valid()
      modifies this
      ensures Valid() && (ret, State()) == Receive(old(State()), a, junk, plan)
    {
      hide ParseFragment, Store, ProcessNext;
      var (parsed, hsType, f) := ParseFragment(a.input);
      if parsed == ParseError {
        return parsed;
      }
      if !a.sane {
        return SanityError;
      }
      if parsed != Ok {
        return parsed;
      }
      if f.offset + |f.body| > f.length {
        return BufferError;
      }
      if f.messageSeq < expected {
        return Ok;
      }
      var isComplete := f.offset == 0 && |f.body| == f.length;
      if !isComplete && !a.acceptFragmented {
        return Ok;
      }
      if !isComplete || f.messageSeq > expected || a.asyncCrypto {
        if msgCount >= DTLS_POOL_SZ {
          return TooManyMessages;
        }
        MsgStore(a, hsType, f, junk);
        ret := ProcessNextMessages(plan);
        return;
      }
      var v := FirstVerdict(plan);
      log := log + [Handed(f.messageSeq, hsType, f.body, false, v)];
      if !v.result.Success? {
        return Handler(v.result);
      }
      expected := Increment16(expected);
      ret := ProcessNextMessages(RestOf(plan));
    }
  }
}
