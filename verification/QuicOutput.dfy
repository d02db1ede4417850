/** The output side of QUIC: TLS records stripped as they are flushed, their payload passed on. */
module QuicOutput {
  import opened Words
  import opened QuicFraming

  /** What comes of a flush that has passed on some chunks already. */
  function Behind(chunks: seq<Chunk>, r: Sent): Sent { r.(chunks := chunks + r.chunks) }

  lemma NothingBehind(chunks: seq<Chunk>, r: Sent)
    ensures Behind([], r) == r
    ensures r.chunks == [] ==> Behind(chunks, r) == r.(chunks := chunks)
  {
    assert [] + r.chunks == r.chunks && chunks + [] == chunks;
  }

  lemma PayloadTurn(buf: seq<byte>, s: Sending, writeLevel: Level, handshakeDone: bool, accepts: nat -> bool, i: nat,
                    chunks: seq<Chunk>)
    requires buf != [] && s.remain > 0 && WellFormed(buf, s.remain)
    ensures var n := Min(s.remain, |buf|); var chunk := Chunk(s.level, buf[..n]); var t := s.(remain := s.remain - n);
      && WellFormed(buf[n..], t.remain)
      && Behind(chunks, Send(buf, s, writeLevel, handshakeDone, accepts, i))
         == if !accepts(i) then Sent.Sent(false, chunks + [chunk], s)
            else Behind(chunks + [chunk], Send(buf[n..], t, writeLevel, handshakeDone, accepts, i + 1))
  {
    var n := Min(s.remain, |buf|);
    Associative(chunks, [Chunk(s.level, buf[..n])],
                Send(buf[n..], s.(remain := s.remain - n), writeLevel, handshakeDone, accepts, i + 1).chunks);
  }

  lemma HeaderTurn(buf: seq<byte>, s: Sending, writeLevel: Level, handshakeDone: bool, accepts: nat -> bool, i: nat)
    requires buf != [] && s.remain == 0 && WellFormed(buf, 0)
    ensures |buf| >= RECORD_HEADER_SZ
    ensures var t := Sending(Ato16(buf[3..]), RecordLevel(buf[0], writeLevel));
      && WellFormed(buf[RECORD_HEADER_SZ..], t.remain)
      && Send(buf, s, writeLevel, handshakeDone, accepts, i)
         == if buf[0] == APPLICATION_DATA_TYPE && handshakeDone then Sent.Sent(false, [], t.(level := writeLevel))
            else Send(buf[RECORD_HEADER_SZ..], t, writeLevel, handshakeDone, accepts, i)
  {
  }

  lemma SendNothing(s: Sending, writeLevel: Level, handshakeDone: bool, accepts: nat -> bool, i: nat)
    ensures WellFormed([], s.remain) && Send([], s, writeLevel, handshakeDone, accepts, i) == Sent.Sent(true, [], s)
  {
  }

  class Forwarder {
    var recRemain: nat     // output_rec_remain
    var recLevel: Level    // output_rec_level
    var buffer: seq<byte>  // the output buffer from its index on
    ghost var passed: seq<Chunk>

    ghost function State(): Sending
      reads this
    {
      Sending(recRemain, recLevel)
    }

    constructor ()
      ensures State() == Sending(0, Initial) && buffer == [] && passed == []
    {
      recRemain, recLevel, buffer, passed := 0, Initial, [], [];
    }

    /** wolfSSL_quic_send_internal: the buffer is emptied unless the application or a late early data record fails. */
    method SendInternal(writeLevel: Level, handshakeDone: bool, accepts: nat -> bool) returns (ok: bool)
      requires WellFormed(buffer, recRemain)
      modifies this
      ensures var r := Send(old(buffer), old(State()), writeLevel, handshakeDone, accepts, 0);
        && ok == r.ok && State() == r.state && passed == old(passed) + r.chunks
        && buffer == if r.ok then [] else old(buffer)
    {
      hide Send, Behind, WellFormed;
      var output := buffer;
      var i := 0;
      NothingBehind([], Send(buffer, State(), writeLevel, handshakeDone, accepts, 0));
      ghost var chunks := [];
      ok := true;
      while output != []
        invariant WellFormed(output, recRemain) && passed == old(passed) + chunks && buffer == old(buffer)
        invariant Send(old(buffer), old(State()), writeLevel, handshakeDone, accepts, 0)
               == Behind(chunks, Send(output, State(), writeLevel, handshakeDone, accepts, i))
        decreases |output|
      {
        if recRemain > 0 {
          PayloadTurn(output, State(), writeLevel, handshakeDone, accepts, i, chunks);
          var len := Min(recRemain, |output|);
          var chunk := Chunk(recLevel, output[..len]);
          passed := passed + [chunk];
          if !accepts(i) {
            return false;
          }
          chunks := chunks + [chunk];
          output, recRemain, i := output[len..], recRemain - len, i + 1;
        } else {
          HeaderTurn(output, State(), writeLevel, handshakeDone, accepts, i);
          NothingBehind(chunks, Sent.Sent(false, [], Sending(Ato16(output[3..]), writeLevel)));
          recRemain, recLevel := Ato16(output[3..]), writeLevel;
          if output[0] == APPLICATION_DATA_TYPE {
            if handshakeDone {
              return false;
            }
            recLevel := EarlyData;
          }
          output := output[RECORD_HEADER_SZ..];
        }
      }
      SendNothing(State(), writeLevel, handshakeDone, accepts, i);
      NothingBehind(chunks, Sent.Sent(true, [], State()));
      buffer := [];
    }
  }
}
