/** TLS records around QUIC handshake messages: made when the TLS engine reads them, taken off again when it sends. */
module QuicFraming {
  import opened Words

  const RECORD_HEADER_SZ: nat := 5
  const MAX_RECORD_SIZE: nat := 16384
  const HANDSHAKE_TYPE: byte := 22
  const APPLICATION_DATA_TYPE: byte := 23

  datatype Level = Initial | EarlyData | Handshake | Application
  {
    function Rank(): nat {
      match this case Initial => 0 case EarlyData => 1 case Handshake => 2 case Application => 3
    }
  }

  function Concat(ms: seq<seq<byte>>): seq<byte> {
    if ms == [] then [] else ms[0] + Concat(ms[1..])
  }

  /** A queued record: its message, how much of it was read, and how much of the TLS record begun is to come. */
  datatype Queued = Queued(level: Level, bytes: seq<byte>, start: nat, remain: nat)

  function Unread(level: Level, ms: seq<seq<byte>>): (r: seq<Queued>)
    ensures |r| == |ms|
  {
    if ms == [] then [] else Unread(level, ms[..|ms| - 1]) + [Queued(level, ms[|ms| - 1], 0, 0)]
  }

  /** The order of the levels: a comes before b. */
  predicate Before(a: Level, b: Level) {
    match a
    case Initial => b != Initial
    case EarlyData => b == Handshake || b == Application
    case Handshake => b == Application
    case Application => false
  }

  /** The levels of the queued records never go back. */
  ghost predicate LevelsInOrder(held: seq<Queued>) {
    forall i, j :: 0 <= i < j < |held| ==> !Before(held[j].level, held[i].level)
  }

  /** What comes at a level that is not before the last one queues up in order. */
  lemma {:induction false} StaysInOrder(held: seq<Queued>, level: Level, ms: seq<seq<byte>>)
    requires LevelsInOrder(held) && (held != [] ==> !Before(level, held[|held| - 1].level))
    ensures LevelsInOrder(held + Unread(level, ms))
  {
    UnreadLevel(level, ms);
  }

  lemma {:induction false} UnreadLevel(level: Level, ms: seq<seq<byte>>)
    ensures forall i :: 0 <= i < |ms| ==> Unread(level, ms)[i].level == level
  {
    if ms != [] {
      UnreadLevel(level, ms[..|ms| - 1]);
    }
  }

  lemma UnreadGrows(level: Level, ms: seq<seq<byte>>, m: seq<byte>)
    ensures Unread(level, ms + [m]) == Unread(level, ms) + [Queued(level, m, 0, 0)]
  {
    assert (ms + [m])[..|ms|] == ms;
  }

  lemma NoneUnread(level: Level)
    ensures Unread(level, []) == []
  {
  }

  lemma {:induction false} UnreadConcat(level: Level, a: seq<seq<byte>>, b: seq<seq<byte>>)
    ensures Unread(level, a + b) == Unread(level, a) + Unread(level, b)
  {
    if b == [] {
      assert a + b == a;
    } else {
      assert (a + b)[..|a + b| - 1] == a + b[..|b| - 1];
      UnreadConcat(level, a, b[..|b| - 1]);
    }
  }

  // ----- reading: records in front of messages ---------------------------------------------------

  /** add_rec_header */
  function RecHeader(level: Level, length: nat): (h: seq<byte>)
    ensures |h| == RECORD_HEADER_SZ
  {
    [if level == EarlyData then APPLICATION_DATA_TYPE else HANDSHAKE_TYPE, 3, 3] + C16toa(length % 0x1_0000)
  }

  /** The length every TLS record of a message is announced with. */
  function RecLength(total: nat): nat { Min(total, MAX_RECORD_SIZE) }

  /** The TLS record being read: its header, unless that was given out, and how much of it is to come. */
  function Begun(q: Queued): (r: (seq<byte>, nat))
    ensures |r.0| <= RECORD_HEADER_SZ && (q.bytes != [] ==> r.1 > 0)
  {
    if q.remain == 0 then (RecHeader(q.level, RecLength(|q.bytes|)), RecLength(|q.bytes|)) else ([], q.remain)
  }

  ghost predicate Readable(q: Queued) { q.start < |q.bytes| }

  /** quic_record_transfer when there is room for at least a header: the bytes given out, and the record afterwards. */
  function Transfer(q: Queued, sz: nat): (r: (seq<byte>, Queued))
    requires Readable(q) && sz >= RECORD_HEADER_SZ
    ensures 0 < |r.0| <= sz
  {
    var (header, remain) := Begun(q);
    var n := Min(Min(|q.bytes| - q.start, remain), sz - |header|);
    (header + q.bytes[q.start..q.start + n], q.(start := q.start + n, remain := remain - n))
  }

  /** The queue after its first record was read from: a record read to the end is dropped. */
  function Advanced(queue: seq<Queued>, q: Queued): seq<Queued>
    requires queue != []
  {
    if q.start >= |q.bytes| then queue[1..] else [q] + queue[1..]
  }

  datatype Receipt = Receipt(out: seq<byte>, fatal: bool, queue: seq<Queued>)

  ghost predicate AllReadable(queue: seq<Queued>) {
    forall i :: 0 <= i < |queue| ==> Readable(queue[i])
  }

  /** The loop of wolfSSL_quic_receive: fatal when a record has bytes left and less than a header would fit. */
  function ReceiveAll(queue: seq<Queued>, sz: nat): Receipt
    requires AllReadable(queue)
    decreases sz
  {
    if sz == 0 || queue == [] then Receipt([], false, queue)
    else if sz < RECORD_HEADER_SZ then Receipt([], true, queue)
    else
      var (out, q) := Transfer(queue[0], sz);
      var r := ReceiveAll(Advanced(queue, q), sz - |out|);
      r.(out := out + r.out)
  }

  // ----- the stream of TLS records a queue stands for ------------------------------------------------

  /** TLS records around bytes of a message of the given total length. */
  function Frames(level: Level, bytes: seq<byte>, total: nat): seq<byte>
    requires |bytes| <= total
    decreases |bytes|
  {
    if bytes == [] then []
    else
      var n := Min(|bytes|, RecLength(total));
      RecHeader(level, RecLength(total)) + bytes[..n] + Frames(level, bytes[n..], total)
  }

  /** What is still to be read of a queued record ... */
  function Left(q: Queued): seq<byte>
    requires q.start <= |q.bytes|
  {
    var n := Min(q.remain, |q.bytes| - q.start);
    q.bytes[q.start..q.start + n] + Frames(q.level, q.bytes[q.start + n..], |q.bytes|)
  }

  /** ... and of the whole queue. */
  function Wire(queue: seq<Queued>): seq<byte>
    requires AllReadable(queue)
  {
    if queue == [] then [] else Left(queue[0]) + Wire(queue[1..])
  }

  /** How much of it belongs to the TLS record being read. */
  function PieceLength(q: Queued): nat
    requires Readable(q)
  {
    |Begun(q).0| + Min(|q.bytes| - q.start, Begun(q).1)
  }

  /** The stream left of a record begins with the piece of the TLS record being read. */
  lemma LeftBegins(q: Queued)
    requires Readable(q)
    ensures var (header, remain) := Begun(q); var k := Min(|q.bytes| - q.start, remain);
      Left(q) == header + q.bytes[q.start..q.start + k] + Frames(q.level, q.bytes[q.start + k..], |q.bytes|)
  {
    if q.remain == 0 {
      var all := q.bytes[q.start..];
      var k := Min(|all|, RecLength(|q.bytes|));
      assert all[..k] == q.bytes[q.start..q.start + k] && all[k..] == q.bytes[q.start + k..];
      assert q.bytes[q.start..q.start + 0] == [];
      hide RecHeader;
    }
  }

  lemma SliceJoin(m: seq<byte>, a: nat, b: nat, c: nat)
    requires a <= b <= c <= |m|
    ensures m[a..b] + m[b..c] == m[a..c]
  {
  }

  lemma TransferTakes(q: Queued, sz: nat)
    requires Readable(q) && sz >= RECORD_HEADER_SZ
    ensures var (out, u) := Transfer(q, sz);
      && u.start <= |u.bytes| && out + Left(u) == Left(q)
      && |out| == Min(sz, PieceLength(q))
  {
    hide Transfer, Left, Frames, Begun, PieceLength;
    var (header, remain) := Begun(q);
    var k := Min(|q.bytes| - q.start, remain);
    var n := Min(k, sz - |header|);
    TransferIs(q, sz, n);
    LeftBegins(q);
    LeftAfter(q, remain, k, n);
    var (out, u) := Transfer(q, sz);
    JoinTransfer(header, q.bytes, q.start, n, k, Frames(q.level, q.bytes[q.start + k..], |q.bytes|), out, Left(u),
                 Left(q));
  }

  lemma JoinTransfer(header: seq<byte>, bytes: seq<byte>, start: nat, n: nat, k: nat, after: seq<byte>,
                     out: seq<byte>, left: seq<byte>, all: seq<byte>)
    requires n <= k && start + k <= |bytes|
    requires out == header + bytes[start..start + n] && left == bytes[start + n..start + k] + after
    requires all == header + bytes[start..start + k] + after
    ensures out + left == all
  {
    SliceJoin(bytes, start, start + n, start + k);
    Regroup(header, bytes[start..start + n], bytes[start + n..start + k], after);
  }

  lemma TransferIs(q: Queued, sz: nat, n: nat)
    requires Readable(q) && sz >= RECORD_HEADER_SZ
    requires n == Min(Min(|q.bytes| - q.start, Begun(q).1), sz - |Begun(q).0|)
    ensures Transfer(q, sz) == (Begun(q).0 + q.bytes[q.start..q.start + n],
                                q.(start := q.start + n, remain := Begun(q).1 - n))
    ensures |Transfer(q, sz).0| == |Begun(q).0| + n == Min(sz, PieceLength(q))
  {
  }

  lemma LeftAfter(q: Queued, remain: nat, k: nat, n: nat)
    requires Readable(q) && k == Min(|q.bytes| - q.start, remain) && n <= k
    ensures Left(q.(start := q.start + n, remain := remain - n))
         == q.bytes[q.start + n..q.start + k] + Frames(q.level, q.bytes[q.start + k..], |q.bytes|)
  {
    hide Frames;
    assert Min(remain - n, |q.bytes| - (q.start + n)) == k - n;
  }

  lemma Regroup<T>(a: seq<T>, b: seq<T>, c: seq<T>, d: seq<T>)
    ensures (a + b) + (c + d) == a + (b + c) + d
    ensures (a + b) + (c + d) == a + (b + (c + d))
  {
  }

  lemma AdvancedWire(queue: seq<Queued>, u: Queued)
    requires AllReadable(queue) && queue != [] && u.start <= |u.bytes|
    ensures AllReadable(Advanced(queue, u)) && Wire(Advanced(queue, u)) == Left(u) + Wire(queue[1..])
  {
    assert ([u] + queue[1..])[1..] == queue[1..];
  }

  /** A read gives out the next bytes of the stream of TLS records and leaves the others. */
  lemma {:induction false} ReceiveTakes(queue: seq<Queued>, sz: nat)
    requires AllReadable(queue)
    ensures var r := ReceiveAll(queue, sz);
      && AllReadable(r.queue) && r.out + Wire(r.queue) == Wire(queue)
      && (!r.fatal ==> |r.out| == Min(sz, |Wire(queue)|))
    decreases sz
  {
    hide Transfer, Advanced, Left;
    if sz >= RECORD_HEADER_SZ && queue != [] {
      var (out, u) := Transfer(queue[0], sz);
      TransferTakes(queue[0], sz);
      AdvancedWire(queue, u);
      ReceiveTakes(Advanced(queue, u), sz - |out|);
      var r := ReceiveAll(Advanced(queue, u), sz - |out|);
      Regroup(out, r.out, Wire(r.queue), []);
      Regroup(out, Left(u), Wire(queue[1..]), []);
      assert Wire(r.queue) + [] == Wire(r.queue) && Wire(queue[1..]) + [] == Wire(queue[1..]);
    } else {
      assert [] + Wire(queue) == Wire(queue);
    }
  }

  /** Does a TLS record end b bytes into the stream, or b == 0 and nothing was read yet? */
  ghost predicate Boundary(queue: seq<Queued>, b: int)
    requires AllReadable(queue)
    decreases b
  {
    b == 0
    || (b > 0 && queue != [] && PieceLength(queue[0]) <= b
        && Boundary(AfterPiece(queue), b - PieceLength(queue[0])))
  }

  /** The queue once the TLS record being read is read to its end. */
  function AfterPiece(queue: seq<Queued>): (r: seq<Queued>)
    requires AllReadable(queue) && queue != []
    ensures AllReadable(r)
  {
    var q := queue[0];
    var n := Min(|q.bytes| - q.start, Begun(q).1);
    Advanced(queue, q.(start := q.start + n, remain := Begun(q).1 - n))
  }

  lemma PieceIsLeft(q: Queued)
    requires Readable(q)
    ensures 0 < PieceLength(q) <= |Left(q)|
  {
    LeftBegins(q);
  }

  /** A read that reaches past the end of the TLS record being read gives out all of it first. */
  lemma PassesPiece(queue: seq<Queued>, sz: nat)
    requires AllReadable(queue) && queue != [] && sz >= RECORD_HEADER_SZ && sz >= PieceLength(queue[0])
    ensures var (out, u) := Transfer(queue[0], sz);
      && |out| == PieceLength(queue[0]) && Advanced(queue, u) == AfterPiece(queue)
      && |Wire(queue)| == PieceLength(queue[0]) + |Wire(AfterPiece(queue))|
  {
    var (out, u) := Transfer(queue[0], sz);
    TransferTakes(queue[0], sz);
    AdvancedWire(queue, u);
    hide Left;
  }

  ghost predicate ShortBehind(queue: seq<Queued>, sz: nat, b: int)
    requires AllReadable(queue)
  {
    Boundary(queue, b) && b < |Wire(queue)| && 0 < sz - b < RECORD_HEADER_SZ
  }

  /** A read fails exactly when it would end less than a header after the end of a TLS record, with more to come;
      also where no header is due, at its own beginning. */
  lemma {:induction false} FatalExactly(queue: seq<Queued>, sz: nat)
    requires AllReadable(queue)
    ensures ReceiveAll(queue, sz).fatal <==> exists b :: ShortBehind(queue, sz, b)
    decreases sz
  {
    hide Transfer, Left, Advanced, PieceLength, AfterPiece;
    if sz > 0 && queue != [] {
      var p := PieceLength(queue[0]);
      PieceIsLeft(queue[0]);
      if sz < RECORD_HEADER_SZ {
        assert ShortBehind(queue, sz, 0);
      } else {
        TransferTakes(queue[0], sz);
        if p <= sz {
          PassesPiece(queue, sz);
          FatalExactly(AfterPiece(queue), sz - p);
          var after, left := AfterPiece(queue), sz - p;
          if b :| ShortBehind(after, left, b) {
            assert ShortBehind(queue, sz, b + p);
          }
          forall b | ShortBehind(queue, sz, b) ensures ShortBehind(AfterPiece(queue), sz - p, b - p) {
          }
        }
      }
    }
  }

  /** The bytes given out by successive reads, and the queue after them; a read that fails gives out nothing. */
  function ReadAll(queue: seq<Queued>, sizes: seq<nat>): (seq<byte>, seq<Queued>)
    requires AllReadable(queue)
    decreases |sizes|
  {
    if sizes == [] then ([], queue)
    else
      ReceiveTakes(queue, sizes[0]);
      var r := ReceiveAll(queue, sizes[0]);
      var (out, rest) := ReadAll(r.queue, sizes[1..]);
      ((if r.fatal then [] else r.out) + out, rest)
  }

  /** A read that fails has taken bytes off the stream exactly if it had room for a header. */
  lemma FailsWithNothing(queue: seq<Queued>, sz: nat)
    requires AllReadable(queue) && ReceiveAll(queue, sz).fatal
    ensures ReceiveAll(queue, sz).out == [] <==> sz < RECORD_HEADER_SZ
  {
    if sz >= RECORD_HEADER_SZ {
      TransferTakes(queue[0], sz);
      PieceIsLeft(queue[0]);
    }
  }

  /** No read with room for a header ends less than one behind a TLS record, with more to come. */
  ghost predicate LosesNothing(queue: seq<Queued>, sizes: seq<nat>)
    requires AllReadable(queue)
    decreases |sizes|
  {
    sizes == []
    || (ReceiveTakes(queue, sizes[0]);
        && (sizes[0] >= RECORD_HEADER_SZ ==> !exists b :: ShortBehind(queue, sizes[0], b))
        && LosesNothing(ReceiveAll(queue, sizes[0]).queue, sizes[1..]))
  }

  /** So a read loses what it has taken off the stream exactly if it has room for a header and ends so. */
  lemma LosesExactly(queue: seq<Queued>, sz: nat)
    requires AllReadable(queue)
    ensures var r := ReceiveAll(queue, sz);
      (r.fatal && r.out != []) <==> (sz >= RECORD_HEADER_SZ && exists b :: ShortBehind(queue, sz, b))
  {
    FatalExactly(queue, sz);
    if ReceiveAll(queue, sz).fatal {
      FailsWithNothing(queue, sz);
    }
  }

  /** However the reads are sized, together they give out the stream of TLS records and nothing else, if and only if
      none with room for a header ends less than one behind a TLS record. */
  lemma {:induction false} ReadsFollowTheWire(queue: seq<Queued>, sizes: seq<nat>)
    requires AllReadable(queue)
    ensures var (out, rest) := ReadAll(queue, sizes);
      && AllReadable(rest) && |out| + |Wire(rest)| <= |Wire(queue)|
      && (out + Wire(rest) == Wire(queue) <==> LosesNothing(queue, sizes))
    decreases |sizes|
  {
    hide ReceiveAll, ShortBehind;
    if sizes == [] {
      assert [] + Wire(queue) == Wire(queue);
    } else {
      ReceiveTakes(queue, sizes[0]);
      LosesExactly(queue, sizes[0]);
      var r := ReceiveAll(queue, sizes[0]);
      ReadsFollowTheWire(r.queue, sizes[1..]);
      var (out, rest) := ReadAll(r.queue, sizes[1..]);
      GivenOut(if r.fatal then [] else r.out, r.out, out, Wire(rest), Wire(r.queue));
    }
  }

  lemma GivenOut(given: seq<byte>, taken: seq<byte>, out: seq<byte>, rest: seq<byte>, wire: seq<byte>)
    requires given == taken || given == []
    requires |out| + |rest| <= |wire|
    ensures (given + out) + rest == taken + wire <==> given == taken && out + rest == wire
  {
    Regroup(given, out, rest, []);
    assert rest + [] == rest && (given + out) + rest == given + (out + rest);
    if (given + out) + rest == taken + wire {
      assert |given| == |taken|;
      assert out + rest == (given + (out + rest))[|given|..] && wire == (taken + wire)[|taken|..];
    }
  }

  // ----- sending: records taken off again -----------------------------------------------------------------

  /** How much of a TLS record is still to be forwarded, and at which level. */
  datatype Sending = Sending(remain: nat, level: Level)

  /** Bytes passed to add_handshake_data. */
  datatype Chunk = Chunk(level: Level, bytes: seq<byte>)

  datatype Sent = Sent(ok: bool, chunks: seq<Chunk>, state: Sending)

  /** The output buffer holds TLS records; only their payload may be split over flushes. */
  ghost predicate WellFormed(buf: seq<byte>, remain: nat)
    decreases |buf|
  {
    if buf == [] then true
    else if remain > 0 then WellFormed(buf[Min(remain, |buf|)..], remain - Min(remain, |buf|))
    else |buf| >= RECORD_HEADER_SZ && WellFormed(buf[RECORD_HEADER_SZ..], Ato16(buf[3..]))
  }

  /** The level of a record: protected ones are early data before the handshake is done, and an error after it. */
  function RecordLevel(first: byte, writeLevel: Level): Level {
    if first == APPLICATION_DATA_TYPE then EarlyData else writeLevel
  }

  /** wolfSSL_quic_send_internal; accepts tells whether the application takes the i-th chunk. */
  function Send(buf: seq<byte>, s: Sending, writeLevel: Level, handshakeDone: bool, accepts: nat -> bool, i: nat): Sent
    requires WellFormed(buf, s.remain)
    decreases |buf|
  {
    if buf == [] then Sent.Sent(true, [], s)
    else if s.remain > 0 then
      var n := Min(s.remain, |buf|);
      var chunk := Chunk(s.level, buf[..n]);
      if !accepts(i) then Sent.Sent(false, [chunk], s)
      else
        var r := Send(buf[n..], s.(remain := s.remain - n), writeLevel, handshakeDone, accepts, i + 1);
        r.(chunks := [chunk] + r.chunks)
    else
      var t := Sending(Ato16(buf[3..]), RecordLevel(buf[0], writeLevel));
      if buf[0] == APPLICATION_DATA_TYPE && handshakeDone then Sent.Sent(false, [], t.(level := writeLevel))
      else Send(buf[RECORD_HEADER_SZ..], t, writeLevel, handshakeDone, accepts, i)
  }

  /** The bytes of the chunks with their levels. */
  function Payload(chunks: seq<Chunk>): seq<(Level, byte)> {
    if chunks == [] then [] else Tagged(chunks[0].level, chunks[0].bytes) + Payload(chunks[1..])
  }

  function Tagged(level: Level, bytes: seq<byte>): (r: seq<(Level, byte)>)
    ensures |r| == |bytes|
  {
    seq(|bytes|, i requires 0 <= i < |bytes| => (level, bytes[i]))
  }

  /** The payload forwarded when the application takes everything, and what is left of a record. */
  function Forwarded(buf: seq<byte>, s: Sending, writeLevel: Level,
                     handshakeDone: bool): (bool, seq<(Level, byte)>, Sending)
    requires WellFormed(buf, s.remain)
  {
    var r := Send(buf, s, writeLevel, handshakeDone, (i: nat) => true, 0);
    (r.ok, Payload(r.chunks), r.state)
  }

  lemma {:induction false} SendFromAny(buf: seq<byte>, s: Sending, writeLevel: Level, handshakeDone: bool, i: nat,
                                       j: nat)
    requires WellFormed(buf, s.remain)
    ensures var all := (k: nat) => true;
      Send(buf, s, writeLevel, handshakeDone, all, i) == Send(buf, s, writeLevel, handshakeDone, all, j)
    decreases |buf|
  {
    if buf != [] {
      if s.remain > 0 {
        var n := Min(s.remain, |buf|);
        SendFromAny(buf[n..], s.(remain := s.remain - n), writeLevel, handshakeDone, i + 1, j + 1);
      } else {
        SendFromAny(buf[RECORD_HEADER_SZ..], Sending(Ato16(buf[3..]), RecordLevel(buf[0], writeLevel)),
                    writeLevel, handshakeDone, i, j);
      }
    }
  }

  /** Payload that continues a record goes out first, at the level of the record. */
  lemma ForwardsPayload(bytes: seq<byte>, rest: seq<byte>, s: Sending, writeLevel: Level, handshakeDone: bool)
    requires 0 < |bytes| <= s.remain && (rest == [] || |bytes| == s.remain) && WellFormed(rest, s.remain - |bytes|)
    ensures WellFormed(bytes + rest, s.remain)
    ensures var (ok, out, t) := Forwarded(rest, s.(remain := s.remain - |bytes|), writeLevel, handshakeDone);
      Forwarded(bytes + rest, s, writeLevel, handshakeDone) == (ok, Tagged(s.level, bytes) + out, t)
  {
    var buf := bytes + rest;
    var n := Min(s.remain, |buf|);
    assert buf[..n] == bytes && buf[n..] == rest;
    var u := s.(remain := s.remain - n);
    var all := (k: nat) => true;
    SendFromAny(rest, u, writeLevel, handshakeDone, 0, 1);
    var r := Send(rest, u, writeLevel, handshakeDone, all, 1);
    assert ([Chunk(s.level, bytes)] + r.chunks)[1..] == r.chunks;
  }

  /** A record header is taken off. */
  lemma ForwardsHeader(level: Level, length: nat, rest: seq<byte>, s: Sending, writeLevel: Level, handshakeDone: bool)
    requires s.remain == 0 && 0 < length < 0x1_0000 && WellFormed(rest, length)
      && (level == EarlyData ==> !handshakeDone)
    ensures WellFormed(RecHeader(level, length) + rest, 0)
    ensures Forwarded(RecHeader(level, length) + rest, s, writeLevel, handshakeDone)
         == Forwarded(rest, Sending(length, if level == EarlyData then EarlyData else writeLevel), writeLevel,
                      handshakeDone)
  {
    var buf := RecHeader(level, length) + rest;
    assert buf[RECORD_HEADER_SZ..] == rest && buf[3..] == C16toa(length) + rest;
    Ato16OfC16toa(length, rest);
  }

  lemma TaggedConcat(level: Level, a: seq<byte>, b: seq<byte>)
    ensures Tagged(level, a + b) == Tagged(level, a) + Tagged(level, b)
  {
  }

  lemma FirstFrame(level: Level, bytes: seq<byte>, total: nat, rest: seq<byte>)
    requires 0 < |bytes| <= total
    ensures var n := Min(|bytes|, RecLength(total));
      Frames(level, bytes, total) + rest
      == RecHeader(level, RecLength(total)) + (bytes[..n] + (Frames(level, bytes[n..], total) + rest))
  {
    var n := Min(|bytes|, RecLength(total));
    Regroup(RecHeader(level, RecLength(total)), bytes[..n], Frames(level, bytes[n..], total), rest);
  }

  lemma NothingToForward(s: Sending, writeLevel: Level, handshakeDone: bool)
    ensures WellFormed([], s.remain) && Forwarded([], s, writeLevel, handshakeDone) == (true, [], s)
  {
  }

  function ForwardLevel(level: Level, writeLevel: Level): Level { if level == EarlyData then EarlyData else writeLevel }

  /** What the TLS records around a message come to when they are sent, if the last of them is full: its bytes. */
  lemma {:induction false} FramesForward(level: Level, bytes: seq<byte>, total: nat, rest: seq<byte>, s: Sending,
                                         writeLevel: Level, handshakeDone: bool)
    requires s.remain == 0 && 0 < |bytes| <= total && WellFormed(rest, 0) && (level == EarlyData ==> !handshakeDone)
    requires if total <= MAX_RECORD_SIZE then |bytes| == total else |bytes| % MAX_RECORD_SIZE == 0
    ensures WellFormed(Frames(level, bytes, total) + rest, 0)
    ensures var l := ForwardLevel(level, writeLevel);
      var (ok, out, t) := Forwarded(rest, Sending(0, l), writeLevel, handshakeDone);
      Forwarded(Frames(level, bytes, total) + rest, s, writeLevel, handshakeDone) == (ok, Tagged(l, bytes) + out, t)
    decreases |bytes|
  {
    hide Forwarded, RecHeader, WellFormed;
    var l, length := ForwardLevel(level, writeLevel), RecLength(total);
    var now, later := bytes[..length], bytes[length..];
    var tail := Frames(level, later, total) + rest;
    assert bytes == now + later;
    TaggedConcat(l, now, later);
    FirstFrame(level, bytes, total, rest);
    if later != [] {
      FramesForward(level, later, total, rest, Sending(0, l), writeLevel, handshakeDone);
    } else {
      assert tail == rest && now == bytes;
    }
    hide Frames, Tagged, RecLength;
    var out := Forwarded(rest, Sending(0, l), writeLevel, handshakeDone).1;
    assert (Tagged(l, now) + Tagged(l, later)) + out == Tagged(l, now) + (Tagged(l, later) + out);
    assert later == [] ==> Tagged(l, bytes) == Tagged(l, now);
    ForwardsPayload(now, tail, Sending(length, l), writeLevel, handshakeDone);
    ForwardsHeader(level, length, now + tail, s, writeLevel, handshakeDone);
  }

  /** ... and if it announces more than the message has: its bytes, and a record that never ends. */
  lemma {:induction false} FramesOverrun(level: Level, bytes: seq<byte>, total: nat, s: Sending,
                                         writeLevel: Level, handshakeDone: bool)
    requires s.remain == 0 && 0 < |bytes| <= total && (level == EarlyData ==> !handshakeDone)
    requires total > MAX_RECORD_SIZE && |bytes| % MAX_RECORD_SIZE != 0
    ensures WellFormed(Frames(level, bytes, total), 0)
    ensures var l := ForwardLevel(level, writeLevel);
      Forwarded(Frames(level, bytes, total), s, writeLevel, handshakeDone)
      == (true, Tagged(l, bytes), Sending(MAX_RECORD_SIZE - |bytes| % MAX_RECORD_SIZE, l))
    decreases |bytes|
  {
    hide Forwarded, RecHeader, WellFormed;
    var l, length := ForwardLevel(level, writeLevel), RecLength(total);
    var n := Min(|bytes|, length);
    var now, later := bytes[..n], bytes[n..];
    var tail := Frames(level, later, total);
    assert bytes == now + later && tail + [] == tail && Frames(level, bytes, total) + [] == Frames(level, bytes, total);
    TaggedConcat(l, now, later);
    FirstFrame(level, bytes, total, []);
    if later != [] {
      FramesOverrun(level, later, total, Sending(0, l), writeLevel, handshakeDone);
    } else {
      assert tail == [] && now == bytes;
    }
    hide Frames, Tagged, RecLength;
    assert Tagged(l, now) + [] == Tagged(l, now);
    NothingToForward(Sending(length - n, l), writeLevel, handshakeDone);
    ForwardsPayload(now, tail, Sending(length, l), writeLevel, handshakeDone);
    ForwardsHeader(level, length, now + tail, s, writeLevel, handshakeDone);
  }

  /** Do the TLS records made of the message end where it ends? */
  predicate FramesExactly(m: seq<byte>) { |m| <= MAX_RECORD_SIZE || |m| % MAX_RECORD_SIZE == 0 }

  lemma LeftOfUnread(level: Level, m: seq<byte>)
    requires m != []
    ensures Left(Queued(level, m, 0, 0)) == Frames(level, m, |m|)
  {
    assert m[0..0] == [] && m[0..] == m;
  }

  /** A message survives framing and sending exactly when it fits one TLS record or fills all of its records:
      otherwise the last one announces more than comes, and would swallow what follows. */
  lemma FramingExactly(level: Level, m: seq<byte>, writeLevel: Level)
    requires m != []
    ensures WellFormed(Frames(level, m, |m|), 0)
    ensures var l := ForwardLevel(level, writeLevel);
      var (ok, out, t) := Forwarded(Frames(level, m, |m|), Sending(0, l), writeLevel, false);
      ok && out == Tagged(l, m) && (t.remain == 0 <==> FramesExactly(m))
  {
    var l := ForwardLevel(level, writeLevel);
    if FramesExactly(m) {
      NothingToForward(Sending(0, l), writeLevel, false);
      FramesForward(level, m, |m|, [], Sending(0, l), writeLevel, false);
      hide Frames, Forwarded, Tagged;
      assert Frames(level, m, |m|) + [] == Frames(level, m, |m|) && Tagged(l, m) + [] == Tagged(l, m);
    } else {
      FramesOverrun(level, m, |m|, Sending(0, l), writeLevel, false);
    }
  }

  lemma {:induction false} UnreadIsReadable(level: Level, ms: seq<seq<byte>>)
    requires forall i :: 0 <= i < |ms| ==> ms[i] != []
    ensures AllReadable(Unread(level, ms))
  {
    if ms != [] {
      UnreadIsReadable(level, ms[..|ms| - 1]);
    }
  }

  lemma UnreadFirst(level: Level, ms: seq<seq<byte>>)
    requires ms != []
    ensures Unread(level, ms) == [Queued(level, ms[0], 0, 0)] + Unread(level, ms[1..])
  {
    assert ms == [ms[0]] + ms[1..];
    UnreadConcat(level, [ms[0]], ms[1..]);
    UnreadGrows(level, [], ms[0]);
    assert [] + [ms[0]] == [ms[0]];
  }

  /** Sending the stream of TLS records of queued messages forwards exactly the messages, in order. */
  lemma {:induction false} WireForwards(level: Level, ms: seq<seq<byte>>, writeLevel: Level)
    requires forall i :: 0 <= i < |ms| ==> ms[i] != [] && FramesExactly(ms[i])
    ensures AllReadable(Unread(level, ms)) && WellFormed(Wire(Unread(level, ms)), 0)
    ensures var l := ForwardLevel(level, writeLevel);
      Forwarded(Wire(Unread(level, ms)), Sending(0, l), writeLevel, false)
      == (true, Tagged(l, Concat(ms)), Sending(0, l))
    decreases |ms|
  {
    UnreadIsReadable(level, ms);
    var l := ForwardLevel(level, writeLevel);
    if ms == [] {
      NothingToForward(Sending(0, l), writeLevel, false);
    } else {
      WireForwards(level, ms[1..], writeLevel);
      UnreadFirst(level, ms);
      var queue, tail := Unread(level, ms), Unread(level, ms[1..]);
      assert queue[1..] == tail && queue[0] == Queued(level, ms[0], 0, 0);
      LeftOfUnread(level, ms[0]);
      FramesForward(level, ms[0], |ms[0]|, Wire(tail), Sending(0, l), writeLevel, false);
      TaggedConcat(l, ms[0], Concat(ms[1..]));
    }
  }

  /** Messages read as TLS records, by reads of any sizes that lose nothing, and sent again are the messages. */
  lemma ReadAndSentAgain(level: Level, ms: seq<seq<byte>>, sizes: seq<nat>, writeLevel: Level)
    requires forall i :: 0 <= i < |ms| ==> ms[i] != [] && FramesExactly(ms[i])
    requires AllReadable(Unread(level, ms)) && ReadAll(Unread(level, ms), sizes).1 == []
    requires LosesNothing(Unread(level, ms), sizes)
    ensures var out, l := ReadAll(Unread(level, ms), sizes).0, ForwardLevel(level, writeLevel);
      && WellFormed(out, 0)
      && Forwarded(out, Sending(0, l), writeLevel, false) == (true, Tagged(l, Concat(ms)), Sending(0, l))
  {
    ReadsFollowTheWire(Unread(level, ms), sizes);
    WireForwards(level, ms, writeLevel);
    hide ReadAll, LosesNothing, Forwarded, WellFormed, Tagged, Concat, Unread;
    var out := ReadAll(Unread(level, ms), sizes).0;
    assert out + [] == out;
  }

  /** A record header as it stands in the buffer is taken off. */
  lemma ForwardsAnyHeader(buf: seq<byte>, s: Sending, writeLevel: Level, handshakeDone: bool)
    requires buf != [] && s.remain == 0 && WellFormed(buf, 0) && !(buf[0] == APPLICATION_DATA_TYPE && handshakeDone)
    ensures WellFormed(buf[RECORD_HEADER_SZ..], Ato16(buf[3..]))
    ensures Forwarded(buf, s, writeLevel, handshakeDone)
         == Forwarded(buf[RECORD_HEADER_SZ..], Sending(Ato16(buf[3..]), RecordLevel(buf[0], writeLevel)), writeLevel,
                      handshakeDone)
  {
  }

  /** Payload cut by a flush goes on where it was cut. */
  lemma PayloadResumes(a: seq<byte>, b: seq<byte>, s: Sending, writeLevel: Level, handshakeDone: bool)
    requires 0 < |a| < s.remain && WellFormed(b, s.remain - |a|)
    ensures WellFormed(a + b, s.remain)
    ensures var t := s.(remain := s.remain - |a|);
      var (ok, out, u) := Forwarded(b, t, writeLevel, handshakeDone);
      Forwarded(a + b, s, writeLevel, handshakeDone) == (ok, Tagged(s.level, a) + out, u)
  {
    hide Forwarded, Tagged;
    var t := s.(remain := s.remain - |a|);
    if b == [] {
      ForwardsPayload(a, b, s, writeLevel, handshakeDone);
    } else {
      var k := Min(t.remain, |b|);
      assert b == b[..k] + b[k..] && a + b == (a + b[..k]) + b[k..];
      ForwardsPayload(b[..k], b[k..], t, writeLevel, handshakeDone);
      ForwardsPayload(a + b[..k], b[k..], s, writeLevel, handshakeDone);
      TaggedConcat(s.level, a, b[..k]);
      var out := Forwarded(b[k..], t.(remain := t.remain - k), writeLevel, handshakeDone).1;
      assert (Tagged(s.level, a) + Tagged(s.level, b[..k])) + out
          == Tagged(s.level, a) + (Tagged(s.level, b[..k]) + out);
    }
  }

  /** Is flushing a and then b the same as flushing them at once? */
  ghost predicate Joins(a: seq<byte>, b: seq<byte>, s: Sending, writeLevel: Level, handshakeDone: bool)
    requires WellFormed(a, s.remain)
    requires var (ok, out, t) := Forwarded(a, s, writeLevel, handshakeDone); ok && WellFormed(b, t.remain)
  {
    var (ok, out, t) := Forwarded(a, s, writeLevel, handshakeDone);
    var (ok', out', t') := Forwarded(b, t, writeLevel, handshakeDone);
    WellFormed(a + b, s.remain) && Forwarded(a + b, s, writeLevel, handshakeDone) == (ok', out + out', t')
  }

  lemma NothingJoins(b: seq<byte>, s: Sending, writeLevel: Level, handshakeDone: bool)
    requires WellFormed(b, s.remain)
    ensures WellFormed([], s.remain) && Forwarded([], s, writeLevel, handshakeDone) == (true, [], s)
    ensures Joins([], b, s, writeLevel, handshakeDone)
  {
    NothingToForward(s, writeLevel, handshakeDone);
    hide Forwarded, WellFormed;
    assert [] + b == b;
    assert [] + Forwarded(b, s, writeLevel, handshakeDone).1 == Forwarded(b, s, writeLevel, handshakeDone).1;
  }

  lemma {:induction false} HeaderJoins(a: seq<byte>, b: seq<byte>, s: Sending, writeLevel: Level, handshakeDone: bool)
    requires a != [] && s.remain == 0 && WellFormed(a, 0)
    requires var (ok, out, t) := Forwarded(a, s, writeLevel, handshakeDone); ok && WellFormed(b, t.remain)
    ensures Joins(a, b, s, writeLevel, handshakeDone)
    decreases |a|, 0
  {
    ForwardsAnyHeader(a, s, writeLevel, handshakeDone);
    var u := Sending(Ato16(a[3..]), RecordLevel(a[0], writeLevel));
    FlushesDoNotMatter(a[RECORD_HEADER_SZ..], b, u, writeLevel, handshakeDone);
    assert (a + b)[RECORD_HEADER_SZ..] == a[RECORD_HEADER_SZ..] + b && Ato16((a + b)[3..]) == Ato16(a[3..]);
    assert (a + b)[0] == a[0] && WellFormed(a + b, 0);
    ForwardsAnyHeader(a + b, s, writeLevel, handshakeDone);
  }

  lemma PayloadJoins(a: seq<byte>, b: seq<byte>, s: Sending, writeLevel: Level, handshakeDone: bool)
    requires 0 < |a| < s.remain && WellFormed(b, s.remain - |a|)
    ensures WellFormed(a, s.remain)
    ensures Forwarded(a, s, writeLevel, handshakeDone) == (true, Tagged(s.level, a), s.(remain := s.remain - |a|))
    ensures Joins(a, b, s, writeLevel, handshakeDone)
  {
    NothingToForward(s.(remain := s.remain - |a|), writeLevel, handshakeDone);
    ForwardsPayload(a, [], s, writeLevel, handshakeDone);
    PayloadResumes(a, b, s, writeLevel, handshakeDone);
    assert a + [] == a && Tagged(s.level, a) + [] == Tagged(s.level, a);
  }

  lemma {:induction false} RestJoins(now: seq<byte>, later: seq<byte>, b: seq<byte>, s: Sending, writeLevel: Level,
                                     handshakeDone: bool)
    requires 0 < s.remain == |now| && WellFormed(later, 0) && WellFormed(now + later, s.remain)
    requires var (ok, out, t) := Forwarded(now + later, s, writeLevel, handshakeDone); ok && WellFormed(b, t.remain)
    ensures Joins(now + later, b, s, writeLevel, handshakeDone)
    decreases |now + later|, 0
  {
    hide Tagged, Forwarded, WellFormed;
    var u := s.(remain := 0);
    ForwardsPayload(now, later, s, writeLevel, handshakeDone);
    FlushesDoNotMatter(later, b, u, writeLevel, handshakeDone);
    ForwardsPayload(now, later + b, s, writeLevel, handshakeDone);
    var (ok, out, t) := Forwarded(later, u, writeLevel, handshakeDone);
    Associative(now, later, b);
    Associative(Tagged(s.level, now), out, Forwarded(b, t, writeLevel, handshakeDone).1);
  }

  lemma Associative<T>(a: seq<T>, b: seq<T>, c: seq<T>)
    ensures (a + b) + c == a + (b + c)
  {
  }

  /** However flushes cut the output into pieces, as long as no record header is cut, the same bytes are forwarded
      at the same levels. */
  lemma {:induction false} FlushesDoNotMatter(a: seq<byte>, b: seq<byte>, s: Sending, writeLevel: Level,
                                              handshakeDone: bool)
    requires WellFormed(a, s.remain)
    requires var (ok, out, t) := Forwarded(a, s, writeLevel, handshakeDone); ok && WellFormed(b, t.remain)
    ensures Joins(a, b, s, writeLevel, handshakeDone)
    decreases |a|, 1
  {
    hide Joins, Forwarded, WellFormed;
    if a == [] {
      NothingToForward(s, writeLevel, handshakeDone);
      NothingJoins(b, s, writeLevel, handshakeDone);
    } else if s.remain == 0 {
      HeaderJoins(a, b, s, writeLevel, handshakeDone);
    } else if |a| < s.remain {
      ForwardsAllOf(a, s, writeLevel, handshakeDone);
      PayloadJoins(a, b, s, writeLevel, handshakeDone);
    } else {
      var n := s.remain;
      RestIsWellFormed(a, n);
      RestJoins(a[..n], a[n..], b, s, writeLevel, handshakeDone);
    }
  }

  lemma RestIsWellFormed(a: seq<byte>, n: nat)
    requires 0 < n <= |a| && WellFormed(a, n)
    ensures a[..n] + a[n..] == a && WellFormed(a[n..], 0)
  {
  }

  lemma ForwardsAllOf(a: seq<byte>, s: Sending, writeLevel: Level, handshakeDone: bool)
    requires 0 < |a| < s.remain
    ensures WellFormed(a, s.remain)
    ensures Forwarded(a, s, writeLevel, handshakeDone).2 == s.(remain := s.remain - |a|)
  {
    NothingToForward(s.(remain := s.remain - |a|), writeLevel, handshakeDone);
    ForwardsPayload(a, [], s, writeLevel, handshakeDone);
    assert a + [] == a;
  }

  // ----- when forwarding stops ---------------------------------------------------------------------------------

  /** Is there the header of a record of application data in the buffer? */
  ghost predicate HoldsProtected(buf: seq<byte>, remain: nat)
    requires WellFormed(buf, remain)
    decreases |buf|
  {
    buf != []
    && if remain > 0 then HoldsProtected(buf[Min(remain, |buf|)..], remain - Min(remain, |buf|))
       else buf[0] == 23 || HoldsProtected(buf[RECORD_HEADER_SZ..], Ato16(buf[3..]))
  }

  /** If the application takes everything, sending fails exactly if the handshake is done and a record is protected. */
  lemma {:induction false} SendFailsExactly(buf: seq<byte>, s: Sending, writeLevel: Level, handshakeDone: bool, i: nat)
    requires WellFormed(buf, s.remain)
    ensures Send(buf, s, writeLevel, handshakeDone, (k: nat) => true, i).ok
       <==> !(handshakeDone && HoldsProtected(buf, s.remain))
    decreases |buf|
  {
    if buf != [] {
      if s.remain > 0 {
        var n := Min(s.remain, |buf|);
        SendFailsExactly(buf[n..], s.(remain := s.remain - n), writeLevel, handshakeDone, i + 1);
      } else {
        var t := Sending(Ato16(buf[3..]), RecordLevel(buf[0], writeLevel));
        SendFailsExactly(buf[RECORD_HEADER_SZ..], t, writeLevel, handshakeDone, i);
      }
    }
  }

  /** Otherwise it fails at the first chunk that the application does not take: up to that one it is given the same
      chunks, and none behind it. */
  lemma {:induction false} SendsUpToRefusal(buf: seq<byte>, s: Sending, writeLevel: Level, handshakeDone: bool,
                                            accepts: nat -> bool, i: nat)
    returns (k: nat)
    requires WellFormed(buf, s.remain)
    ensures var r := Send(buf, s, writeLevel, handshakeDone, accepts, i);
      var all := Send(buf, s, writeLevel, handshakeDone, (j: nat) => true, i);
      && k <= |all.chunks| && (forall j :: i <= j < i + k ==> accepts(j))
      && if k == |all.chunks| then r == all else !accepts(i + k) && !r.ok && r.chunks == all.chunks[..k + 1]
    decreases |buf|
  {
    k := 0;
    if buf != [] {
      if s.remain > 0 {
        if accepts(i) {
          var n := Min(s.remain, |buf|);
          k := SendsUpToRefusal(buf[n..], s.(remain := s.remain - n), writeLevel, handshakeDone, accepts, i + 1);
          k := k + 1;
        }
      } else if !(buf[0] == APPLICATION_DATA_TYPE && handshakeDone) {
        var t := Sending(Ato16(buf[3..]), RecordLevel(buf[0], writeLevel));
        k := SendsUpToRefusal(buf[RECORD_HEADER_SZ..], t, writeLevel, handshakeDone, accepts, i);
      }
    }
  }
}
