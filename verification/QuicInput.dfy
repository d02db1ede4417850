/** Handshake bytes from QUIC CRYPTO frames, cut into length-prefixed messages however they are chunked. */
module QuicInput {
  import opened Words
  import opened QuicFraming

  const WOLFSSL_QUIC_MAX_RECORD_CAPACITY: nat := 1048576
  const WOLFSSL_FATAL_ERROR: int := -1
  const WANT_READ: int := -323

  // ----- the split of a byte stream ----------------------------------------------------------

  /** qr_length: 0 while the length is not known. */
  function QrLength(data: seq<byte>): nat {
    if |data| < 4 then 0 else Ato24([data[1], data[2], data[3]]) + 4
  }

  /** The messages complete so far and the bytes of the next, or a length beyond the limit. */
  datatype Split = Split(messages: seq<seq<byte>>, rest: seq<byte>) | TooLong(messages: seq<seq<byte>>)

  function Prepend(ms: seq<seq<byte>>, s: Split): Split {
    match s
    case Split(ns, rest) => Split.Split(ms + ns, rest)
    case TooLong(ns) => TooLong(ms + ns)
  }

  function SplitStream(s: seq<byte>): Split
    decreases |s|
  {
    var n := QrLength(s);
    if n == 0 then Split.Split([], s)
    else if n > WOLFSSL_QUIC_MAX_RECORD_CAPACITY then TooLong([])
    else if |s| < n then Split.Split([], s)
    else Prepend([s[..n]], SplitStream(s[n..]))
  }

  /** The length of a handshake message with its header: a type, then 24 bits that tell how much follows. */
  function Announced(s: seq<byte>): nat
    requires |s| >= 4
  {
    4 + s[1] as int * 0x1_0000 + s[2] as int * 0x100 + s[3] as int
  }

  /** Could the bytes be the beginning of a message? */
  predicate Partial(s: seq<byte>) {
    |s| < 4 || |s| < Announced(s) <= WOLFSSL_QUIC_MAX_RECORD_CAPACITY
  }

  predicate IsMessage(m: seq<byte>) {
    4 <= |m| <= WOLFSSL_QUIC_MAX_RECORD_CAPACITY && |m| == Announced(m)
  }

  lemma PrependTwice(a: seq<seq<byte>>, b: seq<seq<byte>>, s: Split)
    ensures Prepend(a, Prepend(b, s)) == Prepend(a + b, s)
    ensures Prepend([], s) == s
  {
    assert (a + b) + s.messages == a + (b + s.messages);
  }

  /** The first message is cut off a stream whatever follows it. */
  lemma SplitFirst(m: seq<byte>, s: seq<byte>)
    requires IsMessage(m)
    ensures SplitStream(m + s) == Prepend([m], SplitStream(s))
  {
    assert QrLength(m + s) == QrLength(m);
    assert (m + s)[..|m|] == m && (m + s)[|m|..] == s;
  }

  lemma PartialStays(s: seq<byte>)
    requires Partial(s)
    ensures SplitStream(s) == Split.Split([], s)
  {
  }

  /** Cutting undoes concatenating ... */
  lemma {:induction false} SplitOfConcat(ms: seq<seq<byte>>, rest: seq<byte>)
    requires (forall i :: 0 <= i < |ms| ==> IsMessage(ms[i])) && Partial(rest)
    ensures SplitStream(Concat(ms) + rest) == Split.Split(ms, rest)
  {
    hide SplitStream, IsMessage, Partial;
    if ms == [] {
      PartialStays(rest);
      assert Concat(ms) + rest == rest;
    } else {
      SplitOfConcat(ms[1..], rest);
      SplitFirst(ms[0], Concat(ms[1..]) + rest);
      ConcatFirst(ms[0], ms[1..], rest);
      assert [ms[0]] + ms[1..] == ms;
    }
  }

  lemma ConcatFirst(m: seq<byte>, ms: seq<seq<byte>>, rest: seq<byte>)
    ensures Concat([m] + ms) + rest == m + (Concat(ms) + rest)
  {
    assert ([m] + ms)[1..] == ms;
  }

  /** ... and concatenating undoes cutting. */
  lemma {:induction false} ConcatOfSplit(s: seq<byte>)
    requires SplitStream(s).Split?
    ensures Concat(SplitStream(s).messages) + SplitStream(s).rest == s
    decreases |s|
  {
    var n := QrLength(s);
    if 0 < n <= |s| {
      ConcatOfSplit(s[n..]);
      ConcatFirst(s[..n], SplitStream(s[n..]).messages, SplitStream(s[n..]).rest);
    }
  }

  lemma {:induction false} SplitIntoMessages(s: seq<byte>, i: nat)
    requires i < |SplitStream(s).messages|
    ensures IsMessage(SplitStream(s).messages[i])
    decreases |s|
  {
    var n := QrLength(s);
    if i > 0 {
      SplitIntoMessages(s[n..], i - 1);
    } else {
      assert QrLength(s[..n]) == n;
    }
  }

  lemma {:induction false} RestIsPartial(s: seq<byte>)
    requires SplitStream(s).Split?
    ensures Partial(SplitStream(s).rest)
    decreases |s|
  {
    var n := QrLength(s);
    if 0 < n <= |s| {
      RestIsPartial(s[n..]);
    }
  }

  /** The split of a stream depends only on its bytes: it can be taken up from what the first part leaves. */
  lemma {:induction false} SplitResumes(a: seq<byte>, b: seq<byte>)
    ensures match SplitStream(a)
      case Split(ms, rest) => SplitStream(a + b) == Prepend(ms, SplitStream(rest + b))
      case TooLong(ms) => SplitStream(a + b) == TooLong(ms)
    decreases |a|
  {
    var n := QrLength(a);
    assert n > 0 ==> QrLength(a + b) == n;
    if 0 < n <= |a| && n <= WOLFSSL_QUIC_MAX_RECORD_CAPACITY {
      var m, rest := a[..n], a[n..];
      assert a == m + rest && a + b == m + (rest + b) && QrLength(m) == n;
      hide SplitStream, QrLength;
      SplitFirst(m, rest);
      SplitFirst(m, rest + b);
      SplitResumes(rest, b);
      if SplitStream(rest).Split? {
        PrependTwice([m], SplitStream(rest).messages, SplitStream(SplitStream(rest).rest + b));
      }
    } else {
      PrependTwice([], [], SplitStream(a + b));
    }
  }

  /** What comes of chunks provided one after the other, starting with the bytes p of a message. */
  function FeedAll(p: seq<byte>, chunks: seq<seq<byte>>): Split
    decreases |chunks|
  {
    if chunks == [] then Split.Split([], p)
    else
      match SplitStream(p + chunks[0])
      case Split(ms, rest) => Prepend(ms, FeedAll(rest, chunks[1..]))
      case TooLong(ms) => TooLong(ms)
  }

  /** However a stream is chunked, the messages, the bytes left over and the verdict on its lengths are the same. */
  lemma {:induction false} ChunkingDoesNotMatter(p: seq<byte>, chunks: seq<seq<byte>>)
    requires Partial(p)
    ensures FeedAll(p, chunks) == SplitStream(p + Concat(chunks))
    decreases |chunks|
  {
    hide SplitStream, Partial, Prepend;
    if chunks == [] {
      PartialStays(p);
      assert p + Concat(chunks) == p;
    } else {
      var tail := Concat(chunks[1..]);
      assert p + Concat(chunks) == (p + chunks[0]) + tail;
      SplitResumes(p + chunks[0], tail);
      if SplitStream(p + chunks[0]).Split? {
        RestIsPartial(p + chunks[0]);
        ChunkingDoesNotMatter(SplitStream(p + chunks[0]).rest, chunks[1..]);
      }
    }
  }

  // ----- records filled in place ------------------------------------------------------------------

  /** What is allocated for a record as long as its length is not known. */
  const FIRST_CAPACITY: nat := 2 * 1024

  class QuicRecord {
    const level: Level
    var data: seq<byte>  // as many bytes as were allocated
    var len: nat         // 0 while the length is not known
    var start: nat
    var end: nat
    var recHdrRemain: nat

    ghost predicate Valid()
      reads this
    {
      && start <= end <= |data|
      && (if len == 0 then end < 4 && |data| == FIRST_CAPACITY else end <= len <= |data|)
    }

    /** The length told by the first four bytes is beyond the limit, and no room was made for it. */
    ghost predicate Overlong()
      reads this
    {
      start <= end <= |data| == FIRST_CAPACITY && 4 <= end && len > WOLFSSL_QUIC_MAX_RECORD_CAPACITY
    }

    /** Where XMEMCPY in quic_record_append stops when the length is known. */
    function CopyEnd(bytes: seq<byte>): int
      reads this
    {
      end + Min(len - end, |bytes|)
    }

    ghost function Bytes(): seq<byte>
      reads this
      requires end <= |data|
    {
      data[..end]
    }

    ghost function Value(): Queued
      reads this
      requires end <= |data|
    {
      Queued(level, data[..end], start, recHdrRemain)
    }

    /** quic_record_complete */
    predicate Complete()
      reads this
    {
      len != 0 && end >= len
    }

    /** quic_record_make, once the length is known to be within the limit. */
    constructor (level: Level, len: nat)
      ensures Valid() && this.level == level && this.len == len && start == end == recHdrRemain == 0
    {
      this.level, this.len, start, end, recHdrRemain := level, len, 0, 0, 0;
      data := seq(if len == 0 then FIRST_CAPACITY else len, i => 0);
    }

    /** XMEMCPY of the given bytes behind those received. */
    method Fill(bytes: seq<byte>)
      requires end + |bytes| <= |data|
      modifies this`data, this`end
      ensures |data| == old(|data|) && end == old(end) + |bytes| && data[..end] == old(data[..end]) + bytes
    {
      data := data[..end] + bytes + data[end + |bytes|..];
      end := end + |bytes|;
    }

    /** The part of quic_record_append that completes the four bytes which tell the length. */
    method FillHeader(bytes: seq<byte>) returns (ok: bool, consumed: nat)
      requires Valid() && len == 0 && bytes != []
      modifies this
      ensures start == old(start) && recHdrRemain == old(recHdrRemain)
      ensures 0 < consumed <= |bytes| && end <= |data| && Bytes() == old(Bytes()) + bytes[..consumed]
      ensures ok <==> QrLength(old(Bytes()) + bytes) <= WOLFSSL_QUIC_MAX_RECORD_CAPACITY
      ensures len == QrLength(old(Bytes()) + bytes) && (len != 0 ==> end == 4) && (len == 0 ==> consumed == |bytes|)
      ensures if ok then Valid() else Overlong() && end == 4 && start == old(start)
    {
      var missing := 4 - end;
      if |bytes| < missing {
        Fill(bytes);
        return true, |bytes|;
      }
      Fill(bytes[..missing]);
      len := QrLength(data[..end]);
      ok, consumed := len <= WOLFSSL_QUIC_MAX_RECORD_CAPACITY, missing;
      if ok && len > |data| {
        data := data + seq<byte>(len - |data|, i => 0);
      }
    }

    /** quic_record_append: takes as much as the message still needs.  Nothing counts as consumed when the
        length turns out to be beyond the limit; a record left so would go on to take whatever comes, which its buffer
        has room for only up to its first capacity. */
    method Append(bytes: seq<byte>) returns (ok: bool, consumed: nat)
      requires bytes != []
      requires (Valid() && !Complete()) || (Overlong() && CopyEnd(bytes) <= |data|)
      modifies this
      ensures start == old(start) && recHdrRemain == old(recHdrRemain) && consumed <= |bytes|
      ensures old(Valid()) ==>
        && (ok <==> old(len) != 0 || QrLength(old(Bytes()) + bytes) <= WOLFSSL_QUIC_MAX_RECORD_CAPACITY)
        && len == (if old(len) != 0 then old(len) else QrLength(old(Bytes()) + bytes))
        && (if ok then
              && Valid() && 0 < consumed <= |bytes| && Bytes() == old(Bytes()) + bytes[..consumed]
              && (Complete() || consumed == |bytes|)
            else Overlong() && end == 4 && Bytes() == (old(Bytes()) + bytes)[..4])
      ensures old(Overlong()) ==> ok && Overlong() && consumed == |bytes| && Bytes() == old(Bytes()) + bytes
    {
      ok, consumed := true, 0;
      if len == 0 {
        ok, consumed := FillHeader(bytes);
        if !ok {
          return false, 0;
        }
      }
      if !Complete() && consumed < |bytes| {
        var n := Min(len - end, |bytes| - consumed);
        Fill(bytes[consumed..consumed + n]);
        consumed := consumed + n;
      }
    }

    /** What a record of a length beyond the limit takes stays within its buffer exactly if it has as much room; any
        other record keeps within its buffer anyway. */
    lemma CopyFits(bytes: seq<byte>)
      requires Valid() || Overlong()
      ensures Overlong() ==> (CopyEnd(bytes) <= |data| <==> |bytes| <= FIRST_CAPACITY - end)
      ensures Valid() && len != 0 ==> CopyEnd(bytes) <= |data|
    {
    }

    /** Starts a TLS record unless one is begun. */
    method BeginRecord(buf: array<byte>, at: nat) returns (offset: nat)
      requires Valid() && Complete() && Readable(Value()) && at + RECORD_HEADER_SZ <= buf.Length
      modifies this`recHdrRemain, buf
      ensures Valid() && Complete()
      ensures Value() == old(Value()).(remain := Begun(old(Value())).1)
      ensures offset == |Begun(old(Value())).0|
      ensures buf[..] == old(buf[..at]) + Begun(old(Value())).0 + old(buf[at + offset..])
    {
      hide RecHeader;
      offset := 0;
      if recHdrRemain == 0 {
        recHdrRemain := if len <= MAX_RECORD_SIZE then len else MAX_RECORD_SIZE;
        Copy(buf, at, RecHeader(level, recHdrRemain));
        offset := RECORD_HEADER_SZ;
      }
    }

    /** quic_record_transfer: -1 when there is less room than a header takes. */
    method TransferTo(buf: array<byte>, at: nat, sz: nat) returns (n: int)
      requires Valid() && Complete() && Readable(Value()) && at + sz <= buf.Length
      modifies this, buf
      ensures Valid() && Complete()
      ensures sz < RECORD_HEADER_SZ ==> n == -1 && Value() == old(Value()) && buf[..] == old(buf[..])
      ensures sz >= RECORD_HEADER_SZ ==>
        var (out, q) := Transfer(old(Value()), sz);
        n == |out| && Value() == q && buf[..] == old(buf[..at]) + out + old(buf[at + n..])
    {
      hide Begun, Transfer, PieceLength;
      if sz < RECORD_HEADER_SZ {
        return -1;
      }
      ghost var q := Value();
      ghost var a := buf[..];
      var offset := BeginRecord(buf, at);
      ghost var b := buf[..];
      var take := Min(Min(end - start, recHdrRemain), sz - offset);
      TransferIs(q, sz, take);
      PutPayload(buf, at + offset, take);
      CopiedTwice(a, b, buf[..], at, Begun(q).0, q.bytes[q.start..q.start + take], offset, take);
      n := offset + take;
    }

    method PutPayload(buf: array<byte>, at: nat, take: nat)
      requires Valid() && Complete() && start + take <= end && take <= recHdrRemain && at + take <= buf.Length
      modifies this`start, this`recHdrRemain, buf
      ensures Valid() && Complete()
      ensures Value() == old(Value()).(start := old(start) + take, remain := old(recHdrRemain) - take)
      ensures buf[..] == old(buf[..at]) + old(Value().bytes[start..start + take]) + old(buf[at + take..])
    {
      assert Value().bytes == data[..end] && data[..end][start..start + take] == data[start..start + take];
      Copy(buf, at, data[start..start + take]);
      start, recHdrRemain := start + take, recHdrRemain - take;
    }
  }

  /** What comes of a read that has given out some bytes already. */
  function Behind(given: seq<byte>, r: Receipt): Receipt { r.(out := given + r.out) }

  lemma ReceiveTurn(queue: seq<Queued>, sz: nat, given: seq<byte>)
    requires AllReadable(queue) && queue != [] && sz >= RECORD_HEADER_SZ
    ensures var (out, q) := Transfer(queue[0], sz);
      && 0 < |out| <= sz && AllReadable(Advanced(queue, q))
      && Behind(given, ReceiveAll(queue, sz)) == Behind(given + out, ReceiveAll(Advanced(queue, q), sz - |out|))
  {
    var (out, q) := Transfer(queue[0], sz);
    TransferTakes(queue[0], sz);
    AdvancedWire(queue, q);
    Associative(given, out, ReceiveAll(Advanced(queue, q), sz - |out|).out);
  }

  lemma NothingGiven(r: Receipt)
    ensures Behind([], r) == r
  {
    assert [] + r.out == r.out;
  }

  lemma ReceiveEnds(queue: seq<Queued>, sz: nat, given: seq<byte>)
    requires AllReadable(queue)
    ensures sz == 0 || queue == [] ==> Behind(given, ReceiveAll(queue, sz)) == Receipt(given, false, queue)
    ensures 0 < sz < RECORD_HEADER_SZ && queue != [] ==>
      Behind(given, ReceiveAll(queue, sz)) == Receipt(given, true, queue)
  {
    assert given + [] == given;
  }

  /** The bytes given out stand at the front of the buffer; the rest of it is as it was. */
  ghost predicate GivenInto(buf: seq<byte>, given: seq<byte>, whole: seq<byte>) {
    |given| <= |whole| && buf == given + whole[|given|..]
  }

  lemma NothingInto(buf: seq<byte>)
    ensures GivenInto(buf, [], buf)
  {
    assert [] + buf[0..] == buf;
  }

  lemma GivenGrows(buf: seq<byte>, given: seq<byte>, whole: seq<byte>, t: nat, out: seq<byte>, buf1: seq<byte>)
    requires GivenInto(buf, given, whole) && |given| == t && t + |out| <= |whole|
    requires buf1 == buf[..t] + out + buf[t + |out|..]
    ensures GivenInto(buf1, given + out, whole)
  {
    assert buf[..t] == given && buf[t + |out|..] == whole[t + |out|..];
  }

  /** Copying bytes behind bytes copied before. */
  lemma CopiedTwice(a: seq<byte>, b: seq<byte>, c: seq<byte>, at: nat, x: seq<byte>, y: seq<byte>, i: nat, j: nat)
    requires |x| == i && |y| == j && at + i + j <= |a| == |b|
    requires b == a[..at] + x + a[at + i..] && c == b[..at + i] + y + b[at + i + j..]
    ensures c == a[..at] + (x + y) + a[at + (i + j)..]
  {
    assert b[..at + i] == a[..at] + x && b[at + i + j..] == a[at + (i + j)..];
  }

  /** XMEMCPY */
  method Copy(buf: array<byte>, at: nat, bytes: seq<byte>)
    requires at + |bytes| <= buf.Length
    modifies buf
    ensures buf[..] == old(buf[..at]) + bytes + old(buf[at + |bytes|..])
  {
    forall i | 0 <= i < |bytes| {
      buf[at + i] := bytes[i];
    }
  }

  /** The length quic_record_make gives a record: at the early data level a chunk is a message. */
  function LengthFor(level: Level, s: seq<byte>): nat { if level == EarlyData then |s| else QrLength(s) }

  function SplitFor(level: Level, s: seq<byte>): Split {
    if level != EarlyData then SplitStream(s) else if s == [] then Split.Split([], []) else Split.Split([s], [])
  }

  /** A message that has just become complete is cut off the stream. */
  lemma CompleteSplits(level: Level, p: seq<byte>, rest: seq<byte>, n: nat)
    requires n <= |rest| && |p| + n == LengthFor(level, p + rest) > 0
    requires level == EarlyData || LengthFor(level, p + rest) <= WOLFSSL_QUIC_MAX_RECORD_CAPACITY
    ensures SplitFor(level, p + rest) == Prepend([p + rest[..n]], SplitFor(level, rest[n..]))
  {
    var m := p + rest[..n];
    assert p + rest == m + rest[n..];
    if level != EarlyData {
      assert QrLength(m) == QrLength(m + rest[n..]);
      SplitFirst(m, rest[n..]);
    } else {
      assert rest[n..] == [] && m == p + rest && [m] + [] == [m];
    }
  }

  class InputQueue {
    var queue: seq<QuicRecord>
    var scratch: QuicRecord?
    var latestLevel: Level
    ghost var held: seq<Queued>   // what the queued records hold
    ghost var pending: seq<byte>  // the bytes of the message that is not complete yet

    ghost predicate QueueOk()
      reads this`queue, this`held, queue
    {
      && |queue| == |held|
      && (forall i, j :: 0 <= i < j < |queue| ==> queue[i] != queue[j])
      && (forall i :: 0 <= i < |queue| ==>
            queue[i].Valid() && queue[i].Complete() && queue[i].Value() == held[i] && Readable(held[i]))
    }

    /** The record being filled knows its length as soon as the bytes to come tell it. */
    ghost predicate ScratchOk(level: Level, rest: seq<byte>)
      reads this`queue, this`scratch, this`pending, scratch
    {
      if scratch == null then pending == []
      else
        && scratch !in queue && scratch.Valid() && !scratch.Complete()
        && scratch.Value() == Queued(level, pending, 0, 0)
        && (scratch.len == 0 || scratch.len == LengthFor(level, pending + rest))
        && (if level == EarlyData then scratch.len != 0 && pending == []
            else scratch.len <= WOLFSSL_QUIC_MAX_RECORD_CAPACITY)
        && (pending == [] ==> rest != [])
    }

    ghost predicate Valid()
      reads this, queue, scratch
    {
      QueueOk() && ScratchOk(if scratch == null then Initial else scratch.level, [])
    }

    constructor ()
      ensures Valid() && queue == [] && scratch == null && held == [] && pending == []
    {
      queue, scratch, latestLevel := [], null, Initial;
      held, pending := [], [];
    }

    /** What is left when a length beyond the limit was told: the record that told it, with its first four bytes, unless
        they came at once and no record was made. */
    ghost predicate Stuck()
      reads this`queue, this`scratch, scratch
    {
      scratch != null ==> scratch !in queue && scratch.Overlong() && scratch.end == 4
    }

    /** The record being filled is complete and joins the queue. */
    method Enqueue(level: Level)
      requires QueueOk() && scratch != null && scratch !in queue && scratch.Valid() && scratch.Complete()
      requires scratch.Value() == Queued(level, pending, 0, 0)
      modifies this`queue, this`scratch, this`held, this`pending
      ensures QueueOk() && held == old(held) + Unread(level, [old(pending)])
      ensures scratch == null && pending == []
    {
      UnreadGrows(level, [], pending);
      assert [] + [pending] == [pending];
      queue, held := queue + [scratch], held + [Queued(level, pending, 0, 0)];
      scratch, pending := null, [];
    }

    /** The turn of the loop of wolfSSL_provide_quic_data that fills a record and queues it when complete. */
    method FillScratch(level: Level, rest: seq<byte>) returns (ok: bool, consumed: nat, ghost done: seq<seq<byte>>)
      requires rest != [] && scratch != null && QueueOk() && ScratchOk(level, rest)
      modifies this`queue, this`scratch, this`held, this`pending, scratch
      ensures consumed <= |rest| && QueueOk() && held == old(held) + Unread(level, done)
      ensures scratch == null || scratch == old(scratch)
      ensures if ok then consumed > 0 && ScratchOk(level, rest[consumed..]) else Stuck()
      ensures var r := SplitFor(level, old(pending) + rest);
        if ok then r == Prepend(done, SplitFor(level, pending + rest[consumed..])) else done == [] && r == TooLong([])
    {
      hide SplitFor, Prepend, QrLength;
      done := [];
      ghost var p := pending;
      ok, consumed := scratch.Append(rest);
      if !ok {
        TooLongAtOnce(level, p + rest);
        return;
      }
      pending := pending + rest[..consumed];
      if scratch.Complete() {
        CompleteSplits(level, p, rest, consumed);
        done := [pending];
        Enqueue(level);
        assert [] + rest[consumed..] == rest[consumed..];
      } else {
        assert p + rest == pending + rest[consumed..];
        PrependTwice([], [], SplitFor(level, p + rest));
      }
    }

    /** One turn of the loop: starts a record, or fills it. */
    method TakeSome(level: Level, rest: seq<byte>) returns (ok: bool, consumed: nat, ghost done: seq<seq<byte>>)
      requires rest != [] && QueueOk() && ScratchOk(level, rest)
      modifies this`queue, this`scratch, this`held, this`pending, scratch
      ensures consumed <= |rest| && QueueOk() && held == old(held) + Unread(level, done)
      ensures scratch == null || scratch == old(scratch) || fresh(scratch)
      ensures if ok then
                (consumed > 0 || (old(scratch) == null && scratch != null)) && ScratchOk(level, rest[consumed..])
              else Stuck()
      ensures var r := SplitFor(level, old(pending) + rest);
        if ok then r == Prepend(done, SplitFor(level, pending + rest[consumed..])) else done == [] && r == TooLong([])
    {
      hide SplitFor, Prepend;
      ok, consumed, done := true, 0, [];
      if scratch != null {
        ok, consumed, done := FillScratch(level, rest);
      } else {
        assert [] + rest == rest && rest[0..] == rest;
        if level != EarlyData && QrLength(rest) > WOLFSSL_QUIC_MAX_RECORD_CAPACITY {
          TooLongAtOnce(level, rest);
          return false, 0, [];
        }
        PrependTwice([], [], SplitFor(level, rest));
        scratch := new QuicRecord(level, LengthFor(level, rest));
      }
    }

    /** The loop: what becomes complete is queued in order, the rest waits in scratch. */
    method TakeAll(level: Level, data: seq<byte>) returns (ok: bool)
      requires data != [] && QueueOk() && ScratchOk(level, data)
      modifies this`queue, this`scratch, this`held, this`pending, scratch
      ensures var r := SplitFor(level, old(pending) + data);
        && QueueOk() && held == old(held) + Unread(level, r.messages)
        && (ok <==> r.Split?)
        && (if ok then ScratchOk(level, []) && pending == r.rest else Stuck())
    {
      hide SplitFor, Prepend, QueueOk, ScratchOk, Unread;
      var rest := data;
      ghost var done := [];
      ok := true;
      PrependTwice([], [], SplitFor(level, pending + data));
      NoneUnread(level);
      while rest != []
        invariant ok && QueueOk() && ScratchOk(level, rest)
        invariant held == old(held) + Unread(level, done)
        invariant scratch == null || scratch == old(scratch) || fresh(scratch)
        invariant SplitFor(level, old(pending) + data) == Prepend(done, SplitFor(level, pending + rest))
        decreases |rest|, scratch == null
      {
        var consumed;
        ghost var more;
        ok, consumed, more := TakeSome(level, rest);
        UnreadConcat(level, done, more);
        if !ok {
          NothingMore(done);
          return;
        }
        PrependTwice(done, more, SplitFor(level, pending + rest[consumed..]));
        rest, done := rest[consumed..], done + more;
      }
      PendingIsPartial(level);
      NothingComplete(level, done, pending);
      assert pending + [] == pending;
    }

    lemma PendingIsPartial(level: Level)
      requires ScratchOk(level, [])
      ensures pending == [] || (level != EarlyData && Partial(pending))
    {
      assert pending + [] == pending;
    }

    /** The level checks of wolfSSL_provide_quic_data. */
    predicate WrongLevel(readLevel: Level, level: Level)
      reads this, queue
    {
      || level.Rank() < readLevel.Rank()
      || (queue != [] && level.Rank() < queue[|queue| - 1].level.Rank())
      || level.Rank() < latestLevel.Rank()
    }

    /** The data comes at a level before the one read, before that of the last record queued, before that of the data
        taken last, or at another level than the record begun. */
    ghost predicate Refuses(readLevel: Level, level: Level, data: seq<byte>)
      reads this, scratch
    {
      || Before(level, readLevel) || (held != [] && Before(level, held[|held| - 1].level))
      || Before(level, latestLevel) || (data != [] && scratch != null && scratch.level != level)
    }

    lemma RefusesWrongLevels(readLevel: Level, level: Level, data: seq<byte>)
      requires Valid()
      ensures Refuses(readLevel, level, data)
         <==> WrongLevel(readLevel, level) || (data != [] && scratch != null && scratch.level != level)
    {
      hide ScratchOk;
      assert queue != [] ==> queue[|queue| - 1].Value() == held[|held| - 1];
    }

    lemma AcceptedInOrder(readLevel: Level, level: Level, data: seq<byte>)
      requires LevelsInOrder(held) && !Refuses(readLevel, level, data) && data != []
      ensures LevelsInOrder(held + Unread(level, SplitFor(level, pending + data).messages))
    {
      hide LevelsInOrder, SplitFor;
      StaysInOrder(held, level, SplitFor(level, pending + data).messages);
    }

    /** wolfSSL_provide_quic_data */
    method ProvideData(readLevel: Level, level: Level, data: seq<byte>) returns (ok: bool)
      requires Valid()
      modifies this, scratch
      ensures old(Refuses(readLevel, level, data)) || data == [] ==>
        Valid() && held == old(held) && pending == old(pending) && ok == !old(Refuses(readLevel, level, data))
      ensures !old(Refuses(readLevel, level, data)) && data != [] ==>
        var r := SplitFor(level, old(pending) + data);
        && held == old(held) + Unread(level, r.messages)
        && (ok <==> r.Split?)
        && (if ok then Valid() && pending == r.rest else QueueOk() && Stuck())
      ensures latestLevel == if ok then level else old(latestLevel)
      ensures LevelsInOrder(old(held)) ==> LevelsInOrder(held)
    {
      hide SplitFor, QueueOk, ScratchOk, Stuck, Unread, Refuses, WrongLevel, LevelsInOrder;
      RefusesWrongLevels(readLevel, level, data);
      if LevelsInOrder(held) && !Refuses(readLevel, level, data) && data != [] {
        AcceptedInOrder(readLevel, level, data);
      }
      if WrongLevel(readLevel, level) {
        return false;
      }
      ok := true;
      if data != [] {
        if scratch != null && scratch.level != level {
          return false;
        }
        ResumeScratch(level, data);
        ok := TakeAll(level, data);
        if ok {
          ScratchKept(level);
        }
      }
      if ok {
        latestLevel := level;
      }
    }

    /** Drops the first record once it is read to the end, after its transfer. */
    method AfterTransfer()
      requires queue != [] && |held| == |queue|
      requires QueueOkFrom(1) && queue[0].Valid() && queue[0].Complete() && (scratch != null ==> scratch !in queue)
      modifies this`queue, this`held
      ensures QueueOk() && held == Advanced(old(held), old(queue[0].Value()))
      ensures queue == old(queue) || queue == old(queue)[1..]
    {
      if queue[0].start >= queue[0].end {
        queue, held := queue[1..], held[1..];
      } else {
        held := [queue[0].Value()] + held[1..];
      }
    }

    /** All records from i on are as they should be. */
    ghost predicate QueueOkFrom(i: nat)
      reads this`queue, this`held, queue
    {
      && |queue| == |held|
      && (forall j, k :: 0 <= j < k < |queue| ==> queue[j] != queue[k])
      && (forall j :: i <= j < |queue| ==>
            queue[j].Valid() && queue[j].Complete() && queue[j].Value() == held[j] && Readable(held[j]))
    }

    /** One turn of the loop of wolfSSL_quic_receive. */
    method ReceiveSome(buf: array<byte>, at: nat, sz: nat, ghost level: Level) returns (n: int)
      requires queue != [] && QueueOk() && ScratchOk(level, []) && at + sz <= buf.Length
      modifies this`queue, this`held, queue[0], buf
      ensures QueueOk() && ScratchOk(level, []) && (queue == old(queue) || queue == old(queue)[1..])
      ensures sz < RECORD_HEADER_SZ ==> n == -1 && held == old(held) && buf[..] == old(buf[..])
      ensures sz >= RECORD_HEADER_SZ ==>
        var (out, q) := Transfer(old(held[0]), sz);
        n == |out| && held == Advanced(old(held), q) && buf[..] == old(buf[..at]) + out + old(buf[at + n..])
    {
      hide Transfer;
      n := queue[0].TransferTo(buf, at, sz);
      if n != -1 {
        AfterTransfer();
      }
    }

    /** The same turn as a step of the read that has given out some bytes already. */
    method ReceivePiece(buf: array<byte>, at: nat, sz: nat, ghost level: Level, ghost given: seq<byte>,
                        ghost whole: seq<byte>) returns (n: int, ghost out: seq<byte>)
      requires queue != [] && QueueOk() && ScratchOk(level, []) && AllReadable(held)
      requires at + sz <= buf.Length == |whole| && |given| == at && GivenInto(buf[..], given, whole)
      modifies this`queue, this`held, queue[0], buf
      ensures QueueOk() && ScratchOk(level, []) && AllReadable(held)
          && (queue == old(queue) || queue == old(queue)[1..])
      ensures n == -1 <==> sz < RECORD_HEADER_SZ
      ensures n == -1 ==> held == old(held) && buf[..] == old(buf[..])
      ensures n != -1 ==>
        && 0 < n == |out| <= sz && GivenInto(buf[..], given + out, whole)
        && Behind(given, ReceiveAll(old(held), sz)) == Behind(given + out, ReceiveAll(held, sz - n))
    {
      hide Transfer, Advanced, ReceiveAll, Behind, QueueOk, ScratchOk, AllReadable, PieceLength, GivenInto;
      QueueIsReadable();
      out := if sz < RECORD_HEADER_SZ then [] else Transfer(held[0], sz).0;
      if sz >= RECORD_HEADER_SZ {
        ReceiveTurn(held, sz, given);
      }
      n := ReceiveSome(buf, at, sz, level);
      if n != -1 {
        GivenGrows(old(buf[..]), given, whole, at, out, buf[..]);
      }
    }

    /** The loop of wolfSSL_quic_receive. */
    method ReceivePieces(buf: array<byte>, size: nat, ghost level: Level) returns (fatal: bool, transferred: nat)
      requires QueueOk() && ScratchOk(level, []) && AllReadable(held) && size <= buf.Length
      modifies this`queue, this`held, queue, buf
      ensures QueueOk() && ScratchOk(level, [])
      ensures var r := ReceiveAll(old(held), size);
        && r.fatal == fatal && r.queue == held && |r.out| == transferred && GivenInto(buf[..], r.out, old(buf[..]))
    {
      hide Transfer, Advanced, ReceiveAll, Behind, QueueOk, ScratchOk, AllReadable, GivenInto;
      ghost var given, whole, all := [], buf[..], queue;
      ghost var goal := ReceiveAll(held, size);
      NothingGiven(goal);
      NothingInto(buf[..]);
      var sz: nat := size;
      fatal, transferred := false, 0;
      while sz > 0
        invariant QueueOk() && AllReadable(held) && ScratchOk(level, [])
        invariant |queue| <= |all| && queue == all[|all| - |queue|..]
        invariant transferred + sz == size && |given| == transferred && GivenInto(buf[..], given, whole)
        invariant goal == Behind(given, ReceiveAll(held, sz))
        invariant !fatal
      {
        ReceiveEnds(held, sz, given);
        HeldIsEmpty();
        if queue == [] {
          break;
        }
        assert queue[0] == all[|all| - |queue|];
        var n;
        ghost var out;
        n, out := ReceivePiece(buf, transferred, sz, level, given, whole);
        if n == -1 {
          fatal := true;
          break;
        }
        given, sz, transferred := given + out, sz - n, transferred + n;
      }
      ReceiveEnds(held, 0, given);
    }

    /** wolfSSL_quic_receive */
    method Receive(buf: array<byte>, size: nat) returns (ret: int)
      requires Valid() && size <= buf.Length
      modifies this`queue, this`held, queue, buf
      ensures Valid() && AllReadable(old(held))
      ensures var r := ReceiveAll(old(held), size);
        && held == r.queue && pending == old(pending)
        && |r.out| <= buf.Length && buf[..] == r.out + old(buf[..])[|r.out|..]
        && ret == if r.fatal then WOLFSSL_FATAL_ERROR else if r.out == [] && size > 0 then WANT_READ else |r.out|
    {
      QueueIsReadable();
      hide ReceiveAll, QueueOk, ScratchOk, AllReadable;
      var fatal, transferred := ReceivePieces(buf, size, if scratch == null then Initial else scratch.level);
      ret := if fatal then WOLFSSL_FATAL_ERROR else if transferred == 0 && size > 0 then WANT_READ else transferred;
    }

    lemma HeldIsEmpty()
      requires QueueOk()
      ensures queue == [] <==> held == []
    {
    }

    lemma QueueIsReadable()
      requires QueueOk()
      ensures |held| == |queue| && AllReadable(held)
    {
    }

    lemma ScratchKept(level: Level)
      requires ScratchOk(level, [])
      ensures ScratchOk(if scratch == null then Initial else scratch.level, [])
    {
    }

    lemma ResumeScratch(level: Level, data: seq<byte>)
      requires Valid() && data != [] && (scratch != null ==> scratch.level == level)
      ensures ScratchOk(level, data)
    {
      assert pending + [] == pending;
    }
  }

  lemma NothingComplete(level: Level, ms: seq<seq<byte>>, p: seq<byte>)
    requires p == [] || (level != EarlyData && Partial(p))
    ensures Prepend(ms, SplitFor(level, p)) == Split.Split(ms, p)
  {
    assert ms + [] == ms;
  }

  lemma NothingMore(ms: seq<seq<byte>>)
    ensures Prepend(ms, TooLong([])) == TooLong(ms)
  {
    assert ms + [] == ms;
  }

  lemma TooLongAtOnce(level: Level, s: seq<byte>)
    requires level != EarlyData && QrLength(s) > WOLFSSL_QUIC_MAX_RECORD_CAPACITY
    ensures SplitFor(level, s) == TooLong([])
  {
  }
}
