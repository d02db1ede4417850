/** Reassembly of one handshake message from its fragments: disjoint buckets of received bytes, merged as
    fragments arrive. */
module FragBuckets {
  import opened Words

  const DTLS_FRAG_POOL_SZ: nat := 10

  /** Received bytes and where in the message they start. */
  datatype Bucket = Bucket(offset: nat, buf: seq<byte>)
  {
    function End(): nat { offset + |buf| }
  }

  /** What a grown allocation holds beyond the bytes it was grown from. */
  type Junk = nat -> byte

  // ----- putting a fragment into the list ----------------------------------------------------

  /** The first bucket from i on that ends at or after o. */
  function Place(bs: seq<Bucket>, o: nat, i: nat): (p: nat)
    requires i <= |bs|
    ensures i <= p <= |bs|
    ensures p < |bs| ==> o <= bs[p].End()
    ensures forall k :: i <= k < p ==> bs[k].End() < o
    decreases |bs| - i
  {
    if i == |bs| || o <= bs[i].End() then i else Place(bs, o, i + 1)
  }

  /** The first bucket from i on that ends after e. */
  function Beyond(bs: seq<Bucket>, e: nat, i: nat): (p: nat)
    requires i <= |bs|
    ensures i <= p <= |bs|
    ensures p < |bs| ==> e < bs[p].End()
    ensures forall k :: i <= k < p ==> bs[k].End() <= e
    decreases |bs| - i
  {
    if i == |bs| || e < bs[i].End() then i else Beyond(bs, e, i + 1)
  }

  /** The bytes that memmove takes from cur's grown buffer: its own first, then whatever is there. */
  function Moved(cur: Bucket, n: nat, junk: Junk): (r: seq<byte>)
    ensures |r| == n
  {
    if n <= |cur.buf| then cur.buf[..n]
    else cur.buf + seq<byte>(n - |cur.buf|, i requires 0 <= i => junk(|cur.buf| + i))
  }

  /** The bytes of DtlsMsgCombineFragBuckets up to limit, where the next bucket takes over. */
  function Combined(cur: Bucket, limit: nat, o: nat, data: seq<byte>, junk: Junk): (r: seq<byte>)
    requires o <= cur.End() <= limit
    requires o > cur.offset ==> limit <= o + |data|
    ensures |r| == limit - Min(o, cur.offset)
  {
    if o <= cur.offset then
      if limit <= o + |data| then data[..limit - o] else data + Moved(cur, limit - (o + |data|), junk)
    else cur.buf + data[cur.End() - o..limit - o]
  }

  /** Where the buckets start that are left as they are behind bucket p: those that the fragment ends in or
      past are absorbed. */
  function Rest(bs: seq<Bucket>, p: nat, e: nat): (q: nat)
    requires p < |bs|
    ensures p < q <= |bs|
  {
    var j := Beyond(bs, e, p + 1);
    if j < |bs| && bs[j].offset <= e then j + 1 else j
  }

  /** DtlsMsgCombineFragBuckets when the fragment ends before the next bucket, or there is none. */
  function CombineAlone(cur: Bucket, o: nat, data: seq<byte>, junk: Junk): (b: Bucket)
    requires o <= cur.End() && !(cur.offset <= o && o + |data| <= cur.End())
    ensures b.offset == Min(o, cur.offset)
    ensures b.End() == if cur.End() < o + |data| then o + |data| else cur.End()
  {
    Bucket(Min(o, cur.offset), Combined(cur, if cur.End() < o + |data| then o + |data| else cur.End(), o, data, junk))
  }

  /** ... and when it bridges the gap to the next one. */
  function CombineNext(cur: Bucket, next: Bucket, o: nat, data: seq<byte>, junk: Junk): (b: Bucket)
    requires o <= cur.End() < next.offset <= o + |data|
    ensures b.offset == Min(o, cur.offset) && b.End() == next.End()
  {
    Bucket(Min(o, cur.offset), Combined(cur, next.offset, o, data, junk) + next.buf)
  }

  /** The fragment with bucket p and all that it reaches. */
  function Merged(bs: seq<Bucket>, p: nat, o: nat, data: seq<byte>, junk: Junk): Bucket
    requires p < |bs| && o <= bs[p].End() && Apart(bs)
    requires !(bs[p].offset <= o && o + |data| <= bs[p].End())
  {
    var j := Beyond(bs, o + |data|, p + 1);
    if j < |bs| && bs[j].offset <= o + |data| then CombineNext(bs[p], bs[j], o, data, junk)
    else CombineAlone(bs[p], o, data, junk)
  }

  datatype Outcome = Placed(buckets: seq<Bucket>) | TooManyFragments

  /** The choice DtlsMsgSet makes for the bytes data at offset o. */
  function Insert(bs: seq<Bucket>, o: nat, data: seq<byte>, junk: Junk): (r: Outcome)
    requires Apart(bs)
    ensures r.Placed? ==> r.buckets != []
  {
    var p, e := Place(bs, o, 0), o + |data|;
    if p < |bs| && bs[p].offset <= o && e <= bs[p].End() then Placed(bs)
    else if p == |bs| then
      if |bs| >= DTLS_FRAG_POOL_SZ then TooManyFragments else Placed(bs + [Bucket(o, data)])
    else if p == 0 && e < bs[0].offset then
      if |bs| >= DTLS_FRAG_POOL_SZ then TooManyFragments else Placed([Bucket(o, data)] + bs)
    else Placed(bs[..p] + [Merged(bs, p, o, data, junk)] + bs[Rest(bs, p, e)..])
  }

  /** Data is refused exactly if there are ten buckets and it touches none of them, and comes before the first or
      behind the last. */
  lemma RefusedExactly(bs: seq<Bucket>, o: nat, data: seq<byte>, junk: Junk)
    requires Apart(bs)
    ensures Insert(bs, o, data, junk).TooManyFragments?
       <==> |bs| >= 10 && (bs[|bs| - 1].End() < o || o + |data| < bs[0].offset)
  {
  }

  // ----- what it keeps ----------------------------------------------------------------------------

  /** In order, with a gap after every bucket. */
  ghost predicate Apart(bs: seq<Bucket>) {
    forall i, j :: 0 <= i < j < |bs| ==> bs[i].End() < bs[j].offset
  }

  /** A bucket holds the bytes of message m at its place ... */
  ghost predicate Holds(b: Bucket, m: seq<byte>) {
    b.End() <= |m| && b.buf == m[b.offset..b.End()]
  }

  /** ... and so does every one of a list. */
  ghost predicate Faithful(bs: seq<Bucket>, m: seq<byte>) {
    forall i :: 0 <= i < |bs| ==> Holds(bs[i], m)
  }

  /** Is byte x in one of the buckets p up to q? */
  ghost predicate CoversIn(bs: seq<Bucket>, p: nat, q: nat, x: nat)
    requires q <= |bs|
  {
    exists i :: p <= i < q && bs[i].offset <= x < bs[i].End()
  }

  ghost predicate Covers(bs: seq<Bucket>, x: nat) { CoversIn(bs, 0, |bs|, x) }

  /** Does the fragment start before the bucket it meets and end elsewhere than where that bucket starts, short
      of its end?  Either it overlaps the front of the bucket, or it falls into a gap that is not the first. */
  predicate Misplaces(bs: seq<Bucket>, o: nat, e: nat) {
    var p := Place(bs, o, 0);
    p < |bs| && o < bs[p].offset && e < bs[p].End() && e != bs[p].offset && !(p == 0 && e < bs[0].offset)
  }

  /** The fragment goes on behind the bucket. */
  lemma CombinedBehind(cur: Bucket, limit: nat, o: nat, data: seq<byte>, junk: Junk, m: seq<byte>)
    requires cur.offset < o <= cur.End() <= limit <= o + |data| <= |m|
    requires Holds(cur, m) && Holds(Bucket(o, data), m)
    ensures Combined(cur, limit, o, data, junk) == m[cur.offset..limit]
  {
    hide Moved;
    SliceOfSlice(m, o, o + |data|, cur.End() - o, limit - o);
    SliceJoin(m, cur.offset, cur.End(), limit);
  }

  /** The fragment reaches as far as the limit. */
  lemma CombinedOver(cur: Bucket, limit: nat, o: nat, data: seq<byte>, junk: Junk, m: seq<byte>)
    requires o <= cur.offset && cur.End() <= limit <= o + |data| <= |m|
    requires Holds(Bucket(o, data), m)
    ensures Combined(cur, limit, o, data, junk) == m[o..limit]
  {
    hide Moved;
    SliceOfSlice(m, o, o + |data|, 0, limit - o);
  }

  /** The fragment ends where the bucket begins. */
  lemma CombinedBefore(cur: Bucket, o: nat, data: seq<byte>, junk: Junk, m: seq<byte>)
    requires o < cur.offset == o + |data| && Holds(cur, m) && Holds(Bucket(o, data), m)
    ensures Combined(cur, cur.End(), o, data, junk) == m[o..cur.End()]
  {
    assert Moved(cur, |cur.buf|, junk) == cur.buf;
    hide Moved;
    SliceJoin(m, o, cur.offset, cur.End());
  }

  lemma CombinedIs(cur: Bucket, limit: nat, o: nat, data: seq<byte>, junk: Junk, m: seq<byte>)
    requires o <= cur.End() <= limit <= |m| && o + |data| <= |m|
    requires Holds(cur, m) && Holds(Bucket(o, data), m)
    requires limit <= o + |data| || (o < cur.offset == o + |data| && limit == cur.End())
    ensures Combined(cur, limit, o, data, junk) == m[Min(o, cur.offset)..limit]
  {
    hide Combined, Holds;
    if o > cur.offset {
      CombinedBehind(cur, limit, o, data, junk, m);
    } else if limit <= o + |data| {
      CombinedOver(cur, limit, o, data, junk, m);
    } else {
      CombinedBefore(cur, o, data, junk, m);
    }
  }

  lemma SliceJoin(m: seq<byte>, a: nat, b: nat, c: nat)
    requires a <= b <= c <= |m|
    ensures m[a..b] + m[b..c] == m[a..c]
  {
  }

  lemma SliceOfSlice(m: seq<byte>, a: nat, b: nat, c: nat, d: nat)
    requires a <= b <= |m| && c <= d <= b - a
    ensures m[a..b][c..d] == m[a + c..a + d]
  {
    assert forall i :: 0 <= i < d - c ==> m[a..b][c..d][i] == m[a + c..a + d][i];
  }

  lemma AloneIs(cur: Bucket, o: nat, data: seq<byte>, junk: Junk, m: seq<byte>)
    requires o <= cur.End() && !(cur.offset <= o && o + |data| <= cur.End())
    requires Holds(cur, m) && Holds(Bucket(o, data), m)
    requires o < cur.offset && o + |data| < cur.End() ==> o + |data| == cur.offset
    ensures Holds(CombineAlone(cur, o, data, junk), m)
  {
    hide Combined;
    CombinedIs(cur, if cur.End() < o + |data| then o + |data| else cur.End(), o, data, junk, m);
  }

  lemma NextIs(cur: Bucket, next: Bucket, o: nat, data: seq<byte>, junk: Junk, m: seq<byte>)
    requires o <= cur.End() < next.offset <= o + |data|
    requires Holds(cur, m) && Holds(next, m) && Holds(Bucket(o, data), m)
    ensures Holds(CombineNext(cur, next, o, data, junk), m)
  {
    hide Combined;
    CombinedIs(cur, next.offset, o, data, junk, m);
    SliceJoin(m, Min(o, cur.offset), next.offset, next.End());
  }

  /** The merged bucket reaches from the first byte of the fragment and bucket p to the last byte of what it
      absorbs, short of the next bucket. */
  lemma MergedExtent(bs: seq<Bucket>, p: nat, o: nat, data: seq<byte>, junk: Junk)
    requires Apart(bs) && p < |bs| && p == Place(bs, o, 0)
    requires !(bs[p].offset <= o && o + |data| <= bs[p].End())
    ensures var b, q := Merged(bs, p, o, data, junk), Rest(bs, p, o + |data|);
      && b.offset == Min(o, bs[p].offset)
      && (q < |bs| ==> b.End() < bs[q].offset)
      && (p > 0 ==> bs[p - 1].End() < b.offset)
  {
    hide CombineNext, CombineAlone;
  }

  lemma MergedIs(bs: seq<Bucket>, p: nat, o: nat, data: seq<byte>, junk: Junk, m: seq<byte>)
    requires Apart(bs) && Faithful(bs, m) && Holds(Bucket(o, data), m)
    requires p < |bs| && p == Place(bs, o, 0)
    requires !(bs[p].offset <= o && o + |data| <= bs[p].End())
    requires !Misplaces(bs, o, o + |data|) && !(p == 0 && o + |data| < bs[0].offset)
    ensures Holds(Merged(bs, p, o, data, junk), m)
  {
    hide CombineNext, CombineAlone, Holds;
    var j := Beyond(bs, o + |data|, p + 1);
    if j < |bs| && bs[j].offset <= o + |data| {
      NextIs(bs[p], bs[j], o, data, junk, m);
    } else {
      AloneIs(bs[p], o, data, junk, m);
    }
  }

  lemma ReplaceKeepsApart(bs: seq<Bucket>, p: nat, q: nat, b: Bucket)
    requires Apart(bs) && p <= q <= |bs|
    requires p > 0 ==> bs[p - 1].End() < b.offset
    requires q < |bs| ==> b.End() < bs[q].offset
    ensures Apart(bs[..p] + [b] + bs[q..])
  {
  }

  lemma ReplaceKeepsFaithful(bs: seq<Bucket>, p: nat, q: nat, b: Bucket, m: seq<byte>)
    requires Faithful(bs, m) && p <= q <= |bs|
    requires Holds(b, m)
    ensures Faithful(bs[..p] + [b] + bs[q..], m)
  {
  }

  /** The list stays in order with its gaps, whatever arrives. */
  lemma InsertKeepsApart(bs: seq<Bucket>, o: nat, data: seq<byte>, junk: Junk)
    requires Apart(bs) && Insert(bs, o, data, junk).Placed?
    ensures Apart(Insert(bs, o, data, junk).buckets)
  {
    hide Merged, Rest, Apart;
    var p, e := Place(bs, o, 0), o + |data|;
    if p < |bs| && bs[p].offset <= o && e <= bs[p].End() {
    } else if p == |bs| {
      ReplaceKeepsApart(bs, p, p, Bucket(o, data));
      assert bs[..p] + [Bucket(o, data)] + bs[p..] == bs + [Bucket(o, data)];
    } else if p == 0 && e < bs[0].offset {
      ReplaceKeepsApart(bs, 0, 0, Bucket(o, data));
      assert bs[..0] + [Bucket(o, data)] + bs[0..] == [Bucket(o, data)] + bs;
    } else {
      MergedExtent(bs, p, o, data, junk);
      ReplaceKeepsApart(bs, p, Rest(bs, p, e), Merged(bs, p, o, data, junk));
    }
  }

  /** Unless the fragment is misplaced, true bytes stay true bytes. */
  lemma InsertKeepsFaithful(bs: seq<Bucket>, o: nat, data: seq<byte>, junk: Junk, m: seq<byte>)
    requires Apart(bs) && Faithful(bs, m) && Holds(Bucket(o, data), m)
    requires !Misplaces(bs, o, o + |data|) && Insert(bs, o, data, junk).Placed?
    ensures Faithful(Insert(bs, o, data, junk).buckets, m)
  {
    hide Merged, Rest, Apart, Faithful;
    var p, e := Place(bs, o, 0), o + |data|;
    if p < |bs| && bs[p].offset <= o && e <= bs[p].End() {
    } else if p == |bs| {
      ReplaceKeepsFaithful(bs, p, p, Bucket(o, data), m);
      assert bs[..p] + [Bucket(o, data)] + bs[p..] == bs + [Bucket(o, data)];
    } else if p == 0 && e < bs[0].offset {
      ReplaceKeepsFaithful(bs, 0, 0, Bucket(o, data), m);
      assert bs[..0] + [Bucket(o, data)] + bs[0..] == [Bucket(o, data)] + bs;
    } else {
      MergedIs(bs, p, o, data, junk, m);
      ReplaceKeepsFaithful(bs, p, Rest(bs, p, e), Merged(bs, p, o, data, junk), m);
    }
  }

  /** What DtlsMsgCombineFragBuckets puts behind a misplaced fragment, where the bytes from its end on belong: those of
      the bucket it meets from its first one on, unset ones behind them. */
  function PutBehind(bs: seq<Bucket>, o: nat, e: nat, junk: Junk): seq<byte>
    requires Misplaces(bs, o, e)
  {
    var cur := bs[Place(bs, o, 0)];
    Moved(cur, cur.End() - e, junk)
  }

  lemma MergedAfterMisplacing(bs: seq<Bucket>, o: nat, data: seq<byte>, junk: Junk)
    requires Apart(bs) && Misplaces(bs, o, o + |data|)
    ensures var p := Place(bs, o, 0);
      && Rest(bs, p, o + |data|) == p + 1
      && Merged(bs, p, o, data, junk) == Bucket(o, data + PutBehind(bs, o, o + |data|, junk))
  {
    var p := Place(bs, o, 0);
    assert Beyond(bs, o + |data|, p + 1) < |bs| ==> bs[p].End() < bs[Beyond(bs, o + |data|, p + 1)].offset;
    hide Moved, Place;
  }

  lemma HoldsBehind(o: nat, data: seq<byte>, behind: seq<byte>, m: seq<byte>)
    requires Holds(Bucket(o, data), m) && o + |data| + |behind| <= |m|
    ensures Holds(Bucket(o, data + behind), m) <==> behind == m[o + |data|..o + |data| + |behind|]
  {
    var e := o + |data|;
    SliceJoin(m, o, e, e + |behind|);
    assert (data + behind)[|data|..] == behind && m[o..e + |behind|][|data|..] == m[e..e + |behind|];
  }

  lemma ReplacedIsFaithful(bs: seq<Bucket>, p: nat, b: Bucket, m: seq<byte>)
    requires Faithful(bs, m) && p < |bs|
    ensures Faithful(bs[..p] + [b] + bs[p + 1..], m) <==> Holds(b, m)
  {
    var us := bs[..p] + [b] + bs[p + 1..];
    assert us[p] == b;
    if Holds(b, m) {
      ReplaceKeepsFaithful(bs, p, p + 1, b, m);
    }
  }

  /** Do those happen to be the bytes that belong there? */
  ghost predicate TrueBehind(bs: seq<Bucket>, o: nat, e: nat, junk: Junk, m: seq<byte>)
    requires Misplaces(bs, o, e)
  {
    var behind := PutBehind(bs, o, e, junk);
    e + |behind| <= |m| && behind == m[e..e + |behind|]
  }

  /** True bytes stay true bytes if and only if the fragment is not misplaced, or what is put behind it happens to be
      what belongs there. */
  lemma FaithfulExactly(bs: seq<Bucket>, o: nat, data: seq<byte>, junk: Junk, m: seq<byte>)
    requires Apart(bs) && Faithful(bs, m) && Holds(Bucket(o, data), m) && Insert(bs, o, data, junk).Placed?
    ensures Faithful(Insert(bs, o, data, junk).buckets, m)
       <==> (Misplaces(bs, o, o + |data|) ==> TrueBehind(bs, o, o + |data|, junk, m))
  {
    hide Insert, Faithful, Apart, Holds, TrueBehind;
    if Misplaces(bs, o, o + |data|) {
      MisplacedExactly(bs, o, data, junk, m);
    } else {
      InsertKeepsFaithful(bs, o, data, junk, m);
    }
  }

  /** Where the bucket that a misplaced fragment meets ends. */
  lemma BehindFits(bs: seq<Bucket>, o: nat, e: nat, junk: Junk, m: seq<byte>)
    requires Faithful(bs, m) && Misplaces(bs, o, e)
    ensures PutBehind(bs, o, e, junk) != [] && e + |PutBehind(bs, o, e, junk)| <= |m|
  {
    assert Holds(bs[Place(bs, o, 0)], m);
    hide Moved;
  }

  lemma InsertMisplaced(bs: seq<Bucket>, o: nat, data: seq<byte>, junk: Junk)
    requires Apart(bs) && Misplaces(bs, o, o + |data|)
    ensures var p := Place(bs, o, 0); var b := Bucket(o, data + PutBehind(bs, o, o + |data|, junk));
      Insert(bs, o, data, junk) == Placed(bs[..p] + [b] + bs[p + 1..])
  {
    MergedAfterMisplacing(bs, o, data, junk);
    hide Merged, Rest, Apart, PutBehind, Place;
  }

  lemma MisplacedExactly(bs: seq<Bucket>, o: nat, data: seq<byte>, junk: Junk, m: seq<byte>)
    requires Apart(bs) && Faithful(bs, m) && Holds(Bucket(o, data), m) && Misplaces(bs, o, o + |data|)
    ensures Insert(bs, o, data, junk).Placed?
    ensures Faithful(Insert(bs, o, data, junk).buckets, m) <==> TrueBehind(bs, o, o + |data|, junk, m)
  {
    hide Insert, Apart, Faithful, Holds, PutBehind, Place;
    var behind := PutBehind(bs, o, o + |data|, junk);
    BehindFits(bs, o, o + |data|, junk, m);
    InsertMisplaced(bs, o, data, junk);
    HoldsBehind(o, data, behind, m);
    ReplacedIsFaithful(bs, Place(bs, o, 0), Bucket(o, data + behind), m);
  }

  /** So a misplaced fragment is followed by the first byte of the bucket it meets, or an unset byte when that bucket
      has none, and the bytes are wrong whenever another one belongs there. */
  lemma MisplacedIsWrong(bs: seq<Bucket>, o: nat, data: seq<byte>, junk: Junk, m: seq<byte>)
    requires Apart(bs) && Faithful(bs, m) && Holds(Bucket(o, data), m)
    requires Misplaces(bs, o, o + |data|)
    requires var cur := bs[Place(bs, o, 0)];
      o + |data| < |m| ==> m[o + |data|] != if cur.buf == [] then junk(0) else cur.buf[0]
    ensures Insert(bs, o, data, junk).Placed? && !Faithful(Insert(bs, o, data, junk).buckets, m)
  {
    MisplacedExactly(bs, o, data, junk, m);
    BehindFits(bs, o, o + |data|, junk, m);
    hide Insert, Faithful, Apart, Holds;
    var cur := bs[Place(bs, o, 0)];
    assert PutBehind(bs, o, o + |data|, junk)[0] == if cur.buf == [] then junk(0) else cur.buf[0];
  }

  // ----- a message complete -------------------------------------------------------------------------

  /** bytesReceived: every step adds the size of the bucket it makes and takes off those of the buckets it removes. */
  function Received(bs: seq<Bucket>): nat {
    if bs == [] then 0 else Received(bs[..|bs| - 1]) + |bs[|bs| - 1].buf|
  }

  lemma {:induction false} GapsAreMissing(bs: seq<Bucket>)
    requires Apart(bs) && bs != []
    ensures Received(bs) + bs[0].offset + (|bs| - 1) <= bs[|bs| - 1].End()
  {
    if |bs| > 1 {
      GapsAreMissing(bs[..|bs| - 1]);
    }
  }

  /** When as many bytes were received as the message is long they are in one bucket, and it is the message. */
  lemma AllReceived(bs: seq<Bucket>, m: seq<byte>)
    requires Apart(bs) && Faithful(bs, m) && bs != [] && Received(bs) == |m|
    ensures bs == [Bucket(0, m)]
  {
    GapsAreMissing(bs);
    assert |bs| == 1 && Holds(bs[0], m) && m[0..|m|] == m;
  }

  /** The bytes in the buckets p up to q, with those of the fragment, are those of the merged bucket. */
  lemma MergedCovers(bs: seq<Bucket>, p: nat, o: nat, data: seq<byte>, junk: Junk, x: nat)
    requires Apart(bs) && p < |bs| && p == Place(bs, o, 0)
    requires !(bs[p].offset <= o && o + |data| <= bs[p].End())
    requires !Misplaces(bs, o, o + |data|) && !(p == 0 && o + |data| < bs[0].offset)
    ensures var b, q := Merged(bs, p, o, data, junk), Rest(bs, p, o + |data|);
      b.offset <= x < b.End() <==> CoversIn(bs, p, q, x) || o <= x < o + |data|
  {
    var b, q := Merged(bs, p, o, data, junk), Rest(bs, p, o + |data|);
    if b.offset <= x < b.End() && !(o <= x < o + |data|) {
      var k := MergedFrom(bs, p, o, data, junk, x);
    }
    MergedReaches(bs, p, o, data, junk);
    hide Apart, Misplaces, Merged, Rest, Place;
    if CoversIn(bs, p, q, x) {
      var k :| p <= k < q && bs[k].offset <= x < bs[k].End();
      AbsorbedFits(bs, p, k, o, data, junk);
    }
  }

  lemma MergedReaches(bs: seq<Bucket>, p: nat, o: nat, data: seq<byte>, junk: Junk)
    requires Apart(bs) && p < |bs| && p == Place(bs, o, 0)
    requires !(bs[p].offset <= o && o + |data| <= bs[p].End())
    ensures var b := Merged(bs, p, o, data, junk); b.offset <= o && o + |data| <= b.End()
  {
    hide CombineNext, CombineAlone;
  }

  /** The bucket that a byte of the merged one comes from, if not from the fragment. */
  lemma MergedFrom(bs: seq<Bucket>, p: nat, o: nat, data: seq<byte>, junk: Junk, x: nat) returns (k: nat)
    requires Apart(bs) && p < |bs| && p == Place(bs, o, 0)
    requires !(bs[p].offset <= o && o + |data| <= bs[p].End())
    requires !Misplaces(bs, o, o + |data|) && !(p == 0 && o + |data| < bs[0].offset)
    requires var b := Merged(bs, p, o, data, junk); b.offset <= x < b.End() && !(o <= x < o + |data|)
    ensures p <= k < Rest(bs, p, o + |data|) && bs[k].offset <= x < bs[k].End()
  {
    hide CombineNext, CombineAlone, Apart;
    k := if x < o || Rest(bs, p, o + |data|) == Beyond(bs, o + |data|, p + 1) then p else Rest(bs, p, o + |data|) - 1;
  }

  lemma AbsorbedFits(bs: seq<Bucket>, p: nat, k: nat, o: nat, data: seq<byte>, junk: Junk)
    requires Apart(bs) && p < |bs| && p == Place(bs, o, 0)
    requires !(bs[p].offset <= o && o + |data| <= bs[p].End())
    requires p <= k < Rest(bs, p, o + |data|)
    ensures var b := Merged(bs, p, o, data, junk); b.offset <= bs[k].offset && bs[k].End() <= b.End()
  {
    hide CombineNext, CombineAlone;
    assert p < k ==> bs[p].End() < bs[k].offset;
  }

  lemma CoversReplaced(bs: seq<Bucket>, p: nat, q: nat, b: Bucket, x: nat)
    requires p <= q <= |bs|
    ensures Covers(bs[..p] + [b] + bs[q..], x)
       <==> CoversIn(bs, 0, p, x) || b.offset <= x < b.End() || CoversIn(bs, q, |bs|, x)
    ensures Covers(bs, x) <==> CoversIn(bs, 0, p, x) || CoversIn(bs, p, q, x) || CoversIn(bs, q, |bs|, x)
  {
    var us := bs[..p] + [b] + bs[q..];
    assert us[p] == b;
    assert forall i :: 0 <= i < p ==> us[i] == bs[i];
    assert forall i :: q <= i < |bs| ==> us[i - q + p + 1] == bs[i];
  }

  /** Unless a fragment is misplaced, exactly the bytes that have arrived count as received. */
  lemma InsertCovers(bs: seq<Bucket>, o: nat, data: seq<byte>, junk: Junk, x: nat)
    requires Apart(bs) && !Misplaces(bs, o, o + |data|) && Insert(bs, o, data, junk).Placed?
    ensures Covers(Insert(bs, o, data, junk).buckets, x) <==> Covers(bs, x) || o <= x < o + |data|
  {
    hide Merged, Rest, Apart, Misplaces;
    var p, e := Place(bs, o, 0), o + |data|;
    if p < |bs| && bs[p].offset <= o && e <= bs[p].End() {
      assert o <= x < e ==> bs[p].offset <= x < bs[p].End();
    } else if p == |bs| {
      CoversReplaced(bs, p, p, Bucket(o, data), x);
      assert bs[..p] + [Bucket(o, data)] + bs[p..] == bs + [Bucket(o, data)];
    } else if p == 0 && e < bs[0].offset {
      CoversReplaced(bs, 0, 0, Bucket(o, data), x);
      assert bs[..0] + [Bucket(o, data)] + bs[0..] == [Bucket(o, data)] + bs;
    } else {
      var q := Rest(bs, p, e);
      CoversReplaced(bs, p, q, Merged(bs, p, o, data, junk), x);
      MergedCovers(bs, p, o, data, junk, x);
    }
  }

  lemma CoveredIsReceived(bs: seq<Bucket>, m: seq<byte>)
    requires Apart(bs) && Faithful(bs, m) && bs != [] && forall x :: 0 <= x < |m| ==> Covers(bs, x)
    ensures Received(bs) == |m|
  {
    assert Holds(bs[0], m) && Holds(bs[|bs| - 1], m);
    assert m != [] ==> Covers(bs, 0);
    assert bs[0].End() < |m| ==> Covers(bs, bs[0].End());
    assert |bs| == 1 && bs[0].offset == 0 && bs[0].End() == |m|;
  }

  /** A message is put together exactly when none of its bytes is missing. */
  lemma CompleteIffCovered(bs: seq<Bucket>, m: seq<byte>)
    requires Apart(bs) && Faithful(bs, m) && bs != []
    ensures Received(bs) == |m| <==> forall x :: 0 <= x < |m| ==> Covers(bs, x)
  {
    if Received(bs) == |m| {
      AllReceived(bs, m);
    }
    if forall x :: 0 <= x < |m| ==> Covers(bs, x) {
      CoveredIsReceived(bs, m);
    }
  }

  // ----- where the condition is needed -----------------------------------------------------------------

  /** What is left of a list when one byte of a message arrives. */
  function Arrives(bs: seq<Bucket>, m: seq<byte>, at: nat, junk: Junk): Outcome
    requires Apart(bs) && at < |m|
  {
    Insert(bs, at, [m[at]], junk)
  }

  lemma FirstArrives(m: seq<byte>, junk: Junk)
    requires |m| == 5
    ensures Apart([]) && Arrives([], m, 0, junk) == Placed([Bucket(0, [m[0]])])
  {
    assert [] + [Bucket(0, [m[0]])] == [Bucket(0, [m[0]])];
  }

  lemma LastArrives(m: seq<byte>, junk: Junk)
    requires |m| == 5
    ensures var b0, b4 := Bucket(0, [m[0]]), Bucket(4, [m[4]]);
      Apart([b0]) && Arrives([b0], m, 4, junk) == Placed([b0, b4])
  {
    var b0, b4 := Bucket(0, [m[0]]), Bucket(4, [m[4]]);
    assert [b0] + [b4] == [b0, b4];
  }

  /** A misplaced byte. */
  lemma ByteMisplaced(bs: seq<Bucket>, m: seq<byte>, at: nat, junk: Junk)
    requires Apart(bs) && at < |m| && Misplaces(bs, at, at + 1)
    ensures var p := Place(bs, at, 0);
      Arrives(bs, m, at, junk)
          == Placed(bs[..p] + [Bucket(at, [m[at]] + PutBehind(bs, at, at + 1, junk))] + bs[p + 1..])
  {
    InsertMisplaced(bs, at, [m[at]], junk);
    hide Insert, PutBehind, Place;
  }

  lemma MiddleArrives(m: seq<byte>, junk: Junk)
    requires |m| == 5
    ensures var b0, b4, b2 := Bucket(0, [m[0]]), Bucket(4, [m[4]]), Bucket(2, [m[2], m[4], junk(1)]);
      Apart([b0, b4]) && Arrives([b0, b4], m, 2, junk) == Placed([b0, b2])
  {
    var b0, b4 := Bucket(0, [m[0]]), Bucket(4, [m[4]]);
    var bs := [b0, b4];
    assert Place(bs, 2, 0) == Place(bs, 2, 1) == 1;
    ByteMisplaced(bs, m, 2, junk);
    assert Moved(b4, 2, junk) == [m[4], junk(1)];
    hide Moved, Insert;
    assert [m[2]] + [m[4], junk(1)] == [m[2], m[4], junk(1)];
    assert bs[..1] == [b0] && bs[2..] == [];
  }

  lemma GapCloses(m: seq<byte>, junk: Junk)
    requires |m| == 5
    ensures var b0, b2 := Bucket(0, [m[0]]), Bucket(2, [m[2], m[4], junk(1)]);
      && Apart([b0, b2])
      && Arrives([b0, b2], m, 1, junk) == Placed([Bucket(0, [m[0], m[1], m[2], m[4], junk(1)])])
  {
    var b0, b2 := Bucket(0, [m[0]]), Bucket(2, [m[2], m[4], junk(1)]);
    hide Insert, Apart, Place, Beyond;
    assert b0.End() == 1;
    GapIsClosed(b0, b2, [m[1]], junk);
    FiveBytes(m[0], m[1], m[2], m[4], junk(1));
  }

  lemma FiveBytes(a: byte, b: byte, c: byte, d: byte, e: byte)
    ensures [a] + [b] + [c, d, e] == [a, b, c, d, e]
  {
  }

  /** A fragment that just fills the gap between two buckets makes one of them. */
  lemma GapIsClosed(cur: Bucket, next: Bucket, data: seq<byte>, junk: Junk)
    requires cur.End() + |data| == next.offset && cur.buf != [] && data != [] && next.buf != []
    ensures Apart([cur, next])
    ensures Insert([cur, next], cur.End(), data, junk) == Placed([Bucket(cur.offset, cur.buf + data + next.buf)])
  {
    var bs := [cur, next];
    assert Place(bs, cur.End(), 0) == 0 && Beyond(bs, next.offset, 1) == 1;
    Bridged(cur, next, data, junk, Bucket(cur.offset, cur.buf + data + next.buf));
    hide Place, Beyond, CombineNext;
    assert bs[..0] + [Bucket(cur.offset, cur.buf + data + next.buf)] + bs[2..]
        == [Bucket(cur.offset, cur.buf + data + next.buf)];
  }

  lemma Bridged(cur: Bucket, next: Bucket, data: seq<byte>, junk: Junk, all: Bucket)
    requires cur.End() < next.offset == cur.End() + |data| && cur.buf != []
    requires all == Bucket(cur.offset, cur.buf + data + next.buf)
    ensures CombineNext(cur, next, cur.End(), data, junk) == all
  {
    assert data[0..|data|] == data;
  }

  /** Four of the five one-byte pieces of a message arrive as 0, 4, 2, 1: five bytes count as received although piece 3
      never came, with the last byte in its place and an unset byte at the end. */
  lemma ReorderingCanCorrupt(m: seq<byte>, junk: Junk)
    requires |m| == 5
    ensures var b0, b4, b2 := Bucket(0, [m[0]]), Bucket(4, [m[4]]), Bucket(2, [m[2], m[4], junk(1)]);
      && Apart([]) && Arrives([], m, 0, junk) == Placed([b0])
      && Apart([b0]) && Arrives([b0], m, 4, junk) == Placed([b0, b4])
      && Apart([b0, b4]) && Arrives([b0, b4], m, 2, junk) == Placed([b0, b2])
      && Apart([b0, b2]) && Arrives([b0, b2], m, 1, junk) == Placed([Bucket(0, [m[0], m[1], m[2], m[4], junk(1)])])
      && Received([Bucket(0, [m[0], m[1], m[2], m[4], junk(1)])]) == |m|
  {
    hide Arrives, Apart;
    FirstArrives(m, junk);
    LastArrives(m, junk);
    MiddleArrives(m, junk);
    GapCloses(m, junk);
  }

  /** An empty fragment makes a piece without bytes; a fragment in the gap before it is followed by an unset byte. */
  lemma EmptyPieceCorrupts(m: seq<byte>, junk: Junk)
    requires |m| == 5
    ensures var b0, b4 := Bucket(0, [m[0]]), Bucket(4, []);
      && Apart([b0]) && Insert([b0], 4, [], junk) == Placed([b0, b4])
      && Apart([b0, b4]) && Arrives([b0, b4], m, 2, junk) == Placed([b0, Bucket(2, [m[2], junk(0)])])
  {
    var b0, b4 := Bucket(0, [m[0]]), Bucket(4, []);
    var bs := [b0, b4];
    assert [b0] + [b4] == bs;
    assert Place(bs, 2, 0) == Place(bs, 2, 1) == 1;
    ByteMisplaced(bs, m, 2, junk);
    assert Moved(b4, 1, junk) == [junk(0)];
    hide Moved, Insert;
    assert [m[2]] + [junk(0)] == [m[2], junk(0)];
    assert bs[..1] == [b0] && bs[2..] == [];
  }
}
