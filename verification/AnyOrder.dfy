/** Reordering at the receiver: whatever the order in which the fragments of a flight arrive, the messages handed over
    are those before the first one of which a byte is still missing. */
module AnyOrder {
  import opened Words
  import opened RtxQueue
  import opened FragBuckets
  import opened HandshakeSpec
  import opened HandshakeProofs
  import SenderSpec
  import SenderProofs
  import FragmentProofs
  import EmittedFragments
  import EndToEnd

  /** A flight: its messages, and the epoch in which each is sent. */
  datatype Flight = Flight(messages: seq<Message>, epochs: seq<word16>)
  {
    /** Epochs do not go back. */
    ghost predicate Valid() {
      && |epochs| == |messages| < 0x1_0000
      && forall i, j :: 0 <= i < j < |epochs| ==> epochs[i] <= epochs[j]
    }
  }

  // ----- what has arrived -------------------------------------------------------------------------------

  /** Has byte x of message n arrived? */
  ghost predicate Arrived(fs: seq<Fragment>, n: nat, x: nat) {
    exists f :: f in fs && f.messageSeq == n && f.offset <= x < f.offset + |f.body|
  }

  ghost predicate Heard(fs: seq<Fragment>, n: nat) {
    exists f :: f in fs && f.messageSeq == n
  }

  /** Has message n arrived without a gap? */
  ghost predicate Whole(fs: seq<Fragment>, n: nat, m: Message) {
    Heard(fs, n) && forall x :: 0 <= x < |m.body| ==> Arrived(fs, n, x)
  }

  lemma OneMoreArrived(fs: seq<Fragment>, f: Fragment, n: nat, x: nat)
    ensures Arrived(fs + [f], n, x) <==> Arrived(fs, n, x) || (f.messageSeq == n && f.offset <= x < f.offset + |f.body|)
    ensures Heard(fs + [f], n) <==> Heard(fs, n) || f.messageSeq == n
  {
    assert f in fs + [f];
    assert forall g :: g in fs ==> g in fs + [f];
  }

  lemma WholeGrows(fs: seq<Fragment>, f: Fragment, n: nat, m: Message)
    ensures Whole(fs, n, m) ==> Whole(fs + [f], n, m)
    ensures f.messageSeq != n ==> (Whole(fs + [f], n, m) <==> Whole(fs, n, m))
  {
    forall x ensures Arrived(fs, n, x) ==> Arrived(fs + [f], n, x)
      ensures f.messageSeq != n ==> (Arrived(fs + [f], n, x) <==> Arrived(fs, n, x))
    {
      OneMoreArrived(fs, f, n, x);
    }
    OneMoreArrived(fs, f, n, 0);
  }

  // ----- what is buffered ---------------------------------------------------------------------------------

  /** A buffered message holds exactly what has arrived of it, and is complete exactly when nothing is missing. */
  ghost predicate Holding(msg: Msg, fl: Flight, fs: seq<Fragment>) {
    && TrueMsg(msg, fl.messages) && msg.number < |fl.epochs| && msg.epoch == fl.epochs[msg.number]
    && Heard(fs, msg.number)
    && (msg.ready ==> Whole(fs, msg.number, fl.messages[msg.number]))
    && (!msg.ready ==> msg.buckets != [] && forall x :: 0 <= x ==>
          (Covers(msg.buckets, x) <==> Arrived(fs, msg.number, x)))
  }

  /** Everything handed over is in order, and the rest of what has arrived is buffered, by number. */
  ghost predicate Kept(s: State, fl: Flight, fs: seq<Fragment>) {
    && s.expected <= |fl.messages|
    && |s.log| == s.expected
    && (forall i :: 0 <= i < |s.log| ==> Took(s.log[i], i, fl.messages[i].hsType, fl.messages[i].body))
    && (forall n :: 0 <= n < s.expected ==> Whole(fs, n, fl.messages[n]))
    && SortedByNumber(s.msgs)
    && (forall i :: 0 <= i < |s.msgs| ==> s.expected <= s.msgs[i].number && Holding(s.msgs[i], fl, fs))
    && (forall f :: f in fs ==> f.messageSeq < |fl.messages|)
    && (forall f :: f in fs && f.messageSeq >= s.expected ==> Buffered(s.msgs, f.messageSeq))
  }

  ghost predicate Buffered(msgs: seq<Msg>, n: nat) {
    exists i :: 0 <= i < |msgs| && msgs[i].number == n
  }

  /** The next message is still incomplete. */
  ghost predicate Waiting(s: State, fl: Flight, fs: seq<Fragment>) {
    s.expected < |fl.messages| ==> !Whole(fs, s.expected, fl.messages[s.expected])
  }

  lemma KeptApart(s: State, fl: Flight, fs: seq<Fragment>)
    requires Kept(s, fl, fs)
    ensures AllApart(s.msgs) && TrueState(s, fl.messages)
  {
  }

  /** Nothing is missing of a buffered message exactly when it is complete. */
  lemma ReadyIffWhole(msg: Msg, fl: Flight, fs: seq<Fragment>)
    requires Holding(msg, fl, fs)
    ensures msg.ready <==> Whole(fs, msg.number, fl.messages[msg.number])
  {
    hide Apart, Faithful;
    var m := fl.messages[msg.number];
    if !msg.ready {
      CompleteIffCovered(msg.buckets, m.body);
    }
  }

  // ----- handing over what is complete --------------------------------------------------------------------------

  predicate Accepting(plan: seq<Verdict>) {
    forall i :: 0 <= i < |plan| ==> plan[i].encryptionOk && plan[i].result.Success?
  }

  lemma TailBuffered(msgs: seq<Msg>, n: nat)
    requires msgs != [] && Buffered(msgs, n) && n != msgs[0].number
    ensures Buffered(msgs[1..], n)
  {
    var i :| 0 <= i < |msgs| && msgs[i].number == n;
    assert msgs[1..][i - 1].number == n;
  }

  lemma TailSorted(msgs: seq<Msg>)
    requires msgs != [] && SortedByNumber(msgs)
    ensures SortedByNumber(msgs[1..]) && forall i :: 0 <= i < |msgs[1..]| ==> msgs[0].number < msgs[1..][i].number
  {
    SortedTail(msgs[0], msgs[1..]);
    assert msgs == [msgs[0]] + msgs[1..];
  }

  /** Handing over a complete message. */
  lemma HeadIsNext(msg: Msg, fl: Flight, fs: seq<Fragment>)
    requires Holding(msg, fl, fs) && msg.ready
    ensures msg.number < |fl.messages| && Whole(fs, msg.number, fl.messages[msg.number])
    ensures msg.hsType == fl.messages[msg.number].hsType && msg.body == fl.messages[msg.number].body
  {
  }

  lemma HandOverKept(s: State, v: Verdict, fl: Flight, fs: seq<Fragment>)
    requires fl.Valid() && Kept(s, fl, fs) && NextComplete(s) && v.encryptionOk && v.result.Success?
    ensures HandOver(s, v).0.Ok? && Kept(HandOver(s, v).1, fl, fs)
  {
    hide Holding, Whole, SortedByNumber, Buffered;
    var s1 := HandOver(s, v).1;
    assert Holding(s.msgs[0], fl, fs);
    HeadIsNext(s.msgs[0], fl, fs);
    TailSorted(s.msgs);
    assert s1.expected == s.expected + 1 && s1.msgs == s.msgs[1..];
    assert forall i :: 0 <= i < |s1.msgs| ==> s1.msgs[i] == s.msgs[i + 1];
    forall f | f in fs && f.messageSeq >= s1.expected ensures Buffered(s1.msgs, f.messageSeq) {
      TailBuffered(s.msgs, f.messageSeq);
    }
  }

  lemma HeadIsLeast(msgs: seq<Msg>, i: nat)
    requires SortedByNumber(msgs) && i < |msgs|
    ensures msgs[0].number <= msgs[i].number && (msgs[0].number == msgs[i].number <==> i == 0)
  {
  }

  /** If the next message is there, it is at the head. */
  lemma HeadIfWhole(s: State, fl: Flight, fs: seq<Fragment>)
    requires Kept(s, fl, fs) && s.expected < |fl.messages| && Whole(fs, s.expected, fl.messages[s.expected])
    ensures NextComplete(s)
  {
    var f :| f in fs && f.messageSeq == s.expected;
    assert Buffered(s.msgs, s.expected);
    var i :| 0 <= i < |s.msgs| && s.msgs[i].number == s.expected;
    hide Holding, Whole;
    HeadIsLeast(s.msgs, i);
    assert i == 0;
    assert Holding(s.msgs[0], fl, fs);
    ReadyIffWhole(s.msgs[0], fl, fs);
  }

  /** The loop over buffered messages goes on as far as nothing is missing. */
  lemma {:induction false} ProcessBufferedKept(s: State, plan: seq<Verdict>, fl: Flight, fs: seq<Fragment>)
    requires fl.Valid() && Kept(s, fl, fs) && Accepting(plan)
    ensures Kept(ProcessBuffered(s, plan).1, fl, fs) && Waiting(ProcessBuffered(s, plan).1, fl, fs)
    decreases |s.msgs|
  {
    hide Kept, Whole, HandOver;
    if NextComplete(s) {
      HandOverKept(s, FirstVerdict(plan), fl, fs);
      ProcessBufferedKept(HandOver(s, FirstVerdict(plan)).1, RestOf(plan), fl, fs);
    } else if s.expected < |fl.messages| && Whole(fs, s.expected, fl.messages[s.expected]) {
      HeadIfWhole(s, fl, fs);
    }
  }

  lemma ProcessNextKept(s: State, plan: seq<Verdict>, fl: Flight, fs: seq<Fragment>)
    requires fl.Valid() && Kept(s, fl, fs) && Accepting(plan)
    ensures Kept(ProcessNext(s, plan).1, fl, fs) && Waiting(ProcessNext(s, plan).1, fl, fs)
  {
    hide Kept, Waiting;
    ProcessBufferedKept(s, plan, fl, fs);
  }

  // ----- storing ------------------------------------------------------------------------------------------------

  /** The input is a true fragment of one of the messages. */
  ghost predicate TruePiece(input: seq<byte>, ms: seq<Message>) {
    var (ret, hsType, f) := ParseFragment(input);
    ret == Ok && Genuine(input, ms) && (f.body == [] ==> f.length == 0)
  }

  /** It comes in the epoch of its message and passes the checks, and so do the messages that become complete. */
  ghost predicate Passes(a: Arrival, plan: seq<Verdict>, fl: Flight) {
    var f := ParseFragment(a.input).2;
    && f.messageSeq < |fl.epochs| && a.epoch == fl.epochs[f.messageSeq]
    && a.sane && a.acceptFragmented && !a.asyncCrypto && Accepting(plan)
  }

  /** A true fragment, apart from how it came. */
  ghost predicate PieceOf(f: Fragment, hsType: HandshakeType, epoch: word16, fl: Flight) {
    && f.messageSeq < |fl.messages| && f.messageSeq < |fl.epochs| && epoch == fl.epochs[f.messageSeq]
    && hsType == fl.messages[f.messageSeq].hsType && f.length == |fl.messages[f.messageSeq].body|
    && Holds(Bucket(f.offset, f.body), fl.messages[f.messageSeq].body) && (f.body == [] ==> f.length == 0)
  }

  /** What was not touched by a fragment of another message. */
  lemma OtherHolding(msg: Msg, fl: Flight, fs: seq<Fragment>, f: Fragment)
    requires Holding(msg, fl, fs) && f.messageSeq != msg.number
    ensures Holding(msg, fl, fs + [f])
  {
    WholeGrows(fs, f, msg.number, fl.messages[msg.number]);
    OneMoreArrived(fs, f, msg.number, 0);
    hide Whole, TrueMsg, Arrived, Heard;
    forall x | 0 <= x && !msg.ready ensures Covers(msg.buckets, x) <==> Arrived(fs + [f], msg.number, x) {
      OneMoreArrived(fs, f, msg.number, x);
    }
  }

  /** A message to which the bytes of a fragment have been added. */
  lemma AssembledHolding(known: Msg, fl: Flight, gs: seq<Fragment>)
    requires !known.ready && TrueMsg(Assembled(known), fl.messages)
    requires known.number < |fl.messages| && known.number < |fl.epochs| && known.epoch == fl.epochs[known.number]
    requires known.buckets != [] && Apart(known.buckets) && known.size == |fl.messages[known.number].body|
    requires Faithful(known.buckets, fl.messages[known.number].body)
    requires Heard(gs, known.number) && forall x :: 0 <= x ==>
      (Covers(known.buckets, x) <==> Arrived(gs, known.number, x))
    ensures Holding(Assembled(known), fl, gs)
  {
    CompleteIffCovered(known.buckets, fl.messages[known.number].body);
    hide Apart, Faithful, Covers, Arrived, Heard, Received, TrueMsg;
  }

  /** The bytes of the fragment are added to what is there of its message. */
  lemma SetKeepsHolding(msg: Msg, a: Arrival, hsType: HandshakeType, f: Fragment, junk: Junk, fl: Flight,
                        fs: seq<Fragment>)
    requires Holding(msg, fl, fs) && msg.number == f.messageSeq && PieceOf(f, hsType, a.epoch, fl)
    requires !msg.ready ==>
      !Misplaces(msg.buckets, f.offset, f.offset + |f.body|) && Insert(msg.buckets, f.offset, f.body, junk).Placed?
    ensures Apart(msg.buckets) && Holding(SetMsg(msg, a, hsType, f, junk).1, fl, fs + [f])
  {
    SetKeepsTrue(msg, a, hsType, f, junk, fl.messages);
    WholeGrows(fs, f, msg.number, fl.messages[msg.number]);
    OneMoreArrived(fs, f, msg.number, 0);
    if msg.ready {
      assert SetMsg(msg, a, hsType, f, junk).1 == msg;
      hide SetMsg, Whole, TrueMsg, Arrived, Heard;
    } else {
      var bs := Insert(msg.buckets, f.offset, f.body, junk).buckets;
      var known := EndToEnd.SetPlaces(msg, a, hsType, f, junk, bs);
      InsertKeepsApart(msg.buckets, f.offset, f.body, junk);
      InsertKeepsFaithful(msg.buckets, f.offset, f.body, junk, fl.messages[msg.number].body);
      hide SetMsg, Whole, Insert, Misplaces, Apart, Faithful, Arrived, Covers, Heard, Assembled;
      forall x | 0 <= x ensures Covers(bs, x) <==> Arrived(fs + [f], msg.number, x) {
        InsertCovers(msg.buckets, f.offset, f.body, junk, x);
        OneMoreArrived(fs, f, msg.number, x);
      }
      AssembledHolding(known, fl, fs + [f]);
    }
  }

  lemma NoneCovered(x: nat, b: Bucket)
    ensures !Covers([], x) && (Covers([b], x) <==> b.offset <= x < b.End())
    ensures Apart([])
  {
    assert [b][0] == b;
  }

  /** The first fragment of a message. */
  lemma NewIsHolding(a: Arrival, hsType: HandshakeType, f: Fragment, junk: Junk, fl: Flight, fs: seq<Fragment>)
    requires PieceOf(f, hsType, a.epoch, fl) && !Heard(fs, f.messageSeq)
    ensures Apart(NewMsg(f.length).buckets)
    ensures var (ok, msg) := SetMsg(NewMsg(f.length), a, hsType, f, junk);
      ok && msg.number == f.messageSeq && Holding(msg, fl, fs + [f])
  {
    var b := Bucket(f.offset, f.body);
    NoneCovered(0, b);
    EmptyPlaces(f.offset, f.offset + |f.body|);
    assert Insert([], f.offset, f.body, junk) == Placed([] + [b]);
    assert [] + [b] == [b];
    NothingFalse(fl.messages[f.messageSeq].body);
    SetKeepsTrue(NewMsg(f.length), a, hsType, f, junk, fl.messages);
    InsertKeepsApart([], f.offset, f.body, junk);
    InsertKeepsFaithful([], f.offset, f.body, junk, fl.messages[f.messageSeq].body);
    var known := EndToEnd.SetPlaces(NewMsg(f.length), a, hsType, f, junk, [b]);
    OneMoreArrived(fs, f, f.messageSeq, 0);
    hide SetMsg, Insert, Misplaces, Apart, Faithful, Covers, Assembled;
    forall x | 0 <= x ensures Covers([b], x) <==> Arrived(fs + [f], f.messageSeq, x) {
      NoneCovered(x, b);
      OneMoreArrived(fs, f, f.messageSeq, x);
    }
    AssembledHolding(known, fl, fs + [f]);
  }

  lemma {:induction false} FindMsgFinds(msgs: seq<Msg>, epoch: word16, number: word16)
    ensures FindMsg(msgs, epoch, number) < 0 ==>
      forall i :: 0 <= i < |msgs| ==> !(msgs[i].epoch == epoch && msgs[i].number == number)
  {
    if msgs != [] {
      FindMsgFinds(msgs[1..], epoch, number);
      assert forall i :: 0 < i < |msgs| ==> msgs[i] == msgs[1..][i - 1];
    }
  }

  /** As epochs do not go back, a message finds its place by its number. */
  lemma {:induction false} NumberDecides(msgs: seq<Msg>, item: Msg, fl: Flight)
    requires fl.Valid() && item.number < |fl.epochs| && item.epoch == fl.epochs[item.number]
    requires forall i :: 0 <= i < |msgs| ==> msgs[i].number < |fl.epochs| && msgs[i].epoch == fl.epochs[msgs[i].number]
    ensures MeetsNoOlderEpoch(msgs, item)
  {
    if msgs != [] {
      NumberDecides(msgs[1..], item, fl);
    }
  }

  /** Does the receiver have room for the fragment, and is it well placed in what is buffered of its message? */
  ghost predicate Placeable(s: State, a: Arrival, f: Fragment, junk: Junk) {
    && |s.msgs| < DTLS_POOL_SZ
    && forall i :: 0 <= i < |s.msgs| && s.msgs[i].number == f.messageSeq && !s.msgs[i].ready ==>
         && Apart(s.msgs[i].buckets)
         && !Misplaces(s.msgs[i].buckets, f.offset, f.offset + |f.body|)
         && Insert(s.msgs[i].buckets, f.offset, f.body, junk).Placed?
  }

  /** The fragment joins a message that is buffered. */
  lemma JoinsMessage(s: State, a: Arrival, hsType: HandshakeType, f: Fragment, junk: Junk, fl: Flight,
                     fs: seq<Fragment>, i: nat)
    requires Kept(s, fl, fs) && PieceOf(f, hsType, a.epoch, fl) && Placeable(s, a, f, junk)
    requires i < |s.msgs| && s.msgs[i].number == f.messageSeq
    ensures Apart(s.msgs[i].buckets)
    ensures var msg := SetMsg(s.msgs[i], a, hsType, f, junk).1;
      Holding(msg, fl, fs + [f]) && msg.number == f.messageSeq
      && Kept(s.(msgs := s.msgs[i := msg]), fl, fs + [f])
  {
    assert Holding(s.msgs[i], fl, fs);
    SetKeepsHolding(s.msgs[i], a, hsType, f, junk, fl, fs);
    SetKeepsNumber(s.msgs[i], a, hsType, f, junk);
    hide SetMsg, Kept, Holding, Placeable;
    UpdatedKept(s, i, SetMsg(s.msgs[i], a, hsType, f, junk).1, fl, fs, f);
  }

  lemma UpdatedKept(s: State, i: nat, msg: Msg, fl: Flight, fs: seq<Fragment>, f: Fragment)
    requires Kept(s, fl, fs) && i < |s.msgs| && s.msgs[i].number == f.messageSeq < |fl.messages|
    requires Holding(msg, fl, fs + [f]) && msg.number == f.messageSeq
    ensures Kept(s.(msgs := s.msgs[i := msg]), fl, fs + [f])
  {
    hide Holding, Whole, SortedByNumber, Buffered;
    var msgs := s.msgs[i := msg];
    forall j | 0 <= j < |msgs| ensures s.expected <= msgs[j].number && Holding(msgs[j], fl, fs + [f]) {
      if j != i {
        OtherIsOther(s.msgs, i, j);
        OtherHolding(s.msgs[j], fl, fs, f);
      }
    }
    BufferedUpdated(s.msgs, i, msgs);
    FewerMissing(s, fl, fs, f);
  }

  lemma SetKeepsNumber(msg: Msg, a: Arrival, hsType: HandshakeType, f: Fragment, junk: Junk)
    requires Apart(msg.buckets) && msg.number == f.messageSeq
    ensures SetMsg(msg, a, hsType, f, junk).1.number == msg.number
  {
    hide Insert, Apart, Received;
  }

  lemma OtherIsOther(msgs: seq<Msg>, i: nat, j: nat)
    requires SortedByNumber(msgs) && i < |msgs| && j < |msgs| && i != j
    ensures msgs[i].number != msgs[j].number
  {
  }

  lemma BufferedUpdated(msgs: seq<Msg>, i: nat, ms: seq<Msg>)
    requires i < |msgs| == |ms| && ms == msgs[i := ms[i]] && ms[i].number == msgs[i].number
    ensures SortedByNumber(msgs) ==> SortedByNumber(ms)
    ensures forall n: nat :: Buffered(msgs, n) ==> Buffered(ms, n)
    ensures Buffered(ms, ms[i].number)
  {
    forall n: nat | Buffered(msgs, n) ensures Buffered(ms, n) {
      var k :| 0 <= k < |msgs| && msgs[k].number == n;
      assert ms[k].number == n;
    }
  }

  /** Messages handed over stay whole. */
  lemma FewerMissing(s: State, fl: Flight, fs: seq<Fragment>, f: Fragment)
    requires s.expected <= |fl.messages| && forall n :: 0 <= n < s.expected ==> Whole(fs, n, fl.messages[n])
    ensures forall n :: 0 <= n < s.expected ==> Whole(fs + [f], n, fl.messages[n])
  {
    forall n | 0 <= n < s.expected ensures Whole(fs + [f], n, fl.messages[n]) {
      WholeGrows(fs, f, n, fl.messages[n]);
    }
  }

  /** A message of which nothing is buffered, and which was not handed over, has not been heard of. */
  lemma NotHeard(s: State, fl: Flight, fs: seq<Fragment>, n: nat)
    requires Kept(s, fl, fs) && n >= s.expected && !Buffered(s.msgs, n)
    ensures !Heard(fs, n)
  {
  }

  lemma InsertedBuffered(msgs: seq<Msg>, item: Msg, n: nat)
    ensures Buffered(InsertMsg(msgs, item), n) <==> Buffered(msgs, n) || n == item.number
  {
    var ms := InsertMsg(msgs, item);
    if Buffered(ms, n) {
      var i :| 0 <= i < |ms| && ms[i].number == n;
      InsertMsgAdds(msgs, item, ms[i]);
    }
    if Buffered(msgs, n) {
      var i :| 0 <= i < |msgs| && msgs[i].number == n;
      InsertMsgAdds(msgs, item, msgs[i]);
    }
    InsertMsgAdds(msgs, item, item);
  }

  lemma InsertedSorted(msgs: seq<Msg>, msg: Msg, fl: Flight, fs: seq<Fragment>, gs: seq<Fragment>)
    requires fl.Valid() && SortedByNumber(msgs) && Holding(msg, fl, gs) && !Buffered(msgs, msg.number)
    requires forall i :: 0 <= i < |msgs| ==> Holding(msgs[i], fl, fs)
    ensures SortedByNumber(InsertMsg(msgs, msg))
  {
    hide Whole, Heard, Arrived, TrueMsg, SortedByNumber;
    OwnNumbers(msgs);
    NumberDecides(msgs, msg, fl);
    hide Holding, Buffered, MeetsNoOlderEpoch;
    InsertKeepsSorted(msgs, msg);
  }

  lemma InsertedHolding(msgs: seq<Msg>, msg: Msg, fl: Flight, fs: seq<Fragment>, f: Fragment, low: nat)
    requires Holding(msg, fl, fs + [f]) && msg.number == f.messageSeq >= low && !Buffered(msgs, msg.number)
    requires forall i :: 0 <= i < |msgs| ==> low <= msgs[i].number && Holding(msgs[i], fl, fs)
    ensures var ms := InsertMsg(msgs, msg); forall i :: 0 <= i < |ms| ==>
      low <= ms[i].number && Holding(ms[i], fl, fs + [f])
  {
    OwnNumbers(msgs);
    hide Holding, Buffered;
    forall i | 0 <= i < |msgs| ensures Holding(msgs[i], fl, fs + [f]) {
      OtherHolding(msgs[i], fl, fs, f);
    }
    InsertMsgHolds(msgs, msg, ((m: Msg) => low <= m.number && Holding(m, fl, fs + [f])));
  }

  lemma InsertedKept(s: State, msg: Msg, fl: Flight, fs: seq<Fragment>, f: Fragment)
    requires fl.Valid() && Kept(s, fl, fs) && Holding(msg, fl, fs + [f]) && f.messageSeq < |fl.messages|
    requires msg.number == f.messageSeq >= s.expected && !Buffered(s.msgs, f.messageSeq)
    ensures Kept(s.(msgs := InsertMsg(s.msgs, msg)), fl, fs + [f])
  {
    hide Holding, Whole, SortedByNumber, Buffered;
    InsertedSorted(s.msgs, msg, fl, fs, fs + [f]);
    InsertedHolding(s.msgs, msg, fl, fs, f, s.expected);
    FewerMissing(s, fl, fs, f);
    forall g | g in fs + [f] && g.messageSeq >= s.expected ensures Buffered(InsertMsg(s.msgs, msg), g.messageSeq) {
      InsertedBuffered(s.msgs, msg, g.messageSeq);
    }
  }

  /** The fragment begins a message. */
  lemma StartsMessage(s: State, a: Arrival, hsType: HandshakeType, f: Fragment, junk: Junk, fl: Flight,
                      fs: seq<Fragment>)
    requires fl.Valid() && Kept(s, fl, fs) && PieceOf(f, hsType, a.epoch, fl) && f.messageSeq >= s.expected
    requires !Buffered(s.msgs, f.messageSeq)
    ensures Apart(NewMsg(f.length).buckets)
    ensures var (ok, msg) := SetMsg(NewMsg(f.length), a, hsType, f, junk);
      ok && Kept(s.(msgs := InsertMsg(s.msgs, msg)), fl, fs + [f])
  {
    hide SetMsg, Kept, Holding, Apart, Buffered, Heard;
    NotHeard(s, fl, fs, f.messageSeq);
    NewIsHolding(a, hsType, f, junk, fl, fs);
    InsertedKept(s, SetMsg(NewMsg(f.length), a, hsType, f, junk).1, fl, fs, f);
  }

  lemma OwnNumbers(msgs: seq<Msg>)
    ensures forall i :: 0 <= i < |msgs| ==> Buffered(msgs, msgs[i].number)
  {
  }

  /** Storing a fragment of a message not handed over yet. */
  lemma StoreKept(s: State, a: Arrival, hsType: HandshakeType, f: Fragment, junk: Junk, fl: Flight, fs: seq<Fragment>)
    requires fl.Valid() && Kept(s, fl, fs) && PieceOf(f, hsType, a.epoch, fl) && f.messageSeq >= s.expected
    requires Placeable(s, a, f, junk)
    ensures AllApart(s.msgs) && Kept(s.(msgs := Store(s.msgs, a, hsType, f, junk)), fl, fs + [f])
  {
    KeptApart(s, fl, fs);
    FoundByNumber(s, fl, fs, a.epoch, f.messageSeq);
    hide Kept, SetMsg, FindMsg, Placeable, Apart;
    var i := FindMsg(s.msgs, a.epoch, f.messageSeq);
    if i >= 0 {
      JoinsMessage(s, a, hsType, f, junk, fl, fs, i);
    } else {
      StartsMessage(s, a, hsType, f, junk, fl, fs);
    }
  }

  lemma FoundByNumber(s: State, fl: Flight, fs: seq<Fragment>, epoch: word16, n: word16)
    requires Kept(s, fl, fs) && n < |fl.epochs| && epoch == fl.epochs[n]
    ensures FindMsg(s.msgs, epoch, n) < 0 <==> !Buffered(s.msgs, n)
  {
    FindMsgFinds(s.msgs, epoch, n);
    hide SortedByNumber, Whole, FindMsg, TrueMsg;
    if Buffered(s.msgs, n) {
      var i :| 0 <= i < |s.msgs| && s.msgs[i].number == n;
      assert Holding(s.msgs[i], fl, fs);
    }
  }

  // ----- one arrival -----------------------------------------------------------------------------------------------

  /** Is the message handed over as it arrives, without being buffered? */
  predicate Direct(s: State, f: Fragment) { IsComplete(f) && f.messageSeq == s.expected }

  /** Unless its message was handed over before the fragment is placed in what is buffered of it, and no whole message
      arrives that is expected next and of which a part is buffered. */
  ghost predicate Fits(s: State, x: Input, fl: Flight) {
    var f := ParseFragment(x.arrival.input).2;
    && Passes(x.arrival, x.plan, fl)
    && (f.messageSeq >= s.expected && !Direct(s, f) ==> Placeable(s, x.arrival, f, x.junk))
    && (Direct(s, f) ==> !Buffered(s.msgs, f.messageSeq))
  }

  /** A fragment of a message handed over before. */
  lemma OldIgnored(s: State, fl: Flight, fs: seq<Fragment>, f: Fragment)
    requires Kept(s, fl, fs) && Waiting(s, fl, fs) && f.messageSeq < s.expected
    ensures Kept(s, fl, fs + [f]) && Waiting(s, fl, fs + [f])
  {
    FewerMissing(s, fl, fs, f);
    if s.expected < |fl.messages| {
      WholeGrows(fs, f, s.expected, fl.messages[s.expected]);
    }
    hide Holding, Whole, SortedByNumber, Buffered;
    forall i | 0 <= i < |s.msgs| ensures Holding(s.msgs[i], fl, fs + [f]) {
      OtherHolding(s.msgs[i], fl, fs, f);
    }
  }

  lemma WholeAtOnce(f: Fragment, fs: seq<Fragment>, m: Message)
    requires IsComplete(f) && f.length == |m.body|
    ensures Whole(fs + [f], f.messageSeq, m)
  {
    OneMoreArrived(fs, f, f.messageSeq, 0);
    forall x | 0 <= x < |m.body| ensures Arrived(fs + [f], f.messageSeq, x) {
      OneMoreArrived(fs, f, f.messageSeq, x);
    }
  }

  /** The next message arrives whole, and nothing of it is buffered. */
  lemma DirectKept(s: State, hsType: HandshakeType, f: Fragment, epoch: word16, v: Verdict, fl: Flight,
                   fs: seq<Fragment>)
    requires fl.Valid() && Kept(s, fl, fs) && PieceOf(f, hsType, epoch, fl) && v.result.Success?
    requires Direct(s, f) && !Buffered(s.msgs, f.messageSeq)
    ensures Kept(s.(log := s.log + [Handed(f.messageSeq, hsType, f.body, false, v)],
                    expected := Increment16(s.expected)), fl, fs + [f])
  {
    var m := fl.messages[f.messageSeq];
    assert f.body == m.body[0..|m.body|] == m.body;
    WholeAtOnce(f, fs, m);
    FewerMissing(s, fl, fs, f);
    OwnNumbers(s.msgs);
    hide Holding, Whole, SortedByNumber, Buffered;
    forall i | 0 <= i < |s.msgs| ensures s.expected + 1 <= s.msgs[i].number && Holding(s.msgs[i], fl, fs + [f]) {
      OtherHolding(s.msgs[i], fl, fs, f);
    }
  }

  lemma BringsPiece(a: Arrival, plan: seq<Verdict>, fl: Flight)
    requires TruePiece(a.input, fl.messages) && Passes(a, plan, fl)
    ensures var (ret, hsType, f) := ParseFragment(a.input);
      ret == Ok && PieceOf(f, hsType, a.epoch, fl) && f.offset + |f.body| <= f.length
  {
    hide ParseFragment;
  }

  lemma ReceiveKept(s: State, x: Input, fl: Flight, fs: seq<Fragment>)
    requires fl.Valid() && Kept(s, fl, fs) && Waiting(s, fl, fs)
    requires TruePiece(x.arrival.input, fl.messages) && Fits(s, x, fl)
    ensures AllApart(s.msgs)
    ensures var s1 := Receive(s, x.arrival, x.junk, x.plan).1; var f := ParseFragment(x.arrival.input).2;
      Kept(s1, fl, fs + [f]) && Waiting(s1, fl, fs + [f])
  {
    KeptApart(s, fl, fs);
    BringsPiece(x.arrival, x.plan, fl);
    hide ParseFragment, Kept, Waiting, PieceOf, Store, ProcessNext, AllApart, Placeable, Buffered, Increment16;
    var (ret, hsType, f) := ParseFragment(x.arrival.input);
    if f.messageSeq < s.expected {
      OldIgnored(s, fl, fs, f);
    } else if Direct(s, f) {
      var v := FirstVerdict(x.plan);
      DirectKept(s, hsType, f, x.arrival.epoch, v, fl, fs);
      var s1 := s.(log := s.log + [Handed(f.messageSeq, hsType, f.body, false, v)],
                   expected := Increment16(s.expected));
      ProcessNextKept(s1, RestOf(x.plan), fl, fs + [f]);
    } else {
      StoreKept(s, x.arrival, hsType, f, x.junk, fl, fs);
      ProcessNextKept(s.(msgs := Store(s.msgs, x.arrival, hsType, f, x.junk)), x.plan, fl, fs + [f]);
    }
  }

  // ----- whole runs --------------------------------------------------------------------------------------------------

  /** Every input of the run fits as it arrives. */
  ghost predicate AllFit(s: State, inputs: seq<Input>, fl: Flight)
    requires AllApart(s.msgs)
    decreases |inputs|
  {
    inputs == []
    || (ReceiveKeepsApart(s, inputs[0].arrival, inputs[0].junk, inputs[0].plan);
        && Fits(s, inputs[0], fl)
        && AllFit(Receive(s, inputs[0].arrival, inputs[0].junk, inputs[0].plan).1, inputs[1..], fl))
  }

  ghost predicate AllTrue(inputs: seq<Input>, ms: seq<Message>) {
    forall i :: 0 <= i < |inputs| ==> TruePiece(inputs[i].arrival.input, ms)
  }

  /** The fragments that arrived. */
  function Fragments(inputs: seq<Input>): (fs: seq<Fragment>)
    ensures |fs| == |inputs|
  {
    if inputs == [] then [] else [ParseFragment(inputs[0].arrival.input).2] + Fragments(inputs[1..])
  }

  lemma {:induction false} RunKept(s: State, inputs: seq<Input>, fl: Flight, fs: seq<Fragment>)
    requires fl.Valid() && AllApart(s.msgs) && Kept(s, fl, fs) && Waiting(s, fl, fs)
    requires AllTrue(inputs, fl.messages) && AllFit(s, inputs, fl)
    ensures Kept(Run(s, inputs), fl, fs + Fragments(inputs)) && Waiting(Run(s, inputs), fl, fs + Fragments(inputs))
    decreases |inputs|
  {
    hide Receive, Kept, Waiting, Fits, TruePiece, AllApart, ParseFragment, Fragments, AllTrue;
    if inputs == [] {
      NoFragments(inputs, fs);
    } else {
      FirstFragment(inputs, fl.messages, fs);
      ReceiveKept(s, inputs[0], fl, fs);
      ReceiveKeepsApart(s, inputs[0].arrival, inputs[0].junk, inputs[0].plan);
      var f := ParseFragment(inputs[0].arrival.input).2;
      RunKept(Receive(s, inputs[0].arrival, inputs[0].junk, inputs[0].plan).1, inputs[1..], fl, fs + [f]);
    }
  }

  lemma NoFragments(inputs: seq<Input>, fs: seq<Fragment>)
    requires inputs == []
    ensures fs + Fragments(inputs) == fs
  {
  }

  lemma FirstFragment(inputs: seq<Input>, ms: seq<Message>, fs: seq<Fragment>)
    requires inputs != [] && AllTrue(inputs, ms)
    ensures TruePiece(inputs[0].arrival.input, ms) && AllTrue(inputs[1..], ms)
    ensures fs + Fragments(inputs) == (fs + [ParseFragment(inputs[0].arrival.input).2]) + Fragments(inputs[1..])
  {
    hide ParseFragment, TruePiece;
  }

  lemma StartKept(fl: Flight)
    requires fl.Valid()
    ensures Kept(Start(0), fl, []) && Waiting(Start(0), fl, []) && AllApart(Start(0).msgs)
  {
  }

  /** Exactly the messages before the first one of which something is missing have been handed over, whole and in
      order. */
  ghost predicate UpToFirstGap(log: seq<Handed>, ms: seq<Message>, fs: seq<Fragment>) {
    && |log| <= |ms| < 0x1_0000
    && (forall i :: 0 <= i < |log| ==> Took(log[i], i, ms[i].hsType, ms[i].body) && Whole(fs, i, ms[i]))
    && (|log| < |ms| ==> !Whole(fs, |log|, ms[|log|]))
  }

  /** In whatever order the pieces of a flight arrive, repeated at will. */
  lemma HandedUpToFirstGap(fl: Flight, inputs: seq<Input>)
    requires fl.Valid() && AllTrue(inputs, fl.messages) && AllApart(Start(0).msgs) && AllFit(Start(0), inputs, fl)
    ensures UpToFirstGap(Run(Start(0), inputs).log, fl.messages, Fragments(inputs))
  {
    hide Run, AllFit, AllTrue, Kept, Waiting, UpToFirstGap, Fragments;
    StartKept(fl);
    RunKept(Start(0), inputs, fl, []);
    assert [] + Fragments(inputs) == Fragments(inputs);
    KeptUpToGap(Run(Start(0), inputs), fl, Fragments(inputs));
  }

  lemma KeptUpToGap(s: State, fl: Flight, fs: seq<Fragment>)
    requires fl.Valid() && Kept(s, fl, fs) && Waiting(s, fl, fs)
    ensures UpToFirstGap(s.log, fl.messages, fs)
  {
    hide Whole, Holding, SortedByNumber;
  }

  // ----- a stale head ------------------------------------------------------------------------------------------------

  /** The first buffered message was handed over before. */
  predicate Stale(s: State) { s.msgs != [] && s.msgs[0].number < s.expected }

  lemma KeptIsNotStale(s: State, fl: Flight, fs: seq<Fragment>)
    requires Kept(s, fl, fs)
    ensures !Stale(s)
  {
  }

  lemma HeadIsNextOne(s: State, fl: Flight, fs: seq<Fragment>)
    requires Kept(s, fl, fs) && Buffered(s.msgs, s.expected)
    ensures s.msgs != [] && s.msgs[0].number == s.expected
  {
    hide Holding, Whole, SortedByNumber;
    var i :| 0 <= i < |s.msgs| && s.msgs[i].number == s.expected;
    HeadIsLeast(s.msgs, i);
  }

  lemma BecomesStale(s: State, x: Input, f: Fragment)
    requires AllApart(s.msgs) && s.msgs != [] && s.msgs[0].number == s.expected < 0xFFFF
    requires f == ParseFragment(x.arrival.input).2 && ParseFragment(x.arrival.input).0 == Ok && Direct(s, f)
    requires x.arrival.sane && !x.arrival.asyncCrypto && FirstVerdict(x.plan).result.Success?
    ensures Stale(Receive(s, x.arrival, x.junk, x.plan).1)
  {
    hide ParseFragment, AllApart, Store;
  }

  /** The head of the list becomes stale if and only if the next message arrives whole while a part of it is
      buffered. */
  lemma StaleExactly(s: State, x: Input, fl: Flight, fs: seq<Fragment>)
    requires fl.Valid() && Kept(s, fl, fs) && Waiting(s, fl, fs) && AllApart(s.msgs)
    requires TruePiece(x.arrival.input, fl.messages) && Passes(x.arrival, x.plan, fl)
    requires var f := ParseFragment(x.arrival.input).2;
      f.messageSeq >= s.expected && !Direct(s, f) ==> Placeable(s, x.arrival, f, x.junk)
    ensures var f := ParseFragment(x.arrival.input).2;
      Stale(Receive(s, x.arrival, x.junk, x.plan).1) <==> Direct(s, f) && Buffered(s.msgs, s.expected)
  {
    var (ret, hsType, f) := ParseFragment(x.arrival.input);
    if Direct(s, f) && Buffered(s.msgs, s.expected) {
      hide ParseFragment, AllApart, PieceOf, Holding, Whole, Receive, Stale, Waiting;
      BringsPiece(x.arrival, x.plan, fl);
      HeadIsNextOne(s, fl, fs);
      hide Kept;
      BecomesStale(s, x, f);
    } else {
      hide Receive, Kept, Waiting, ParseFragment, Buffered, Stale;
      ReceiveKept(s, x, fl, fs);
      KeptIsNotStale(Receive(s, x.arrival, x.junk, x.plan).1, fl, fs + [f]);
    }
  }

  lemma {:induction false} FindMsgIs(msgs: seq<Msg>, epoch: word16, number: word16)
    requires msgs != [] && msgs[0].number != number
    ensures FindMsg(msgs, epoch, number) != 0
  {
  }

  lemma StoreKeepsHead(msgs: seq<Msg>, a: Arrival, hsType: HandshakeType, f: Fragment, junk: Junk)
    requires AllApart(msgs) && msgs != [] && msgs[0].number < f.messageSeq
    ensures var ms := Store(msgs, a, hsType, f, junk); ms != [] && ms[0] == msgs[0]
  {
    FindMsgIs(msgs, a.epoch, f.messageSeq);
    assert Apart(NewMsg(f.length).buckets) by { EmptyApart(); }
    NewNumber(a, hsType, f, junk);
    hide SetMsg, FindMsg, Apart;
  }

  lemma NewNumber(a: Arrival, hsType: HandshakeType, f: Fragment, junk: Junk)
    requires Apart(NewMsg(f.length).buckets)
    ensures var (ok, msg) := SetMsg(NewMsg(f.length), a, hsType, f, junk); ok ==> msg.number == f.messageSeq
  {
    hide Insert, Apart, Received;
  }

  /** With a stale head an arrival is handed over only if it is a whole message itself. */
  lemma StaleStays(s: State, a: Arrival, junk: Junk, plan: seq<Verdict>)
    requires AllApart(s.msgs) && Stale(s) && s.expected < 0xFFFF
    ensures var s1 := Receive(s, a, junk, plan).1; var (ret, hsType, f) := ParseFragment(a.input);
      && s1.msgs != [] && s1.msgs[0] == s.msgs[0] && s.expected <= s1.expected <= s.expected + 1
      && (s1.log == s.log
          || (IsComplete(f) && exists v :: s1.log == s.log + [Handed(f.messageSeq, hsType, f.body, false, v)]))
  {
    hide ParseFragment, Store;
    var (ret, hsType, f) := ParseFragment(a.input);
    if f.messageSeq >= s.expected {
      StoreKeepsHead(s.msgs, a, hsType, f, junk);
    }
    hide AllApart;
  }

  /** A message handed over that one of the inputs brought whole. */
  ghost predicate CameWhole(h: Handed, inputs: seq<Input>) {
    exists x :: x in inputs && var (ret, hsType, f) := ParseFragment(x.arrival.input);
      IsComplete(f) && h.number == f.messageSeq && h.hsType == hsType && h.body == f.body
  }

  /** A stale head blocks the list for good (within 65536 messages): whatever arrives, it stays, and nothing is handed
      over but what arrives as a whole message. */
  lemma {:induction false} StaleForever(s: State, inputs: seq<Input>)
    requires AllApart(s.msgs) && Stale(s) && s.expected + |inputs| < 0x1_0000
    ensures var s1 := Run(s, inputs);
      && s1.msgs != [] && s1.msgs[0] == s.msgs[0] && s.log <= s1.log
      && forall i :: |s.log| <= i < |s1.log| ==> CameWhole(s1.log[i], inputs)
    decreases |inputs|
  {
    if inputs != [] {
      var x, rest := inputs[0], inputs[1..];
      StaleStays(s, x.arrival, x.junk, x.plan);
      ReceiveKeepsApart(s, x.arrival, x.junk, x.plan);
      hide Receive, AllApart, ParseFragment, CameWhole;
      var s2 := Receive(s, x.arrival, x.junk, x.plan).1;
      StaleForever(s2, rest);
      LaterCameWhole(s, x, s2, Run(s2, rest), rest);
      assert [x] + rest == inputs;
    }
  }

  lemma LaterCameWhole(s: State, x: Input, s2: State, s3: State, rest: seq<Input>)
    requires var (ret, hsType, f) := ParseFragment(x.arrival.input);
      s2.log == s.log
      || (IsComplete(f) && exists v :: s2.log == s.log + [Handed(f.messageSeq, hsType, f.body, false, v)])
    requires |s2.log| <= |s3.log| && forall i :: |s2.log| <= i < |s3.log| ==> CameWhole(s3.log[i], rest)
    requires s2.log <= s3.log
    ensures forall i :: |s.log| <= i < |s3.log| ==> CameWhole(s3.log[i], [x] + rest)
  {
    hide ParseFragment;
    forall i | |s.log| <= i < |s3.log| ensures CameWhole(s3.log[i], [x] + rest) {
      if i < |s2.log| {
        assert x in [x] + rest && s3.log[i] == s2.log[i];
      } else {
        assert forall y :: y in rest ==> y in [x] + rest;
      }
    }
  }

  // ----- from the sender ---------------------------------------------------------------------------------------------

  lemma SentIsTrue(s: SenderSpec.State, inputs: seq<Input>)
    requires FragmentProofs.OutputOk(s) && EmittedFragments.Traced(s) && |s.output.messages| < 0x1_0000
    requires EndToEnd.FromSender(inputs, s.trace.log)
    ensures AllTrue(inputs, s.output.messages)
  {
    hide FragmentProofs.OutputOk, EmittedFragments.Traced, EndToEnd.Carries, Genuine, ParseFragment;
    forall i | 0 <= i < |inputs| ensures TruePiece(inputs[i].arrival.input, s.output.messages) {
      var e :| e in s.trace.log && EndToEnd.Carries(inputs[i].arrival.input, e);
      EndToEnd.RecordsAreGenuine(s, e, inputs[i].arrival.input);
    }
  }

  /** Nothing is held back: after any run of the sender that disrupts nothing, of the records it wrote or queued,
      arriving in any order and repeated at will, the messages before the first gap have been handed over, each as it
      was sent. */
  lemma NothingIsHeldBack(epochs: nat, rnSize: nat, server: bool, cidSize: byte, ops: seq<SenderSpec.Op>,
                          inputs: seq<Input>, messageEpochs: seq<word16>)
    requires epochs > 0 && rnSize > 0 && SenderProofs.LegalRun(SenderProofs.Start(epochs, rnSize, server, cidSize), ops)
    requires FragmentProofs.Undisrupted(SenderProofs.Start(epochs, rnSize, server, cidSize), ops)
    requires var s := SenderProofs.Run(SenderProofs.Start(epochs, rnSize, server, cidSize), ops);
      var fl := Flight(s.output.messages, messageEpochs);
      && EndToEnd.FromSender(inputs, s.trace.log)
      && fl.Valid() && AllApart(Start(0).msgs) && AllFit(Start(0), inputs, fl)
    ensures var s := SenderProofs.Run(SenderProofs.Start(epochs, rnSize, server, cidSize), ops);
      UpToFirstGap(Run(Start(0), inputs).log, s.output.messages, Fragments(inputs))
  {
    hide SenderProofs.Run, SenderProofs.LegalRun, SenderProofs.Start, FragmentProofs.Undisrupted,
         FragmentProofs.OutputOk,
         EmittedFragments.Traced, EndToEnd.FromSender, Run, AllFit, AllTrue, UpToFirstGap, Fragments;
    EmittedFragments.OnlyFragmentsAreSent(epochs, rnSize, server, cidSize, ops);
    var s := SenderProofs.Run(SenderProofs.Start(epochs, rnSize, server, cidSize), ops);
    SentIsTrue(s, inputs);
    HandedUpToFirstGap(Flight(s.output.messages, messageEpochs), inputs);
  }
}
