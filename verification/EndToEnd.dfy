/** From the sender's fragmenter to the receiver's handler. */
module EndToEnd {
  import opened Words
  import opened RtxQueue
  import opened SenderSpec
  import opened SenderProofs
  import opened FragmentProofs
  import opened EmittedFragments
  import opened HandshakeSpec
  import R = HandshakeProofs

  /** The numbers of the handshake header have 24 bits. */
  predicate Sendable(f: Fragment) {
    f.length < 0x100_0000 && f.offset < 0x100_0000 && |f.body| < 0x100_0000
  }

  /** Is the input the fragment behind its handshake header, with padding? */
  ghost predicate CarriesFragment(input: seq<byte>, hsType: HandshakeType, f: Fragment) {
    Sendable(f) && exists padding :: input == EncodeFragment(hsType, f) + padding
  }

  lemma CarriedIsRead(input: seq<byte>, hsType: HandshakeType, f: Fragment)
    requires CarriesFragment(input, hsType, f)
    ensures ParseFragment(input) == (HandshakeSpec.Ok, hsType, f)
  {
    hide EncodeFragment, ParseFragment;
    var padding :| input == EncodeFragment(hsType, f) + padding;
    FragmentRoundTrip(hsType, f, padding);
  }

  /** Does the input carry what the sender wrote or queued with this number? */
  ghost predicate Carries(input: seq<byte>, e: Entry) {
    e.queued && e.payload.Handshake? && CarriesFragment(input, e.payload.hsType, e.payload.frag)
  }

  /** Every arrival carries one of the records of the log, whichever. */
  ghost predicate FromSender(inputs: seq<R.Input>, log: seq<Entry>) {
    forall i :: 0 <= i < |inputs| ==> exists e :: e in log && Carries(inputs[i].arrival.input, e)
  }

  /** What the sender wrote or queued is a true piece of one of its messages. */
  lemma RecordsAreGenuine(s: SenderSpec.State, e: Entry, input: seq<byte>)
    requires OutputOk(s) && Traced(s) && |s.output.messages| < 0x1_0000
    requires e in s.trace.log && Carries(input, e)
    ensures R.Genuine(input, s.output.messages)
    ensures var (ret, hsType, f) := ParseFragment(input); ret == HandshakeSpec.Ok && (f.body == [] ==> f.length == 0)
  {
    hide EncodeFragment, ParseFragment, Tiles;
    var hsType, f := e.payload.hsType, e.payload.frag;
    CarriedIsRead(input, hsType, f);
    assert Traceable(s.output, e);
    var o := s.output;
    var i, k :| 0 <= i < |o.messages| && i < |o.fragments| && 0 <= k < |o.fragments[i]|
      && o.messages[i].hsType == hsType && o.fragments[i][k] == f;
    var upto := if s.buffer.Pending? && i == |o.messages| - 1 then s.buffer.offset else |o.messages[i].body|;
    assert i < |o.messages| - 1 || s.buffer.Idle? ==> Complete(o.fragments[i], NumberOf(i), o.messages[i].body);
    TilesArePieces(o.fragments[i], NumberOf(i), o.messages[i].body, upto, k);
  }

  /** No fragment of the run is misplaced. */
  ghost predicate NoneMisplaced(s: HandshakeSpec.State, inputs: seq<R.Input>)
    requires AllApart(s.msgs)
    decreases |inputs|
  {
    inputs == []
    || (R.ReceiveKeepsApart(s, inputs[0].arrival, inputs[0].junk, inputs[0].plan);
        && R.WellPlaced(s, inputs[0].arrival)
        && NoneMisplaced(Receive(s, inputs[0].arrival, inputs[0].junk, inputs[0].plan).1, inputs[1..]))
  }

  lemma {:induction false} FromSenderIsTrue(r: HandshakeSpec.State, inputs: seq<R.Input>, s: SenderSpec.State)
    requires AllApart(r.msgs) && OutputOk(s) && Traced(s) && |s.output.messages| < 0x1_0000
    requires FromSender(inputs, s.trace.log) && NoneMisplaced(r, inputs)
    ensures R.TrueRun(r, inputs, s.output.messages)
    decreases |inputs|
  {
    hide OutputOk, Traced, Receive, R.Genuine, R.WellPlaced, Carries;
    if inputs != [] {
      R.ReceiveKeepsApart(r, inputs[0].arrival, inputs[0].junk, inputs[0].plan);
      var e :| e in s.trace.log && Carries(inputs[0].arrival.input, e);
      RecordsAreGenuine(s, e, inputs[0].arrival.input);
      FromSenderIsTrue(Receive(r, inputs[0].arrival, inputs[0].junk, inputs[0].plan).1, inputs[1..], s);
    }
  }

  /** From one end to the other: after any run of the sender that disrupts nothing, and for any arrivals made of records
      it sent, lost, repeated and reordered at will but never misplaced, the i-th message accepted by the receiver's
      handler is the i-th message sent, whole and with its type. */
  lemma MessagesArriveAsSent(epochs: nat, rnSize: nat, server: bool, cidSize: byte, ops: seq<Op>,
                             inputs: seq<R.Input>, i: nat)
    requires epochs > 0 && rnSize > 0 && LegalRun(SenderProofs.Start(epochs, rnSize, server, cidSize), ops)
    requires Undisrupted(SenderProofs.Start(epochs, rnSize, server, cidSize), ops)
    requires var s := SenderProofs.Run(SenderProofs.Start(epochs, rnSize, server, cidSize), ops);
      |s.output.messages| < 0x1_0000 && FromSender(inputs, s.trace.log)
    requires NoneMisplaced(R.Start(0), inputs)
    requires i < |R.Run(R.Start(0), inputs).log|
    ensures var ms := SenderProofs.Run(SenderProofs.Start(epochs, rnSize, server, cidSize), ops).output.messages;
      var log := R.Run(R.Start(0), inputs).log; var k := R.Counted(log[..i]);
      k < |ms| && log[i].hsType == ms[k].hsType && log[i].body == ms[k].body
  {
    hide R.Run, SenderProofs.Run, LegalRun, OutputOk, Traced, R.TrueRun, NoneMisplaced, FromSender, R.Counted,
         SenderProofs.Start;
    OnlyFragmentsAreSent(epochs, rnSize, server, cidSize, ops);
    var s := SenderProofs.Run(SenderProofs.Start(epochs, rnSize, server, cidSize), ops);
    FromSenderIsTrue(R.Start(0), inputs, s);
    R.DeliveredAsSent(inputs, s.output.messages, i);
  }

  // ----- and everything sent arrives -----------------------------------------------------------------------------

  /** The input brings a fragment in the given epoch; it passes the checks, and so does the message if it is
      complete. */
  ghost predicate Brings(x: R.Input, hsType: HandshakeType, f: Fragment, epoch: word16) {
    && CarriesFragment(x.arrival.input, hsType, f)
    && x.arrival.epoch == epoch && x.arrival.sane && x.arrival.acceptFragmented && !x.arrival.asyncCrypto
    && FirstVerdict(x.plan).encryptionOk && FirstVerdict(x.plan).result.Success?
  }

  /** The inputs bring the fragments, in order, all in one epoch. */
  ghost predicate BringsAll(xs: seq<R.Input>, hsType: HandshakeType, fs: seq<Fragment>) {
    |xs| == |fs| > 0 && forall k :: 0 <= k < |xs| ==> Brings(xs[k], hsType, fs[k], xs[0].arrival.epoch)
  }

  lemma {:induction false} RunConcat(s: HandshakeSpec.State, a: seq<R.Input>, b: seq<R.Input>)
    requires AllApart(s.msgs)
    ensures AllApart(R.Run(s, a).msgs) && R.Run(s, a + b) == R.Run(R.Run(s, a), b)
    decreases |a|
  {
    hide Receive, AllApart;
    if a == [] {
      assert a + b == b;
    } else {
      assert (a + b)[0] == a[0] && (a + b)[1..] == a[1..] + b;
      R.ReceiveKeepsApart(s, a[0].arrival, a[0].junk, a[0].plan);
      RunConcat(Receive(s, a[0].arrival, a[0].junk, a[0].plan).1, a[1..], b);
    }
  }

  lemma RunSnoc(s: HandshakeSpec.State, a: seq<R.Input>, x: R.Input)
    requires AllApart(s.msgs)
    ensures AllApart(R.Run(s, a).msgs)
      && R.Run(s, a + [x]) == Receive(R.Run(s, a), x.arrival, x.junk, x.plan).1
  {
    hide Receive, AllApart;
    RunConcat(s, a, [x]);
    var r := R.Run(s, a);
    R.ReceiveKeepsApart(r, x.arrival, x.junk, x.plan);
    assert [x][1..] == [];
    assert R.Run(Receive(r, x.arrival, x.junk, x.plan).1, []) == Receive(r, x.arrival, x.junk, x.plan).1;
  }

  /** Nothing is buffered. */
  ghost predicate Clear(s: HandshakeSpec.State, number: word16) { s.msgs == [] && s.expected == number }

  /** Only the first bytes of the expected message are buffered. */
  ghost predicate Begun(s: HandshakeSpec.State, number: word16, epoch: word16, hsType: HandshakeType, m: seq<byte>,
                        upto: nat) {
    s.expected == number && |s.msgs| == 1 && 0 < upto < |m| && Holding(s.msgs[0], number, epoch, hsType, m, upto)
  }

  /** The next piece of the message extends what is there. */
  lemma PieceExtends(m: seq<byte>, from: nat, upto: nat, junk: FragBuckets.Junk)
    requires 0 < from < upto <= |m|
    ensures FragBuckets.Apart([FragBuckets.Bucket(0, m[..from])])
    ensures FragBuckets.Insert([FragBuckets.Bucket(0, m[..from])], from, m[from..upto], junk)
         == FragBuckets.Placed([FragBuckets.Bucket(0, m[..upto])])
  {
    var bs := [FragBuckets.Bucket(0, m[..from])];
    var data := m[from..upto];
    assert m[..from] + data[0..upto - from] == m[..upto];
    assert FragBuckets.Merged(bs, 0, from, data, junk) == FragBuckets.Bucket(0, m[..upto]);
    assert bs[..0] + [FragBuckets.Bucket(0, m[..upto])] + bs[1..] == [FragBuckets.Bucket(0, m[..upto])];
  }

  lemma FirstPiece(m: seq<byte>, upto: nat, junk: FragBuckets.Junk)
    requires 0 < upto <= |m|
    ensures FragBuckets.Apart([])
    ensures FragBuckets.Insert([], 0, m[0..upto], junk) == FragBuckets.Placed([FragBuckets.Bucket(0, m[..upto])])
  {
    assert [] + [FragBuckets.Bucket(0, m[0..upto])] == [FragBuckets.Bucket(0, m[..upto])];
  }

  /** What setting a fragment in a message comes to once its bytes are placed. */
  lemma SetPlaces(msg: Msg, a: Arrival, hsType: HandshakeType, f: Fragment, junk: FragBuckets.Junk,
                  bs: seq<FragBuckets.Bucket>)
    returns (known: Msg)
    requires FragBuckets.Apart(msg.buckets)
      && FragBuckets.Insert(msg.buckets, f.offset, f.body, junk) == FragBuckets.Placed(bs)
    requires msg.size == f.length && f.offset + |f.body| <= f.length && !msg.ready
    requires msg.hsType == NO_SHAKE || (msg.number == f.messageSeq && msg.epoch == a.epoch && msg.hsType == hsType)
    ensures SetMsg(msg, a, hsType, f, junk) == (true, Assembled(known))
    ensures known.number == f.messageSeq && known.epoch == a.epoch && known.hsType == hsType && known.size == f.length
    ensures !known.ready && known.buckets == bs
  {
    hide FragBuckets.Apart, FragBuckets.Insert, Assembled;
    known := if msg.hsType != NO_SHAKE then msg.(encrypted := msg.encrypted && a.encrypted)
                 else msg.(hsType := hsType, epoch := a.epoch, number := f.messageSeq, encrypted := a.encrypted);
    known := known.(buckets := bs);
  }

  lemma AssembledOne(known: Msg, m: seq<byte>, upto: nat)
    requires upto <= |m| == known.size && known.buckets == [FragBuckets.Bucket(0, m[..upto])] && !known.ready
    ensures var m1 := Assembled(known);
      if upto < |m| then m1 == known
      else m1 == known.(ready := true, body := m, buckets := [])
  {
    OnePiece(m[..upto]);
    assert m[..|m|] == m;
    hide FragBuckets.Received;
  }

  /** The message with the fragment set, if it begins or continues a prefix. */
  ghost predicate Holding(msg: Msg, number: word16, epoch: word16, hsType: HandshakeType, m: seq<byte>, upto: nat) {
    && msg.number == number && msg.epoch == epoch && msg.hsType == hsType && msg.size == |m|
    && if upto < |m| then !msg.ready && msg.buckets == [FragBuckets.Bucket(0, m[..upto])]
       else msg.ready && msg.body == m
  }

  /** Setting the next piece in a message that is begun. */
  lemma SetNext(msg: Msg, a: Arrival, hsType: HandshakeType, f: Fragment, m: seq<byte>, junk: FragBuckets.Junk)
    requires 0 < f.offset < f.offset + |f.body| <= |m| == f.length && f.body == m[f.offset..f.offset + |f.body|]
    requires Holding(msg, f.messageSeq, a.epoch, hsType, m, f.offset)
    ensures FragBuckets.Apart(msg.buckets)
    ensures Holding(SetMsg(msg, a, hsType, f, junk).1, f.messageSeq, a.epoch, hsType, m, f.offset + |f.body|)
  {
    hide FragBuckets.Insert, FragBuckets.Apart, SetMsg, Assembled;
    var upto := f.offset + |f.body|;
    PieceExtends(m, f.offset, upto, junk);
    var known := SetPlaces(msg, a, hsType, f, junk, [FragBuckets.Bucket(0, m[..upto])]);
    AssembledOne(known, m, upto);
  }

  /** ... and the first one in a new message. */
  lemma SetFirst(a: Arrival, hsType: HandshakeType, f: Fragment, m: seq<byte>, junk: FragBuckets.Junk)
    requires f.offset == 0 < |f.body| < |m| == f.length && f.body == m[..|f.body|]
    ensures FragBuckets.Apart(NewMsg(f.length).buckets)
    ensures var (ok, m1) := SetMsg(NewMsg(f.length), a, hsType, f, junk);
      ok && Holding(m1, f.messageSeq, a.epoch, hsType, m, |f.body|)
  {
    assert m[0..|f.body|] == m[..|f.body|];
    FirstPiece(m, |f.body|, junk);
    OnePiece(f.body);
    hide FragBuckets.Insert, FragBuckets.Received;
  }

  lemma OnePiece(b: seq<byte>)
    ensures FragBuckets.Received([FragBuckets.Bucket(0, b)]) == |b|
  {
  }

  /** A piece that does not finish the message is buffered behind those before it. */
  lemma PieceArrives(s: HandshakeSpec.State, x: R.Input, hsType: HandshakeType, f: Fragment, m: seq<byte>)
    requires f.offset < f.offset + |f.body| <= |m| == f.length && f.body == m[f.offset..f.offset + |f.body|]
    requires |f.body| < |m| && Brings(x, hsType, f, x.arrival.epoch)
    requires if f.offset == 0 then Clear(s, f.messageSeq)
             else Begun(s, f.messageSeq, x.arrival.epoch, hsType, m, f.offset)
    ensures AllApart(s.msgs)
    ensures var upto := f.offset + |f.body|; var s1 := Receive(s, x.arrival, x.junk, x.plan).1;
      if upto < |m| then s1.log == s.log && Begun(s1, f.messageSeq, x.arrival.epoch, hsType, m, upto)
      else R.OneMore(s.log, s1.log, f.messageSeq, hsType, m) && Clear(s1, Increment16(f.messageSeq))
  {
    CarriedIsRead(x.arrival.input, hsType, f);
    var msgs := PieceStored(s, x, hsType, f, m);
    hide ParseFragment, Store, CarriesFragment, AllApart;
    assert IsComplete(f) == false;
    var s2 := s.(msgs := msgs);
    assert Receive(s, x.arrival, x.junk, x.plan) == ProcessNext(s2, x.plan);
    HandsOver(s2, x.plan);
  }

  lemma PieceStored(s: HandshakeSpec.State, x: R.Input, hsType: HandshakeType, f: Fragment, m: seq<byte>)
    returns (msgs: seq<Msg>)
    requires f.offset < f.offset + |f.body| <= |m| == f.length && f.body == m[f.offset..f.offset + |f.body|]
    requires |f.body| < |m|
    requires if f.offset == 0 then Clear(s, f.messageSeq)
             else Begun(s, f.messageSeq, x.arrival.epoch, hsType, m, f.offset)
    ensures AllApart(s.msgs) && |s.msgs| <= 1 && msgs == Store(s.msgs, x.arrival, hsType, f, x.junk)
    ensures |msgs| == 1 && Holding(msgs[0], f.messageSeq, x.arrival.epoch, hsType, m, f.offset + |f.body|)
  {
    if f.offset == 0 {
      SetFirst(x.arrival, hsType, f, m, x.junk);
    } else {
      SetNext(s.msgs[0], x.arrival, hsType, f, m, x.junk);
      assert FindMsg(s.msgs, x.arrival.epoch, f.messageSeq) == 0;
    }
    hide SetMsg, FragBuckets.Apart, Holding;
    msgs := Store(s.msgs, x.arrival, hsType, f, x.junk);
  }

  /** With one message buffered at most that one is handed over. */
  lemma HandsOver(s: HandshakeSpec.State, plan: seq<Verdict>)
    requires |s.msgs| == 1 && s.msgs[0].number == s.expected
    requires FirstVerdict(plan).encryptionOk && FirstVerdict(plan).result.Success?
    ensures var m := s.msgs[0];
      ProcessNext(s, plan).1 ==
        if m.ready then s.(expected := Increment16(s.expected), msgs := [],
                           log := s.log + [Handed(m.number, m.hsType, m.body, true, FirstVerdict(plan))])
        else s
  {
    if s.msgs[0].ready {
      var s1 := HandOver(s, FirstVerdict(plan)).1;
      assert s1.msgs == [];
      assert ProcessBuffered(s1, RestOf(plan)) == (HandshakeSpec.Ok, s1);
    }
  }

  /** A whole message is handed over at once. */
  lemma WholeArrives(s: HandshakeSpec.State, x: R.Input, hsType: HandshakeType, f: Fragment)
    requires Clear(s, f.messageSeq) && IsComplete(f) && Brings(x, hsType, f, x.arrival.epoch)
    ensures AllApart(s.msgs)
    ensures var s1 := Receive(s, x.arrival, x.junk, x.plan).1;
      R.OneMore(s.log, s1.log, f.messageSeq, hsType, f.body) && Clear(s1, Increment16(f.messageSeq))
  {
    CarriedIsRead(x.arrival.input, hsType, f);
    hide ParseFragment, CarriesFragment;
  }

  lemma ClearIsApart(s: HandshakeSpec.State)
    requires s.msgs == []
    ensures AllApart(s.msgs)
  {
  }

  /** The last fragment of a tiling is a piece, the first of the message exactly if nothing is before it. */
  lemma LastPiece(fs: seq<Fragment>, number: word16, m: seq<byte>, upto: nat)
    requires Tiles(fs, number, m, upto) && fs != [] && m != []
    ensures var f := fs[|fs| - 1];
      && f.messageSeq == number && f.length == |m| && f.offset < upto == f.offset + |f.body| <= |m|
      && f.body == m[f.offset..upto] && Tiles(fs[..|fs| - 1], number, m, f.offset)
      && (f.offset == 0 <==> |fs| == 1)
  {
    var before := fs[..|fs| - 1];
    if before != [] {
      assert before[|before| - 1].body != [];
    }
  }

  /** Bringing all fragments is bringing all but the last and then that one. */
  lemma BringsLast(xs: seq<R.Input>, hsType: HandshakeType, fs: seq<Fragment>)
    requires BringsAll(xs, hsType, fs)
    ensures var n := |xs| - 1;
      && |xs| == |fs| > 0 && Brings(xs[n], hsType, fs[n], xs[n].arrival.epoch)
      && xs[n].arrival.epoch == xs[0].arrival.epoch
      && (n > 0 ==> BringsAll(xs[..n], hsType, fs[..n]) && xs[..n][0] == xs[0])
  {
    assert Brings(xs[|xs| - 1], hsType, fs[|xs| - 1], xs[0].arrival.epoch);
    hide CarriesFragment;
  }

  lemma NothingArrives(s: HandshakeSpec.State, xs: seq<R.Input>)
    requires AllApart(s.msgs) && xs == []
    ensures R.Run(s, xs) == s
  {
  }

  /** One more piece, after those before it. */
  lemma LastPieceArrives(s: HandshakeSpec.State, xs: seq<R.Input>, hsType: HandshakeType, f: Fragment, m: seq<byte>)
    requires AllApart(s.msgs) && xs != []
    requires f.offset < f.offset + |f.body| <= |m| == f.length && f.body == m[f.offset..f.offset + |f.body|]
      && |f.body| < |m|
    requires var n := |xs| - 1; var before := R.Run(s, xs[..n]);
      && Brings(xs[n], hsType, f, xs[n].arrival.epoch)
      && if f.offset == 0 then Clear(before, f.messageSeq)
         else Begun(before, f.messageSeq, xs[n].arrival.epoch, hsType, m, f.offset)
    ensures var upto := f.offset + |f.body|; var s1 := R.Run(s, xs); var n := |xs| - 1; var before := R.Run(s, xs[..n]);
      if upto < |m| then s1.log == before.log && Begun(s1, f.messageSeq, xs[n].arrival.epoch, hsType, m, upto)
      else R.OneMore(before.log, s1.log, f.messageSeq, hsType, m) && Clear(s1, Increment16(f.messageSeq))
  {
    hide R.Run, Receive, AllApart, Brings, Begun, Clear;
    var n := |xs| - 1;
    assert xs[..n] + [xs[n]] == xs;
    RunSnoc(s, xs[..n], xs[n]);
    PieceArrives(R.Run(s, xs[..n]), xs[n], hsType, f, m);
  }

  /** The fragments of a message up to some byte before its end. */
  lemma {:induction false} PiecesArrive(s: HandshakeSpec.State, xs: seq<R.Input>, fs: seq<Fragment>, number: word16,
                                        hsType: HandshakeType, m: seq<byte>, upto: nat)
    requires Clear(s, number) && Tiles(fs, number, m, upto) && 0 < upto < |m| && BringsAll(xs, hsType, fs)
    ensures AllApart(s.msgs)
    ensures var s1 := R.Run(s, xs); s1.log == s.log && Begun(s1, number, xs[0].arrival.epoch, hsType, m, upto)
    decreases |fs|
  {
    ClearIsApart(s);
    hide R.Run, AllApart, Begun, Brings;
    if |fs| > 1 {
      BringsLast(xs, hsType, fs);
      LastPiece(fs, number, m, upto);
      hide Clear, Tiles, BringsAll;
      PiecesArrive(s, xs[..|fs| - 1], fs[..|fs| - 1], number, hsType, m, fs[|fs| - 1].offset);
    }
    hide Clear, Tiles, BringsAll;
    OneMorePiece(s, xs, fs, number, hsType, m, upto);
  }

  lemma OneMorePiece(s: HandshakeSpec.State, xs: seq<R.Input>, fs: seq<Fragment>, number: word16,
                     hsType: HandshakeType, m: seq<byte>, upto: nat)
    requires Clear(s, number) && AllApart(s.msgs) && Tiles(fs, number, m, upto) && 0 < upto < |m|
      && BringsAll(xs, hsType, fs)
    requires |fs| > 1 ==> var before := R.Run(s, xs[..|fs| - 1]);
      before.log == s.log && Begun(before, number, xs[0].arrival.epoch, hsType, m, fs[|fs| - 1].offset)
    ensures var s1 := R.Run(s, xs); s1.log == s.log && Begun(s1, number, xs[0].arrival.epoch, hsType, m, upto)
  {
    hide R.Run, Receive, Tiles, AllApart, Brings, BringsAll, Begun, Clear, CarriesFragment;
    BringsLast(xs, hsType, fs);
    LastPiece(fs, number, m, upto);
    if |fs| == 1 {
      NothingArrives(s, xs[..0]);
    }
    LastPieceArrives(s, xs, hsType, fs[|fs| - 1], m);
  }

  lemma OnlyPiece(fs: seq<Fragment>, number: word16, m: seq<byte>)
    requires Complete(fs, number, m) && |fs| == 1
    ensures fs[0] == Fragment(number, |m|, 0, m)
  {
    assert Tiles(fs[..0], number, m, fs[0].offset);
    assert m[0..|m|] == m;
  }

  lemma OneFragmentArrives(s: HandshakeSpec.State, xs: seq<R.Input>, hsType: HandshakeType, f: Fragment)
    requires Clear(s, f.messageSeq) && |xs| == 1 && IsComplete(f) && Brings(xs[0], hsType, f, xs[0].arrival.epoch)
    ensures AllApart(s.msgs)
    ensures var s1 := R.Run(s, xs);
      R.OneMore(s.log, s1.log, f.messageSeq, hsType, f.body) && Clear(s1, Increment16(f.messageSeq))
  {
    ClearIsApart(s);
    hide R.Run, Receive, AllApart, Brings, Clear;
    assert [] + [xs[0]] == xs;
    RunSnoc(s, [], xs[0]);
    NothingArrives(s, []);
    WholeArrives(s, xs[0], hsType, f);
  }

  /** All fragments of a message, in order: it is handed over, and nothing else. */
  lemma MessageArrives(s: HandshakeSpec.State, xs: seq<R.Input>, fs: seq<Fragment>, number: word16, m: Message)
    requires Clear(s, number) && Complete(fs, number, m.body) && BringsAll(xs, m.hsType, fs)
    ensures AllApart(s.msgs)
    ensures var s1 := R.Run(s, xs);
      R.OneMore(s.log, s1.log, number, m.hsType, m.body) && Clear(s1, Increment16(number))
  {
    ClearIsApart(s);
    hide R.Run, Receive, AllApart, Brings, BringsAll, Begun, Clear, Tiles, Complete, Increment16;
    BringsLast(xs, m.hsType, fs);
    if |fs| == 1 {
      OnlyPiece(fs, number, m.body);
      OneFragmentArrives(s, xs, m.hsType, fs[0]);
    } else {
      SeveralPieces(fs, number, m.body);
      SeveralArrive(s, xs, fs, number, m);
    }
  }

  lemma SeveralArrive(s: HandshakeSpec.State, xs: seq<R.Input>, fs: seq<Fragment>, number: word16, m: Message)
    requires Clear(s, number) && AllApart(s.msgs) && BringsAll(xs, m.hsType, fs)
    requires m.body != [] && Tiles(fs, number, m.body, |m.body|) && |fs| > 1
    ensures var s1 := R.Run(s, xs);
      R.OneMore(s.log, s1.log, number, m.hsType, m.body) && Clear(s1, Increment16(number))
  {
    hide R.Run, Receive, AllApart, Brings, BringsAll, Begun, Clear, Tiles, Increment16;
    var n := |fs| - 1;
    BringsLast(xs, m.hsType, fs);
    LastPiece(fs, number, m.body, |m.body|);
    PiecesArrive(s, xs[..n], fs[..n], number, m.hsType, m.body, fs[n].offset);
    LastPieceArrives(s, xs, m.hsType, fs[n], m.body);
  }

  lemma SeveralPieces(fs: seq<Fragment>, number: word16, m: seq<byte>)
    requires Complete(fs, number, m) && |fs| > 1
    ensures m != [] && Tiles(fs, number, m, |m|)
  {
  }

  // ----- all messages -------------------------------------------------------------------------------------

  function Joined(xss: seq<seq<R.Input>>): seq<R.Input> {
    if xss == [] then [] else Joined(xss[..|xss| - 1]) + xss[|xss| - 1]
  }

  /** The messages were handed over in order, each done with, and nothing else. */
  predicate HandedAll(log: seq<Handed>, ms: seq<Message>) {
    |log| == |ms| && forall i :: 0 <= i < |log| ==> R.Took(log[i], NumberOf(i), ms[i].hsType, ms[i].body)
  }

  lemma OneMoreHanded(log: seq<Handed>, log1: seq<Handed>, ms: seq<Message>, n: nat)
    requires n < |ms| && HandedAll(log, ms[..n]) && R.OneMore(log, log1, NumberOf(n), ms[n].hsType, ms[n].body)
    ensures HandedAll(log1, ms[..n + 1])
  {
  }

  lemma {:induction false} MessagesArrive(o: Output, xss: seq<seq<R.Input>>)
    requires FirstOut(o, |xss|)
    requires forall i :: 0 <= i < |xss| ==> BringsAll(xss[i], o.messages[i].hsType, o.fragments[i])
    ensures var s := R.Run(R.Start(0), Joined(xss));
      HandedAll(s.log, o.messages[..|xss|]) && Clear(s, NumberOf(|xss|))
    decreases |xss|
  {
    hide R.Run, Receive, Complete, BringsAll, AllApart;
    var n := |xss| - 1;
    ClearIsApart(R.Start(0));
    if n < 0 {
      NothingArrives(R.Start(0), Joined(xss));
    } else {
      MessagesArrive(o, xss[..n]);
      hide HandedAll, Clear;
      OneMoreMessage(o, xss);
    }
  }

  lemma NumbersFollow(n: nat)
    ensures Increment16(NumberOf(n)) == NumberOf(n + 1)
  {
  }

  lemma OneMoreMessage(o: Output, xss: seq<seq<R.Input>>)
    requires xss != [] && AllApart(R.Start(0).msgs)
    requires var n := |xss| - 1; var s := R.Run(R.Start(0), Joined(xss[..n]));
      && FirstOut(o, |xss|) && BringsAll(xss[n], o.messages[n].hsType, o.fragments[n])
      && HandedAll(s.log, o.messages[..n]) && Clear(s, NumberOf(n))
    ensures var s := R.Run(R.Start(0), Joined(xss));
      HandedAll(s.log, o.messages[..|xss|]) && Clear(s, NumberOf(|xss|))
  {
    var n := |xss| - 1;
    hide R.Run, Receive, Complete, BringsAll, AllApart, HandedAll, Clear, NumberOf, Increment16;
    var number: word16 := NumberOf(n);
    assert Complete(o.fragments[n], number, o.messages[n].body);
    NumbersFollow(n);
    RunConcat(R.Start(0), Joined(xss[..n]), xss[n]);
    var s := R.Run(R.Start(0), Joined(xss[..n]));
    MessageArrives(s, xss[n], o.fragments[n], number, o.messages[n]);
    OneMoreHanded(s.log, R.Run(s, xss[n]).log, o.messages, n);
  }

  /** Nothing is held back: after any run of the sender that disrupts nothing, when the fragments of the first messages
      arrive in the order in which they were cut and pass every check, exactly those messages have been handed over. */
  lemma EverythingArrives(epochs: nat, rnSize: nat, server: bool, cidSize: byte, ops: seq<Op>, xss: seq<seq<R.Input>>)
    requires epochs > 0 && rnSize > 0 && LegalRun(SenderProofs.Start(epochs, rnSize, server, cidSize), ops)
    requires Undisrupted(SenderProofs.Start(epochs, rnSize, server, cidSize), ops)
    requires var s := SenderProofs.Run(SenderProofs.Start(epochs, rnSize, server, cidSize), ops);
      && |xss| <= |s.output.messages| - (if s.buffer.Pending? then 1 else 0)
      && |s.output.fragments| == |s.output.messages|
      && forall i :: 0 <= i < |xss| ==> BringsAll(xss[i], s.output.messages[i].hsType, s.output.fragments[i])
    ensures var ms := SenderProofs.Run(SenderProofs.Start(epochs, rnSize, server, cidSize), ops).output.messages;
      HandedAll(R.Run(R.Start(0), Joined(xss)).log, ms[..|xss|])
  {
    OnlyFragmentsAreSent(epochs, rnSize, server, cidSize, ops);
    var s := SenderProofs.Run(SenderProofs.Start(epochs, rnSize, server, cidSize), ops);
    assert FirstOut(s.output, |xss|);
    hide SenderProofs.Run, R.Run, LegalRun, SenderProofs.Start, Undisrupted, BringsAll, Complete;
    MessagesArrive(s.output, xss);
  }
}
