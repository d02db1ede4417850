/** Section 5.2 of RFC 9147: whatever arrives and however the handler answers, messages are handed over by
    consecutive numbers; and they are the messages sent, as long as no fragment is misplaced. */
module HandshakeProofs {
  import opened Words
  import opened RtxQueue
  import opened FragBuckets
  import opened HandshakeSpec

  // ----- order ---------------------------------------------------------------------------------

  /** Is the message done with: the handler accepted it; or it came from the buffer, and only the reply is still to be
      flushed, or it asks for a certificate after the handshake and the answer is pending? */
  predicate Processed(h: Handed) {
    || h.verdict.result.Success?
    || (h.buffered && h.verdict.result.WantWrite?)
    || (h.buffered && h.hsType == CERTIFICATE_REQUEST && h.verdict.handShakeDone && h.verdict.result.Pending?)
  }

  /** Is it the message with this number, and done with? */
  predicate Took(h: Handed, number: word16, hsType: HandshakeType, body: seq<byte>) {
    h.number == number && h.hsType == hsType && h.body == body && Processed(h)
  }

  /** The message was handed over and done with, and no other. */
  predicate OneMore(log: seq<Handed>, log1: seq<Handed>, number: word16, hsType: HandshakeType, body: seq<byte>) {
    |log1| == |log| + 1 && log <= log1 && Took(log1[|log|], number, hsType, body)
  }

  /** How many of the messages handed over are done with. */
  function Counted(log: seq<Handed>): (n: nat)
    ensures n <= |log|
  {
    if log == [] then 0 else Counted(log[..|log| - 1]) + if Processed(log[|log| - 1]) then 1 else 0
  }

  /** The number of the message k places after the first. */
  function NumberOf(start: word16, k: nat): word16 { (start + k) % 0x1_0000 }

  lemma NextNumber(start: word16, k: nat)
    ensures NumberOf(start, k + 1) == Increment16(NumberOf(start, k))
  {
  }

  lemma NumbersDiffer(start: word16, j: nat, k: nat)
    requires j < k < j + 0x1_0000
    ensures NumberOf(start, j) != NumberOf(start, k)
  {
  }

  /** Every message handed over carries the number after those processed before it. */
  ghost predicate InOrder(log: seq<Handed>, start: word16) {
    forall i :: 0 <= i < |log| ==> log[i].number == NumberOf(start, Counted(log[..i]))
  }

  ghost predicate Inv(s: State, start: word16) {
    && AllApart(s.msgs) && |s.msgs| <= DTLS_POOL_SZ
    && InOrder(s.log, start) && s.expected == NumberOf(start, Counted(s.log))
  }

  lemma LogGrows(log: seq<Handed>, h: Handed, start: word16)
    requires InOrder(log, start) && h.number == NumberOf(start, Counted(log))
    ensures InOrder(log + [h], start)
    ensures Counted(log + [h]) == Counted(log) + if Processed(h) then 1 else 0
  {
    hide NumberOf;
    var l := log + [h];
    assert l[..|log|] == log;
    forall i | 0 <= i < |l| ensures l[i].number == NumberOf(start, Counted(l[..i])) {
      assert i < |log| ==> l[..i] == log[..i];
    }
  }

  lemma HandOverKeeps(s: State, v: Verdict, start: word16)
    requires Inv(s, start) && NextComplete(s)
    ensures Inv(HandOver(s, v).1, start)
  {
    hide NumberOf, InOrder, Increment16;
    var m := s.msgs[0];
    NextNumber(start, Counted(s.log));
    LogGrows(s.log, Handed(m.number, m.hsType, m.body, true, v), start);
  }

  lemma {:induction false} ProcessBufferedKeeps(s: State, plan: seq<Verdict>, start: word16)
    requires Inv(s, start)
    ensures Inv(ProcessBuffered(s, plan).1, start)
    decreases |s.msgs|
  {
    hide Inv, HandOver;
    if NextComplete(s) {
      HandOverKeeps(s, FirstVerdict(plan), start);
      var (ret, s1) := HandOver(s, FirstVerdict(plan));
      if ret.Ok? {
        ProcessBufferedKeeps(s1, RestOf(plan), start);
      }
    }
  }

  lemma SetKeepsApart(msg: Msg, a: Arrival, hsType: HandshakeType, f: Fragment, junk: Junk)
    requires Apart(msg.buckets)
    ensures Apart(SetMsg(msg, a, hsType, f, junk).1.buckets)
  {
    hide Insert, Received;
    if Insert(msg.buckets, f.offset, f.body, junk).Placed? {
      InsertKeepsApart(msg.buckets, f.offset, f.body, junk);
    }
  }

  lemma {:induction false} InsertMsgHolds(msgs: seq<Msg>, item: Msg, p: Msg -> bool)
    requires p(item) && forall i :: 0 <= i < |msgs| ==> p(msgs[i])
    ensures forall i :: 0 <= i <= |msgs| ==> p(InsertMsg(msgs, item)[i])
  {
    if msgs != [] {
      InsertMsgHolds(msgs[1..], item, p);
    }
  }

  lemma StoreKeepsApart(msgs: seq<Msg>, a: Arrival, hsType: HandshakeType, f: Fragment, junk: Junk)
    requires AllApart(msgs)
    ensures AllApart(Store(msgs, a, hsType, f, junk))
  {
    hide SetMsg, Apart;
    var i := FindMsg(msgs, a.epoch, f.messageSeq);
    if i >= 0 {
      SetKeepsApart(msgs[i], a, hsType, f, junk);
    } else {
      assert Apart(NewMsg(f.length).buckets) by { EmptyApart(); }
      SetKeepsApart(NewMsg(f.length), a, hsType, f, junk);
      InsertMsgHolds(msgs, SetMsg(NewMsg(f.length), a, hsType, f, junk).1, ((m: Msg) => Apart(m.buckets)));
    }
  }

  lemma EmptyApart()
    ensures Apart([])
  {
  }

  lemma {:induction false} ProcessBufferedApart(s: State, plan: seq<Verdict>)
    requires AllApart(s.msgs)
    ensures AllApart(ProcessBuffered(s, plan).1.msgs)
    decreases |s.msgs|
  {
    if NextComplete(s) {
      var (ret, s1) := HandOver(s, FirstVerdict(plan));
      if ret.Ok? {
        ProcessBufferedApart(s1, RestOf(plan));
      }
    }
  }

  lemma ReceiveKeepsApart(s: State, a: Arrival, junk: Junk, plan: seq<Verdict>)
    requires AllApart(s.msgs)
    ensures AllApart(Receive(s, a, junk, plan).1.msgs)
  {
    hide ProcessBuffered, Store, ParseFragment, AllApart, Increment16;
    var (ret, hsType, f) := ParseFragment(a.input);
    StoreKeepsApart(s.msgs, a, hsType, f, junk);
    ProcessBufferedApart(s.(msgs := Store(s.msgs, a, hsType, f, junk)), plan);
    ProcessBufferedApart(s.(log := s.log + [Handed(f.messageSeq, hsType, f.body, false, FirstVerdict(plan))],
                            expected := Increment16(s.expected)), RestOf(plan));
  }

  lemma ReceiveKeeps(s: State, a: Arrival, junk: Junk, plan: seq<Verdict>, start: word16)
    requires Inv(s, start)
    ensures Inv(Receive(s, a, junk, plan).1, start)
  {
    hide ProcessBuffered, Store, ParseFragment, NumberOf, InOrder, Increment16;
    NextNumber(start, Counted(s.log));
    var (ret, hsType, f) := ParseFragment(a.input);
    if |s.msgs| < DTLS_POOL_SZ {
      StoreKeepsApart(s.msgs, a, hsType, f, junk);
      ProcessBufferedKeeps(s.(msgs := Store(s.msgs, a, hsType, f, junk)), plan, start);
    }
    if f.messageSeq == s.expected {
      var h := Handed(f.messageSeq, hsType, f.body, false, FirstVerdict(plan));
      LogGrows(s.log, h, start);
      if h.verdict.result.Success? {
        ProcessBufferedKeeps(s.(log := s.log + [h], expected := Increment16(s.expected)), RestOf(plan), start);
      }
    }
  }

  // ----- the order of the list ---------------------------------------------------------------------

  ghost predicate SortedByNumber(msgs: seq<Msg>) {
    forall i, j :: 0 <= i < j < |msgs| ==> msgs[i].number < msgs[j].number
  }

  /** The first message with a larger number than the item, if any, is not from an older epoch. */
  predicate MeetsNoOlderEpoch(msgs: seq<Msg>, item: Msg) {
    msgs == []
    || if item.number < msgs[0].number then item.epoch <= msgs[0].epoch else MeetsNoOlderEpoch(msgs[1..], item)
  }

  lemma {:induction false} InsertMsgAdds(msgs: seq<Msg>, item: Msg, m: Msg)
    ensures m in InsertMsg(msgs, item) <==> m in msgs || m == item
  {
    if msgs != [] {
      InsertMsgAdds(msgs[1..], item, m);
    }
  }

  lemma SortedTail(first: Msg, rest: seq<Msg>)
    ensures SortedByNumber([first] + rest) <==> SortedByNumber(rest) && forall m :: m in rest ==>
      first.number < m.number
  {
    var msgs := [first] + rest;
    assert msgs[1..] == rest && forall i :: 0 < i < |msgs| ==> msgs[i] == rest[i - 1];
    if SortedByNumber(msgs) {
      forall i, j | 0 <= i < j < |rest| ensures rest[i].number < rest[j].number {
        assert msgs[i + 1].number < msgs[j + 1].number;
      }
      forall m | m in rest ensures first.number < m.number {
        var k :| 0 <= k < |rest| && rest[k] == m;
        assert msgs[0].number < msgs[k + 1].number;
      }
    }
    if SortedByNumber(rest) && forall m :: m in rest ==> first.number < m.number {
      forall i, j | 0 <= i < j < |msgs| ensures msgs[i].number < msgs[j].number {
        assert msgs[j] == rest[j - 1] && rest[j - 1] in rest;
      }
    }
  }

  /** DtlsMsgInsert compares epochs as well as numbers, so that it keeps the list in the order of message numbers
      exactly when the next message is not from an older epoch than the new one. */
  lemma {:induction false} InsertKeepsSorted(msgs: seq<Msg>, item: Msg)
    requires SortedByNumber(msgs) && forall i :: 0 <= i < |msgs| ==> msgs[i].number != item.number
    ensures SortedByNumber(InsertMsg(msgs, item)) <==> MeetsNoOlderEpoch(msgs, item)
  {
    hide SortedByNumber;
    if msgs == [] {
      SortedTail(item, []);
      NothingSorted();
      assert InsertMsg(msgs, item) == [item] + [];
    } else {
      var first, tail, rest := msgs[0], msgs[1..], InsertMsg(msgs[1..], item);
      assert msgs == [first] + tail;
      SortedTail(first, tail);
      if item.epoch <= first.epoch && item.number < first.number {
        SortedTail(item, msgs);
        assert InsertMsg(msgs, item) == [item] + msgs;
        assert forall m :: m in msgs ==> m == first || m in tail;
      } else {
        InsertKeepsSorted(tail, item);
        assert InsertMsg(msgs, item) == [first] + rest;
        SortedTail(first, rest);
        InsertMsgAdds(tail, item, item);
        forall m ensures m in rest <==> m in tail || m == item {
          InsertMsgAdds(tail, item, m);
        }
      }
    }
  }

  lemma NothingSorted()
    ensures SortedByNumber([])
  {
  }

  // ----- whole runs ----------------------------------------------------------------------------------

  datatype Input = Input(arrival: Arrival, junk: Junk, plan: seq<Verdict>)

  ghost function Run(s: State, inputs: seq<Input>): State
    requires AllApart(s.msgs)
    decreases |inputs|
  {
    if inputs == [] then s
    else
      ReceiveKeepsApart(s, inputs[0].arrival, inputs[0].junk, inputs[0].plan);
      Run(Receive(s, inputs[0].arrival, inputs[0].junk, inputs[0].plan).1, inputs[1..])
  }

  lemma {:induction false} RunKeeps(s: State, inputs: seq<Input>, start: word16)
    requires Inv(s, start)
    ensures Inv(Run(s, inputs), start)
    decreases |inputs|
  {
    hide Receive;
    if inputs != [] {
      ReceiveKeeps(s, inputs[0].arrival, inputs[0].junk, inputs[0].plan, start);
      RunKeeps(Receive(s, inputs[0].arrival, inputs[0].junk, inputs[0].plan).1, inputs[1..], start);
    }
  }

  function Start(start: word16): State { State(start, [], []) }

  lemma StartInv(start: word16)
    ensures Inv(Start(start), start) && AllApart(Start(start).msgs)
  {
  }

  lemma RunOrdered(start: word16, inputs: seq<Input>)
    ensures AllApart(Start(start).msgs)
    ensures var s := Run(Start(start), inputs);
      && InOrder(s.log, start) && |s.msgs| <= DTLS_POOL_SZ && Inv(s, start)
      && s.expected == NumberOf(start, Counted(s.log))
  {
    hide Run, InOrder, NumberOf, Counted, AllApart;
    StartInv(start);
    RunKeeps(Start(start), inputs, start);
  }

  /** Over every run: each message handed over has the number that follows those done with before it, the number
      expected is the one that follows all of them, no message is handed over again once it is done with (within 65536
      messages), and at most DTLS_POOL_SZ are kept. */
  lemma DeliveredInOrder(start: word16, inputs: seq<Input>)
    ensures var s := Run(Start(start), inputs);
      && InOrder(s.log, start) && |s.msgs| <= DTLS_POOL_SZ && s.expected == NumberOf(start, Counted(s.log))
      && forall i, j :: 0 <= i < j < |s.log| && Processed(s.log[i])
           && Counted(s.log[..j]) < Counted(s.log[..i]) + 0x1_0000
           ==> s.log[i].number != s.log[j].number
  {
    hide Run, NumberOf, AllApart, Inv;
    RunOrdered(start, inputs);
    var s := Run(Start(start), inputs);
    forall i, j | 0 <= i < j < |s.log| && Processed(s.log[i]) && Counted(s.log[..j]) < Counted(s.log[..i]) + 0x1_0000
      ensures s.log[i].number != s.log[j].number
    {
      CountedRises(s.log, i, j);
      NumbersDiffer(start, Counted(s.log[..i]), Counted(s.log[..j]));
    }
  }

  lemma {:induction false} CountedRises(log: seq<Handed>, i: nat, j: nat)
    requires i < j <= |log|
    ensures Counted(log[..i]) + (if Processed(log[i]) then 1 else 0) <= Counted(log[..j])
    decreases j
  {
    assert log[..j][..j - 1] == log[..j - 1];
    if i < j - 1 {
      CountedRises(log, i, j - 1);
    }
  }

  lemma {:induction false} AllCounted(log: seq<Handed>)
    requires forall i :: 0 <= i < |log| ==> Processed(log[i])
    ensures Counted(log) == |log|
  {
    if log != [] {
      AllCounted(log[..|log| - 1]);
    }
  }

  /** As long as the handler accepts everything, the i-th message handed over is the i-th message. */
  lemma AcceptedInOrder(start: word16, inputs: seq<Input>, i: nat)
    requires var s := Run(Start(start), inputs);
      i < |s.log| && forall k :: 0 <= k < |s.log| ==> Processed(s.log[k])
    ensures Run(Start(start), inputs).log[i].number == NumberOf(start, i)
  {
    hide Run, InOrder, NumberOf, AllApart, Inv;
    RunOrdered(start, inputs);
    NumberedInOrder(Run(Start(start), inputs).log, start, i);
  }

  lemma NumberedInOrder(log: seq<Handed>, start: word16, i: nat)
    requires InOrder(log, start) && i < |log| && forall k :: 0 <= k < |log| ==> Processed(log[k])
    ensures log[i].number == NumberOf(start, i)
  {
    hide Counted, NumberOf;
    AllCounted(log[..i]);
    assert log[i].number == NumberOf(start, Counted(log[..i]));
  }

  // ----- content -------------------------------------------------------------------------------------------

  /** Is the record, if it parses at all, a piece of the message whose number it carries? */
  ghost predicate Genuine(input: seq<byte>, ms: seq<Message>) {
    var (ret, hsType, f) := ParseFragment(input);
    ret == Ok ==>
      && f.messageSeq < |ms| && hsType == ms[f.messageSeq].hsType
      && f.length == |ms[f.messageSeq].body| && Holds(Bucket(f.offset, f.body), ms[f.messageSeq].body)
  }

  ghost predicate TrueMsg(m: Msg, ms: seq<Message>) {
    && Apart(m.buckets)
    && m.number < |ms| && m.size == |ms[m.number].body| && m.hsType == ms[m.number].hsType
    && Faithful(m.buckets, ms[m.number].body)
    && (if m.ready then m.body == ms[m.number].body else Received(m.buckets) < m.size)
  }

  ghost predicate TrueState(s: State, ms: seq<Message>) {
    && (forall i :: 0 <= i < |s.msgs| ==> TrueMsg(s.msgs[i], ms))
    && (forall i :: 0 <= i < |s.log| ==>
          && s.log[i].number < |ms|
          && s.log[i].hsType == ms[s.log[i].number].hsType && s.log[i].body == ms[s.log[i].number].body)
  }

  /** A fragment that joins an incomplete message is not misplaced in it. */
  ghost predicate WellPlaced(s: State, a: Arrival) {
    var f := ParseFragment(a.input).2;
    forall i :: 0 <= i < |s.msgs| && s.msgs[i].epoch == a.epoch && s.msgs[i].number == f.messageSeq && !s.msgs[i].ready
      ==> !Misplaces(s.msgs[i].buckets, f.offset, f.offset + |f.body|)
  }

  lemma SetKeepsTrue(msg: Msg, a: Arrival, hsType: HandshakeType, f: Fragment, junk: Junk, ms: seq<Message>)
    requires Apart(msg.buckets) && f.messageSeq < |ms| && msg.size == |ms[f.messageSeq].body|
    requires TrueMsg(msg, ms) || (msg == NewMsg(f.length))
    requires msg.number == f.messageSeq || msg == NewMsg(f.length)
    requires hsType == ms[f.messageSeq].hsType && f.length == |ms[f.messageSeq].body|
    requires Holds(Bucket(f.offset, f.body), ms[f.messageSeq].body)
    requires msg.ready || !Misplaces(msg.buckets, f.offset, f.offset + |f.body|)
    ensures var (ok, m) := SetMsg(msg, a, hsType, f, junk);
      (ok || TrueMsg(msg, ms)) ==> TrueMsg(m, ms)
  {
    hide Insert, Received, Apart, Faithful, Holds, Misplaces;
    var body := ms[f.messageSeq].body;
    EmptyPlaces(0, 0);
    NothingFalse(body);
    var outcome := Insert(msg.buckets, f.offset, f.body, junk);
    if !msg.ready && outcome.Placed? {
      InsertKeepsApart(msg.buckets, f.offset, f.body, junk);
      InsertKeepsFaithful(msg.buckets, f.offset, f.body, junk, body);
      AssembledIs(outcome.buckets, body);
    }
  }

  /** A list of true pieces is complete exactly when it is taken as the message, and then it is the message. */
  lemma AssembledIs(bs: seq<Bucket>, m: seq<byte>)
    requires Apart(bs) && Faithful(bs, m) && bs != []
    ensures Received(bs) <= |m|
    ensures Received(bs) == |m| ==> bs == [Bucket(0, m)]
    ensures Faithful([], m) && Apart([])
  {
    GapsAreMissing(bs);
    assert Holds(bs[|bs| - 1], m);
    if Received(bs) == |m| {
      AllReceived(bs, m);
    }
  }

  lemma StoreKeepsTrue(s: State, a: Arrival, junk: Junk, ms: seq<Message>)
    requires AllApart(s.msgs) && TrueState(s, ms) && Genuine(a.input, ms) && WellPlaced(s, a)
    requires ParseFragment(a.input).0 == Ok
    ensures var (ret, hsType, f) := ParseFragment(a.input);
      TrueState(s.(msgs := Store(s.msgs, a, hsType, f, junk)), ms)
  {
    var (ret, hsType, f) := ParseFragment(a.input);
    var i := FindMsg(s.msgs, a.epoch, f.messageSeq);
    hide SetMsg, ParseFragment, Apart, Holds, Misplaces, FindMsg, TrueMsg;
    if i >= 0 {
      assert TrueMsg(s.msgs[i], ms);
      TrueSize(s.msgs[i], ms);
      SetKeepsTrue(s.msgs[i], a, hsType, f, junk, ms);
    } else {
      EmptyPlaces(f.offset, f.offset + |f.body|);
      SetKeepsTrue(NewMsg(f.length), a, hsType, f, junk, ms);
      if SetMsg(NewMsg(f.length), a, hsType, f, junk).0 {
        InsertMsgHolds(s.msgs, SetMsg(NewMsg(f.length), a, hsType, f, junk).1, ((m: Msg) => TrueMsg(m, ms)));
      }
    }
  }

  lemma TrueSize(m: Msg, ms: seq<Message>)
    requires TrueMsg(m, ms)
    ensures Apart(m.buckets) && m.number < |ms| && m.size == |ms[m.number].body|
  {
  }

  lemma EmptyPlaces(o: nat, e: nat)
    ensures Apart([]) && !Misplaces([], o, e)
  {
  }

  lemma NothingFalse(m: seq<byte>)
    ensures Faithful([], m)
  {
  }

  lemma {:induction false} ProcessBufferedTrue(s: State, plan: seq<Verdict>, ms: seq<Message>)
    requires TrueState(s, ms)
    ensures TrueState(ProcessBuffered(s, plan).1, ms)
    decreases |s.msgs|
  {
    if NextComplete(s) {
      var (ret, s1) := HandOver(s, FirstVerdict(plan));
      assert TrueMsg(s.msgs[0], ms);
      if ret.Ok? {
        ProcessBufferedTrue(s1, RestOf(plan), ms);
      }
    }
  }

  lemma ReceiveKeepsTrue(s: State, a: Arrival, junk: Junk, plan: seq<Verdict>, ms: seq<Message>)
    requires AllApart(s.msgs) && TrueState(s, ms) && Genuine(a.input, ms) && WellPlaced(s, a)
    ensures TrueState(Receive(s, a, junk, plan).1, ms)
  {
    hide ProcessBuffered, Store, ParseFragment, AllApart, Increment16, TrueMsg, WellPlaced;
    var (ret, hsType, f) := ParseFragment(a.input);
    if ret == Ok {
      StoreKeepsTrue(s, a, junk, ms);
      ProcessBufferedTrue(s.(msgs := Store(s.msgs, a, hsType, f, junk)), plan, ms);
      if IsComplete(f) {
        assert f.body == ms[f.messageSeq].body;
        var s1 := s.(log := s.log + [Handed(f.messageSeq, hsType, f.body, false, FirstVerdict(plan))]);
        assert TrueState(s1, ms);
        ProcessBufferedTrue(s1.(expected := Increment16(s.expected)), RestOf(plan), ms);
      }
    }
  }

  /** Every record of the run is a piece of the messages, and none is misplaced. */
  ghost predicate TrueRun(s: State, inputs: seq<Input>, ms: seq<Message>)
    requires AllApart(s.msgs)
    decreases |inputs|
  {
    inputs == []
    || (ReceiveKeepsApart(s, inputs[0].arrival, inputs[0].junk, inputs[0].plan);
        && Genuine(inputs[0].arrival.input, ms) && WellPlaced(s, inputs[0].arrival)
        && TrueRun(Receive(s, inputs[0].arrival, inputs[0].junk, inputs[0].plan).1, inputs[1..], ms))
  }

  lemma {:induction false} TrueRunKeeps(s: State, inputs: seq<Input>, ms: seq<Message>)
    requires AllApart(s.msgs) && TrueState(s, ms) && TrueRun(s, inputs, ms)
    ensures TrueState(Run(s, inputs), ms)
    decreases |inputs|
  {
    hide Receive, TrueState, Genuine, WellPlaced;
    if inputs != [] {
      ReceiveKeepsApart(s, inputs[0].arrival, inputs[0].junk, inputs[0].plan);
      ReceiveKeepsTrue(s, inputs[0].arrival, inputs[0].junk, inputs[0].plan, ms);
      TrueRunKeeps(Receive(s, inputs[0].arrival, inputs[0].junk, inputs[0].plan).1, inputs[1..], ms);
    }
  }

  /** The receiver never gets past the last message. */
  lemma {:induction false} CountStaysBelow(log: seq<Handed>, total: nat, i: nat)
    requires InOrder(log, 0) && total < 0x1_0000 && i < |log|
    requires forall j :: 0 <= j < |log| ==> log[j].number < total
    ensures Counted(log[..i]) < total
    decreases i
  {
    if i > 0 {
      CountStaysBelow(log, total, i - 1);
      assert log[..i][..i - 1] == log[..i - 1];
    }
    assert log[i].number == NumberOf(0, Counted(log[..i]));
  }

  /** Whatever is lost, repeated or reordered, every message handed over is, whole and with its type, the message
      sent that follows those processed before. */
  lemma DeliveredAsSent(inputs: seq<Input>, ms: seq<Message>, i: nat)
    requires TrueRun(Start(0), inputs, ms) && |ms| < 0x1_0000
    requires i < |Run(Start(0), inputs).log|
    ensures var log := Run(Start(0), inputs).log; var k := Counted(log[..i]);
      k < |ms| && log[i].number == k && log[i].hsType == ms[k].hsType && log[i].body == ms[k].body
  {
    hide Run, TrueRun, Inv, AllApart, NumberOf;
    RunOrdered(0, inputs);
    TrueRunKeeps(Start(0), inputs, ms);
    hide TrueState;
    LoggedAsSent(Run(Start(0), inputs), ms, i);
  }

  lemma LoggedAsSent(s: State, ms: seq<Message>, i: nat)
    requires Inv(s, 0) && TrueState(s, ms) && |ms| < 0x1_0000 && i < |s.log|
    ensures var k := Counted(s.log[..i]);
      k < |ms| && s.log[i].number == k && s.log[i].hsType == ms[k].hsType && s.log[i].body == ms[k].body
  {
    hide Counted, AllApart, TrueMsg;
    CountStaysBelow(s.log, |ms|, i);
    assert s.log[i].number == NumberOf(0, Counted(s.log[..i])) == Counted(s.log[..i]);
  }
}
