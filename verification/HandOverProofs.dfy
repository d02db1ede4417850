/** What one received record leads to: when it is refused, ignored or kept, which buffered messages are handed over, and
    which of them are done with. */
module HandOverProofs {
  import opened Words
  import opened RtxQueue
  import opened FragBuckets
  import opened HandshakeSpec
  import opened HandshakeProofs

  // ----- buffered messages ---------------------------------------------------------------------------------

  function VerdictAt(plan: seq<Verdict>, k: nat): Verdict {
    if k < |plan| then plan[k] else Verdict(true, Success, false)
  }

  /** Is the message expected next at the head of the list, and complete? */
  predicate HeadReady(s: State) {
    s.msgs != [] && s.msgs[0].ready && s.msgs[0].number == s.expected
  }

  /** The message is complete, has this number and was encrypted as it must be; this is how it is handed over. */
  predicate GoesOut(m: Msg, number: word16, v: Verdict, h: Handed) {
    m.ready && m.number == number && v.encryptionOk && h == Handed(number, m.hsType, m.body, true, v)
  }

  /** The first n messages of the list were handed over in order of their numbers, and all but the last were
      accepted. */
  ghost predicate FirstHanded(s: State, plan: seq<Verdict>, log: seq<Handed>, n: nat) {
    && n <= |s.msgs| && |log| == |s.log| + n && s.log <= log
    && (forall k :: 0 <= k < n ==>
          GoesOut(s.msgs[k], NumberOf(s.expected, k), VerdictAt(plan, k), log[|s.log| + k]))
    && forall k :: 0 <= k < n - 1 ==> VerdictAt(plan, k).result.Success?
  }

  /** Those done with have left the list and raised the expected number, each by one; one that was handed over and is
      not done with is the head still, and its number is the expected one. */
  ghost predicate LeftBehind(s: State, s1: State, n: nat) {
    var done := if n > 0 && s1.log != [] && !Processed(s1.log[|s1.log| - 1]) then n - 1 else n;
    done <= |s.msgs| && s1.msgs == s.msgs[done..] && s1.expected == NumberOf(s.expected, done)
  }

  /** The call stops at the first answer that is not success, or when the next message is not there or not complete, or
      was not encrypted as it must be. */
  ghost predicate Stopped(s1: State, plan: seq<Verdict>, ret: Ret, n: nat) {
    if n > 0 && !VerdictAt(plan, n - 1).result.Success? then ret == Handler(VerdictAt(plan, n - 1).result)
    else if HeadReady(s1) then ret == Unexpected && !VerdictAt(plan, n).encryptionOk
    else ret == Ok
  }

  lemma OneHanded(s: State, v: Verdict)
    requires HeadReady(s)
    ensures NextComplete(s)
    ensures var (ret, s1) := HandOver(s, v); var m := s.msgs[0]; var h := Handed(m.number, m.hsType, m.body, true, v);
      if !v.encryptionOk then ret == Unexpected && s1 == s
      else
        && ret == (if v.result.Success? then Ok else Handler(v.result)) && s1.log == s.log + [h]
        && if Processed(h) then s1.msgs == s.msgs[1..] && s1.expected == Increment16(s.expected)
           else s1.msgs == s.msgs && s1.expected == s.expected
  {
  }

  /** The head was handed over and accepted. */
  ghost predicate FirstAccepted(s: State, s1: State, plan: seq<Verdict>) {
    && HeadReady(s) && VerdictAt(plan, 0).result.Success?
    && s1.msgs == s.msgs[1..] && s1.expected == Increment16(s.expected)
    && |s1.log| == |s.log| + 1 && s.log <= s1.log
    && GoesOut(s.msgs[0], s.expected, VerdictAt(plan, 0), s1.log[|s.log|])
  }

  lemma FirstNumber(number: word16)
    ensures NumberOf(number, 0) == number
  {
  }

  lemma RestIs(s: State, s1: State, plan: seq<Verdict>, k: nat)
    requires FirstAccepted(s, s1, plan)
    ensures k < |s1.msgs| ==> s1.msgs[k] == s.msgs[k + 1]
    ensures VerdictAt(RestOf(plan), k) == VerdictAt(plan, k + 1)
    ensures NumberOf(s1.expected, k) == NumberOf(s.expected, k + 1)
    ensures k <= |s1.msgs| ==> s1.msgs[k..] == s.msgs[k + 1..]
  {
  }

  lemma HandedAfterFirst(s: State, s1: State, plan: seq<Verdict>, log: seq<Handed>, n: nat)
    requires FirstAccepted(s, s1, plan) && FirstHanded(s1, RestOf(plan), log, n)
    ensures FirstHanded(s, plan, log, n + 1)
  {
    hide NumberOf, GoesOut, VerdictAt, RestOf, Increment16;
    assert log[|s.log|] == s1.log[|s.log|];
    forall k | 0 <= k < n + 1
      ensures GoesOut(s.msgs[k], NumberOf(s.expected, k), VerdictAt(plan, k), log[|s.log| + k])
      ensures k < n ==> VerdictAt(plan, k).result.Success?
    {
      if k == 0 {
        FirstNumber(s.expected);
      } else {
        RestIs(s, s1, plan, k - 1);
      }
    }
  }

  lemma LeftAfterFirst(s: State, s1: State, s2: State, plan: seq<Verdict>, n: nat)
    requires FirstAccepted(s, s1, plan) && |s2.log| == |s1.log| + n && s1.log <= s2.log
    requires LeftBehind(s1, s2, n)
    ensures LeftBehind(s, s2, n + 1)
  {
    hide NumberOf, VerdictAt, RestOf, Increment16;
    RestIs(s, s1, plan, n);
    if n > 0 {
      RestIs(s, s1, plan, n - 1);
    }
  }

  /** For every list and all answers: which messages the loop over the buffer hands over, which of them leave the list,
      and why it stops. */
  lemma {:induction false} HandedOverExactly(s: State, plan: seq<Verdict>) returns (n: nat)
    ensures var (ret, s1) := ProcessBuffered(s, plan);
      FirstHanded(s, plan, s1.log, n) && LeftBehind(s, s1, n) && Stopped(s1, plan, ret, n)
    decreases |s.msgs|
  {
    var v := VerdictAt(plan, 0);
    if !HeadReady(s) || !v.encryptionOk || !v.result.Success? {
      n := AtMostOne(s, plan);
    } else {
      OneHanded(s, v);
      hide HandOver, FirstHanded, LeftBehind, Processed;
      var s1 := HandOver(s, v).1;
      var more := HandedOverExactly(s1, RestOf(plan));
      var (ret, s2) := ProcessBuffered(s1, RestOf(plan));
      HandedAfterFirst(s, s1, plan, s2.log, more);
      LeftAfterFirst(s, s1, s2, plan, more);
      StopsLater(s, s1, s2, plan, ret, more);
      n := more + 1;
    }
  }

  lemma AtMostOne(s: State, plan: seq<Verdict>) returns (n: nat)
    requires var v := VerdictAt(plan, 0); !(HeadReady(s) && v.encryptionOk && v.result.Success?)
    ensures var (ret, s1) := ProcessBuffered(s, plan);
      FirstHanded(s, plan, s1.log, n) && LeftBehind(s, s1, n) && Stopped(s1, plan, ret, n)
  {
    var v := VerdictAt(plan, 0);
    n := if HeadReady(s) && v.encryptionOk then 1 else 0;
    FirstNumber(s.expected);
    if HeadReady(s) {
      OneHanded(s, v);
    }
    hide HandOver, Processed;
  }

  lemma StopsLater(s: State, s1: State, s2: State, plan: seq<Verdict>, ret: Ret, n: nat)
    requires FirstAccepted(s, s1, plan)
    requires Stopped(s2, RestOf(plan), ret, n)
    ensures Stopped(s2, plan, ret, n + 1)
  {
    RestIs(s, s1, plan, n);
    if n > 0 {
      RestIs(s, s1, plan, n - 1);
    }
  }

  // ----- one fragment ---------------------------------------------------------------------------------------------

  /** Does the fragment belong to another message than the one begun? */
  predicate Mismatches(msg: Msg, a: Arrival, hsType: HandshakeType, f: Fragment) {
    msg.hsType != 255 && (msg.hsType != hsType || msg.epoch != a.epoch || msg.number != f.messageSeq)
  }

  /** A fragment is refused if it tells another length than the message, or reaches beyond it; and unless the message is
      complete already, if it belongs to another one, or if there is no room for it.  A message that is complete stays
      as it is; any other one is marked as encrypted only as long as all its fragments are. */
  lemma SetExactly(msg: Msg, a: Arrival, hsType: HandshakeType, f: Fragment, junk: Junk)
    requires Apart(msg.buckets)
    ensures var (ok, m) := SetMsg(msg, a, hsType, f, junk);
      && (!ok <==> || f.length != msg.size || f.offset + |f.body| > f.length
                   || (!msg.ready && (Mismatches(msg, a, hsType, f)
                                      || Insert(msg.buckets, f.offset, f.body, junk).TooManyFragments?)))
      && (ok && msg.ready ==> m == msg)
      && (!ok ==> m.buckets == msg.buckets && m.ready == msg.ready && m.body == msg.body)
      && (ok && !msg.ready ==>
            && m.hsType == hsType && m.epoch == a.epoch && m.number == f.messageSeq && m.size == f.length
            && (m.encrypted <==> a.encrypted && (msg.hsType == 255 || msg.encrypted))
            && (m.ready || m.buckets == Insert(msg.buckets, f.offset, f.body, junk).buckets))
  {
    hide Insert, Received, Apart;
  }

  // ----- one record --------------------------------------------------------------------------------------------

  /** The record has a handshake header, passes the checks of type and epoch, is all there, and its fragment ends where
      its message ends, or before. */
  predicate Acceptable(a: Arrival) {
    && |a.input| >= 12 && a.sane && |a.input| >= 12 + Ato24(a.input[9..])
    && Ato24(a.input[6..]) + Ato24(a.input[9..]) <= Ato24(a.input[1..])
  }

  /** A whole message in one record. */
  predicate AllInOne(a: Arrival)
    requires |a.input| >= 12
  {
    Ato24(a.input[6..]) == 0 && Ato24(a.input[9..]) == Ato24(a.input[1..])
  }

  /** The message is done with, or comes in pieces where pieces are not accepted. */
  predicate Ignored(s: State, a: Arrival)
    requires |a.input| >= 12
  {
    Ato16(a.input[4..]) < s.expected || (!AllInOne(a) && !a.acceptFragmented)
  }

  /** The message waits: it is not whole, not the next one, or processed by an asynchronous device. */
  predicate Waits(s: State, a: Arrival)
    requires |a.input| >= 12
  {
    !AllInOne(a) || Ato16(a.input[4..]) != s.expected || a.asyncCrypto
  }

  /** Each refusal has its cause, and changes nothing; nor does a record that is ignored. */
  lemma RefusedExactly(s: State, a: Arrival, junk: Junk, plan: seq<Verdict>)
    requires AllApart(s.msgs)
    ensures var (ret, s1) := Receive(s, a, junk, plan);
      && (ret == ParseError <==> |a.input| < 12)
      && (ret == SanityError <==> |a.input| >= 12 && !a.sane)
      && (ret == IncompleteData <==> |a.input| >= 12 && a.sane && |a.input| < 12 + Ato24(a.input[9..]))
      && (ret == BufferError <==> |a.input| >= 12 && a.sane && |a.input| >= 12 + Ato24(a.input[9..]) && !Acceptable(a))
      && (ret == TooManyMessages <==> Acceptable(a) && !Ignored(s, a) && Waits(s, a) && |s.msgs| >= 20)
      && (!Acceptable(a) || ret == TooManyMessages ==> s1 == s)
      && (Acceptable(a) && Ignored(s, a) ==> ret == Ok && s1 == s)
  {
    hide Receive, Ato16, Ato24, AllApart;
    if Acceptable(a) {
      AcceptedOutcome(s, a, junk, plan);
    } else {
      RefusedOutcome(s, a, junk, plan);
    }
  }

  lemma RefusedOutcome(s: State, a: Arrival, junk: Junk, plan: seq<Verdict>)
    requires AllApart(s.msgs) && !Acceptable(a)
    ensures Receive(s, a, junk, plan)
         == (if |a.input| < 12 then ParseError else if !a.sane then SanityError
             else if |a.input| < 12 + Ato24(a.input[9..]) then IncompleteData else BufferError, s)
  {
    hide ProcessNext, HandDirectly, Store, Ato16, Ato24, AllApart;
  }

  lemma AcceptedOutcome(s: State, a: Arrival, junk: Junk, plan: seq<Verdict>)
    requires AllApart(s.msgs) && Acceptable(a)
    ensures var (ret, s1) := Receive(s, a, junk, plan);
      if Ignored(s, a) then ret == Ok && s1 == s
      else if Waits(s, a) && |s.msgs| >= 20 then ret == TooManyMessages && s1 == s
      else ret == Ok || ret == Unexpected || ret.Handler?
  {
    ReturnsOnly(s, a, junk, plan);
    hide ProcessNext, HandDirectly, Store, Ato16, Ato24, AllApart;
  }

  /** Handing over never returns one of the refusals. */
  lemma NoRefusal(s: State, plan: seq<Verdict>)
    ensures var ret := ProcessBuffered(s, plan).0; ret == Ok || ret == Unexpected || ret.Handler?
  {
    hide ProcessBuffered;
    var n := HandedOverExactly(s, plan);
  }

  lemma ReturnsOnly(s: State, a: Arrival, junk: Junk, plan: seq<Verdict>)
    requires AllApart(s.msgs)
    ensures var (ret, hsType, f) := ParseFragment(a.input);
      && (var r := ProcessNext(s.(msgs := Store(s.msgs, a, hsType, f, junk)), plan).0;
          r == Ok || r == Unexpected || r.Handler?)
      && (var r := HandDirectly(s, hsType, f, plan).0; r == Ok || r == Unexpected || r.Handler?)
  {
    hide ProcessBuffered, Store, ParseFragment, AllApart, Increment16;
    var (ret, hsType, f) := ParseFragment(a.input);
    NoRefusal(s.(msgs := Store(s.msgs, a, hsType, f, junk)), plan);
    NoRefusal(s.(log := s.log + [Handed(f.messageSeq, hsType, f.body, false, FirstVerdict(plan))],
                 expected := Increment16(s.expected)), RestOf(plan));
  }

  /** The fragment in a record. */
  function FragmentIn(a: Arrival): Fragment
    requires Acceptable(a)
  {
    Fragment(Ato16(a.input[4..]), Ato24(a.input[1..]), Ato24(a.input[6..]), a.input[12..12 + Ato24(a.input[9..])])
  }

  /** Any other record is stored, or handed over at once; then what is complete in the buffer follows. */
  lemma KeptExactly(s: State, a: Arrival, junk: Junk, plan: seq<Verdict>)
    requires AllApart(s.msgs) && Acceptable(a) && !Ignored(s, a) && (Waits(s, a) ==> |s.msgs| < 20)
    ensures var hsType, f := a.input[0], FragmentIn(a);
      var h := Handed(s.expected, hsType, f.body, false, VerdictAt(plan, 0));
      Receive(s, a, junk, plan) ==
        if Waits(s, a) then ProcessBuffered(s.(msgs := Store(s.msgs, a, hsType, f, junk)), plan)
        else if VerdictAt(plan, 0).result.Success? then
          ProcessBuffered(s.(log := s.log + [h], expected := NumberOf(s.expected, 1)), RestOf(plan))
        else (Handler(VerdictAt(plan, 0).result), s.(log := s.log + [h]))
  {
    hide Store, Ato16, Ato24, AllApart, HandOver;
  }
}
