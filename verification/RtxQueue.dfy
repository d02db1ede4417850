/** The retransmission list: handshake records kept until they are acknowledged,
    linked through their next fields, with a pointer to the final null link. */
module RtxQueue {
  import opened Words

  /** enum HandShakeType */
  type HandshakeType = byte

  const CLIENT_HELLO: HandshakeType := 1
  const SESSION_TICKET: HandshakeType := 4
  const HELLO_RETRY_REQUEST: HandshakeType := 6
  const KEY_UPDATE: HandshakeType := 24
  const NO_SHAKE: HandshakeType := 255

  /** Every other type the enumeration names, from end_of_early_data to message_hash. */
  const OTHER_TYPES: set<HandshakeType> := {5, 8, 11, 12, 13, 14, 15, 16, 20, 22, 55, 254}

  /** Dtls13TypeIsEncrypted: false for the hello messages and for numbers the enumeration does not name. */
  predicate IsEncrypted(t: HandshakeType) {
    t == SESSION_TICKET || t == KEY_UPDATE || t == NO_SHAKE || t in OTHER_TYPES
  }

  datatype RecordNumber = RecordNumber(epoch: word64, seqNumber: word64)

  /** One handshake fragment: the DTLS handshake header and the bytes it carries. */
  datatype Fragment = Fragment(messageSeq: word16, length: nat, offset: nat, body: seq<byte>)

  /** A handshake message without its header. */
  datatype Message = Message(hsType: HandshakeType, body: seq<byte>)

  /** A record on the list; tracked holds the sequence numbers in seq[0..rnIdx), oldest first. */
  datatype Rec = Rec(id: nat, epoch: word64, hsType: HandshakeType, frag: Fragment, tracked: seq<word64>)
  {
    /** Dtls13RtxIsTrackedByRn */
    predicate IsTrackedBy(rn: RecordNumber) {
      epoch == rn.epoch && rn.seqNumber in tracked
    }

    predicate IsTrackedByAny(rns: seq<RecordNumber>) {
      exists i :: 0 <= i < |rns| && IsTrackedBy(rns[i])
    }
  }

  /** Tracking one more number in an array of the given size: when it is full all are forgotten first. */
  function Track(tracked: seq<word64>, size: nat, s: word64): seq<word64> {
    if |tracked| >= size then [s] else tracked + [s]
  }

  // ----- the list as a sequence ------------------------------------------------------

  /** The list without its first record that satisfies p. */
  function WithoutFirst(rs: seq<Rec>, p: Rec -> bool): seq<Rec> {
    if rs == [] then []
    else if p(rs[0]) then rs[1..]
    else [rs[0]] + WithoutFirst(rs[1..], p)
  }

  /** The records that satisfy p, in order. */
  function Filter(rs: seq<Rec>, p: Rec -> bool): seq<Rec> {
    if rs == [] then []
    else (if p(rs[0]) then [rs[0]] else []) + Filter(rs[1..], p)
  }

  /** What Dtls13RtxFlushBuffered leaves: nothing, or the session tickets. */
  function Flushed(rs: seq<Rec>, keepNewSessionTicket: bool): seq<Rec> {
    Filter(rs, (r: Rec) => keepNewSessionTicket && r.hsType == SESSION_TICKET)
  }

  /** Dtls13RtxRemoveRecord for each number in turn. */
  function RemoveEach(rs: seq<Rec>, rns: seq<RecordNumber>): seq<Rec>
    decreases |rns|
  {
    if rns == [] then rs
    else RemoveEach(WithoutFirst(rs, (r: Rec) => r.IsTrackedBy(rns[0])), rns[1..])
  }

  function MovedToEnd(rs: seq<Rec>, k: nat): seq<Rec>
    requires k < |rs|
  {
    RemoveAt(rs, k) + [rs[k]]
  }

  function HasKeyUpdate(rs: seq<Rec>): (b: bool)
    ensures b <==> exists i :: 0 <= i < |rs| && rs[i].hsType == KEY_UPDATE
  {
    rs != [] && (rs[0].hsType == KEY_UPDATE || HasKeyUpdate(rs[1..]))
  }

  /** No record number is tracked by two records. */
  ghost predicate TracksApart(rs: seq<Rec>) {
    forall i, j, rn :: 0 <= i < j < |rs| && rs[i].IsTrackedBy(rn) ==> !rs[j].IsTrackedBy(rn)
  }

  lemma {:induction false} FilterAll(rs: seq<Rec>, p: Rec -> bool)
    requires forall i :: 0 <= i < |rs| ==> p(rs[i])
    ensures Filter(rs, p) == rs
  {
    if rs != [] {
      FilterAll(rs[1..], p);
    }
  }

  lemma {:induction false} FilterConcat(a: seq<Rec>, b: seq<Rec>, p: Rec -> bool)
    ensures Filter(a + b, p) == Filter(a, p) + Filter(b, p)
  {
    if a == [] {
      assert a + b == b;
    } else {
      assert (a + b)[0] == a[0] && (a + b)[1..] == a[1..] + b;
      FilterConcat(a[1..], b, p);
      assert Filter(a + b, p) == (if p(a[0]) then [a[0]] else []) + Filter(a[1..] + b, p);
    }
  }

  /** Flushing leaves nothing, or what is told to be kept: the session tickets, in order. */
  lemma {:induction false} FlushedIs(rs: seq<Rec>, keepNewSessionTicket: bool)
    ensures !keepNewSessionTicket ==> Flushed(rs, keepNewSessionTicket) == []
    ensures rs != [] ==> Flushed(rs, true) == (if rs[0].hsType == 4 then [rs[0]] else []) + Flushed(rs[1..], true)
    ensures forall r :: r in Flushed(rs, true) <==> r in rs && r.hsType == 4
  {
    if rs != [] {
      FlushedIs(rs[1..], keepNewSessionTicket);
    }
  }

  /** Filtering twice is filtering once by both conditions. */
  lemma {:induction false} FilterTwice(rs: seq<Rec>, p: Rec -> bool, q: Rec -> bool, both: Rec -> bool)
    requires forall i :: 0 <= i < |rs| ==> both(rs[i]) == (p(rs[i]) && q(rs[i]))
    ensures Filter(Filter(rs, p), q) == Filter(rs, both)
  {
    if rs != [] {
      FilterTwice(rs[1..], p, q, both);
      FilterConcat(if p(rs[0]) then [rs[0]] else [], Filter(rs[1..], p), q);
    }
  }

  /** A list loses either nothing or exactly one record, the first that satisfies p. */
  lemma {:induction false} WithoutFirstSplits(rs: seq<Rec>, p: Rec -> bool) returns (k: nat)
    ensures k <= |rs|
    ensures forall i :: 0 <= i < k ==> !p(rs[i])
    ensures k < |rs| ==> p(rs[k])
    ensures WithoutFirst(rs, p) == if k < |rs| then RemoveAt(rs, k) else rs
  {
    if rs == [] || p(rs[0]) {
      k := 0;
    } else {
      var tail := WithoutFirstSplits(rs[1..], p);
      assert forall i :: 0 < i <= tail && i < |rs| ==> rs[i] == rs[1..][i - 1];
      k := tail + 1;
      hide WithoutFirst;
      if tail < |rs[1..]| {
        assert [rs[0]] + RemoveAt(rs[1..], tail) == RemoveAt(rs, k);
      } else {
        assert [rs[0]] + rs[1..] == rs;
      }
    }
  }

  lemma WithoutFirstIs(rs: seq<Rec>, p: Rec -> bool, k: nat)
    requires k <= |rs|
    requires forall i :: 0 <= i < k ==> !p(rs[i])
    requires k < |rs| ==> p(rs[k])
    ensures WithoutFirst(rs, p) == if k < |rs| then RemoveAt(rs, k) else rs
  {
    var k' := WithoutFirstSplits(rs, p);
  }

  /** A flush keeps the first k records. */
  ghost predicate KeepsFirst(rs: seq<Rec>, keepNewSessionTicket: bool, k: nat) {
    k <= |rs| && forall i :: 0 <= i < k ==> keepNewSessionTicket && rs[i].hsType == SESSION_TICKET
  }

  /** One more record, kept or not. */
  lemma FlushedNext(rs: seq<Rec>, keepNewSessionTicket: bool, k: nat)
    requires k < |rs| && KeepsFirst(rs, keepNewSessionTicket, k)
    ensures
      if keepNewSessionTicket && rs[k].hsType == SESSION_TICKET then KeepsFirst(rs, keepNewSessionTicket, k + 1)
      else && KeepsFirst(RemoveAt(rs, k), keepNewSessionTicket, k)
           && Flushed(RemoveAt(rs, k), keepNewSessionTicket) == Flushed(rs, keepNewSessionTicket)
  {
    if !(keepNewSessionTicket && rs[k].hsType == SESSION_TICKET) {
      FilterWithout(rs, (r: Rec) => keepNewSessionTicket && r.hsType == SESSION_TICKET, k);
    }
  }

  lemma AllFlushed(rs: seq<Rec>, keepNewSessionTicket: bool)
    requires KeepsFirst(rs, keepNewSessionTicket, |rs|)
    ensures Flushed(rs, keepNewSessionTicket) == rs
  {
    FilterAll(rs, (r: Rec) => keepNewSessionTicket && r.hsType == SESSION_TICKET);
  }

  lemma TracksApartWithout(rs: seq<Rec>, k: nat)
    requires TracksApart(rs) && k < |rs|
    ensures TracksApart(RemoveAt(rs, k))
  {
    var ws := RemoveAt(rs, k);
    forall i, j, rn | 0 <= i < j < |ws| && ws[i].IsTrackedBy(rn)
      ensures !ws[j].IsTrackedBy(rn)
    {
      var i', j' := if i < k then i else i + 1, if j < k then j else j + 1;
      assert ws[i] == rs[i'] && ws[j] == rs[j'];
    }
  }

  /** A record that a filter drops may leave before the filter runs. */
  lemma {:induction false} FilterWithout(rs: seq<Rec>, p: Rec -> bool, k: nat)
    requires k < |rs| && !p(rs[k])
    ensures Filter(RemoveAt(rs, k), p) == Filter(rs, p)
  {
    if k > 0 {
      FilterWithout(rs[1..], p, k - 1);
    }
  }

  /** While no number is tracked twice, removing the first match removes every match. */
  lemma RemoveOneIsFilter(rs: seq<Rec>, rn: RecordNumber)
    requires TracksApart(rs)
    ensures WithoutFirst(rs, (r: Rec) => r.IsTrackedBy(rn)) == Filter(rs, (r: Rec) => !r.IsTrackedBy(rn))
    ensures TracksApart(WithoutFirst(rs, (r: Rec) => r.IsTrackedBy(rn)))
  {
    var keep := (r: Rec) => !r.IsTrackedBy(rn);
    var k := WithoutFirstSplits(rs, (r: Rec) => r.IsTrackedBy(rn));
    if k < |rs| {
      assert rs[k].IsTrackedBy(rn);
      FilterWithout(rs, keep, k);
      FilterAll(RemoveAt(rs, k), keep);
      TracksApartWithout(rs, k);
    } else {
      FilterAll(rs, keep);
    }
  }

  /** Section 7.2 of RFC 9147: while no number is tracked by two records, handling an ACK leaves exactly
      the records tracked by none of its numbers, in order. */
  lemma {:induction false} RemoveEachIsFilter(rs: seq<Rec>, rns: seq<RecordNumber>)
    requires TracksApart(rs)
    ensures RemoveEach(rs, rns) == Filter(rs, (r: Rec) => !r.IsTrackedByAny(rns))
    ensures TracksApart(RemoveEach(rs, rns))
    decreases |rns|
  {
    var keep := (r: Rec) => !r.IsTrackedByAny(rns);
    if rns == [] {
      FilterAll(rs, keep);
    } else {
      var first := (r: Rec) => !r.IsTrackedBy(rns[0]);
      var rest := (r: Rec) => !r.IsTrackedByAny(rns[1..]);
      RemoveOneIsFilter(rs, rns[0]);
      RemoveEachIsFilter(WithoutFirst(rs, (r: Rec) => r.IsTrackedBy(rns[0])), rns[1..]);
      forall i | 0 <= i < |rs|
        ensures keep(rs[i]) == (first(rs[i]) && rest(rs[i]))
      {
        assert forall j :: 0 <= j < |rns| ==> rns[j] == if j == 0 then rns[0] else rns[1..][j - 1];
        assert forall j :: 0 <= j < |rns[1..]| ==> rns[1..][j] == rns[j + 1];
      }
      FilterTwice(rs, first, rest, keep);
    }
  }

  /** A sequence without the element at k. */
  function RemoveAt<T>(s: seq<T>, k: nat): (r: seq<T>)
    requires k < |s|
    ensures |r| == |s| - 1
    ensures forall i {:trigger r[i]} :: 0 <= i < |r| ==> r[i] == s[if i < k then i else i + 1]
  {
    if k == 0 then s[1..] else [s[0]] + RemoveAt(s[1..], k - 1)
  }

  lemma StillDistinct<T>(s: seq<T>, k: nat)
    requires k < |s| && forall i, j :: 0 <= i < j < |s| ==> s[i] != s[j]
    ensures var r := RemoveAt(s, k); forall i, j :: 0 <= i < j < |r| ==> r[i] != r[j]
  {
  }

  // ----- the list linked in place ------------------------------------------------------

  class RtxRecord {
    var next: RtxRecord?
    ghost const id: nat
    const epoch: word64
    const hsType: HandshakeType
    const frag: Fragment
    const size: nat  // DTLS13_RETRANS_RN_SIZE
    var seqNumbers: seq<word64>
    var rnIdx: nat

    ghost predicate Valid()
      reads this`seqNumbers, this`rnIdx
    {
      1 <= rnIdx <= size == |seqNumbers|
    }

    ghost function Value(): Rec
      reads this`seqNumbers, this`rnIdx
      requires Valid()
    {
      Rec(id, epoch, hsType, frag, seqNumbers[..rnIdx])
    }

    /** Dtls13RtxNewRecord */
    constructor (ghost id: nat, epoch: word64, hsType: HandshakeType, frag: Fragment, seqNumber: word64, size: nat)
      requires size > 0
      ensures Valid() && this.size == size && next == null
      ensures Value() == Rec(id, epoch, hsType, frag, [seqNumber])
    {
      this.id, this.epoch, this.hsType, this.frag, this.size := id, epoch, hsType, frag, size;
      seqNumbers := seq(size, i => if i == 0 then seqNumber else 0);
      rnIdx := 1;
      next := null;
      new;
      assert seqNumbers[..1] == [seqNumber];
    }

    /** The tracking step of Dtls13RtxSendBuffered. */
    method TrackNumber(s: word64)
      requires Valid()
      modifies this`seqNumbers, this`rnIdx
      ensures Valid()
      ensures Value() == old(Value()).(tracked := Track(old(Value()).tracked, size, s))
    {
      if rnIdx >= size {
        rnIdx := 0;
      }
      seqNumbers := seqNumbers[rnIdx := s];
      rnIdx := rnIdx + 1;
      assert seqNumbers[..rnIdx] == seqNumbers[..rnIdx - 1] + [s];
    }

    /** Dtls13RtxIsTrackedByRn */
    method IsTrackedByRn(rn: RecordNumber) returns (b: bool)
      requires Valid()
      ensures b == Value().IsTrackedBy(rn)
    {
      if epoch != rn.epoch {
        return false;
      }
      var i := 0;
      while i < rnIdx
        invariant 0 <= i <= rnIdx
        invariant rn.seqNumber !in seqNumbers[..i]
      {
        if seqNumbers[i] == rn.seqNumber {
          assert seqNumbers[..rnIdx][i] == rn.seqNumber;
          return true;
        }
        i := i + 1;
      }
      return false;
    }
  }

  /** A pointer to a link of the list: the address of its head or of some record's next field. */
  datatype Link = HeadLink | NextOf(record: RtxRecord)

  class RtxList {
    const size: nat  // DTLS13_RETRANS_RN_SIZE
    var head: RtxRecord?
    var tailPtr: Link
    ghost var nodes: seq<RtxRecord>
    ghost var contents: seq<Rec>
    ghost var repr: set<RtxRecord>  // every record that has been on the list

    /** The links run through nodes, without repetition, to null. */
    ghost predicate Chain()
      reads this`head, this`nodes, this`repr, repr
    {
      && (forall i :: 0 <= i < |nodes| ==> nodes[i] in repr)
      && (forall i, j :: 0 <= i < j < |nodes| ==> nodes[i] != nodes[j])
      && head == Node(0)
      && (forall i {:trigger nodes[i].next} :: 0 <= i < |nodes| ==> nodes[i].next == Node(i + 1))
    }

    /** ... the records hold the contents ... */
    ghost predicate Linked()
      reads this`head, this`nodes, this`contents, this`repr, repr
    {
      && Chain()
      && |contents| == |nodes|
      && (forall i :: 0 <= i < |nodes| ==> nodes[i].Valid() && nodes[i].size == size && nodes[i].Value() == contents[i])
    }

    /** ... and the tail pointer names the link that holds the final null. */
    ghost predicate Valid()
      reads this, repr
    {
      Linked() && tailPtr == LinkTo(|nodes|)
    }

    ghost function Node(i: nat): RtxRecord?
      reads this`nodes
    {
      if i < |nodes| then nodes[i] else null
    }

    /** The link that holds the pointer to node i. */
    ghost function LinkTo(i: nat): Link
      reads this`nodes
      requires i <= |nodes|
    {
      if i == 0 then HeadLink else NextOf(nodes[i - 1])
    }

    constructor (size: nat)
      ensures Valid() && nodes == [] && contents == [] && repr == {} && this.size == size
    {
      this.size := size;
      head := null;
      tailPtr := HeadLink;
      nodes, contents, repr := [], [], {};
    }

    /** *link */
    function Deref(link: Link): RtxRecord?
      reads this`head, if link.NextOf? then {link.record} else {}
    {
      match link
      case HeadLink => head
      case NextOf(p) => p.next
    }

    /** *link = r */
    method Store(link: Link, r: RtxRecord?)
      modifies this`head, (if link.NextOf? then {link.record} else {})`next
      ensures Deref(link) == r
      ensures link.NextOf? ==> head == old(head)
    {
      match link
      case HeadLink => head := r;
      case NextOf(p) => p.next := r;
    }

    /** Hangs r on the link that holds the final null. */
    method Append(r: RtxRecord)
      requires Chain() && tailPtr == LinkTo(|nodes|) && r !in nodes
      modifies this`head, this`nodes, this`repr, repr`next, r`next
      ensures Chain() && nodes == old(nodes) + [r] && repr == old(repr) + {r}
    {
      Store(tailPtr, r);
      r.next := null;
      nodes, repr := nodes + [r], repr + {r};
    }

    /** Makes the link to r skip it. */
    method Skip(prevNext: Link, r: RtxRecord, ghost k: nat)
      requires Chain() && k < |nodes| && nodes[k] == r && prevNext == LinkTo(k)
      modifies this`head, this`nodes, repr`next
      ensures Chain() && nodes == RemoveAt(old(nodes), k)
      ensures Deref(prevNext) == old(r.next)
    {
      ghost var all := nodes;
      Store(prevNext, r.next);
      nodes := RemoveAt(all, k);
      StillDistinct(all, k);
      forall i | 0 <= i < |nodes| ensures nodes[i].next == Node(i + 1) {
        assert all[if i < k then i else i + 1] == nodes[i];
      }
    }

    /** ... and forgets its contents. */
    method Drop(prevNext: Link, r: RtxRecord, ghost k: nat)
      requires Linked() && k < |nodes| && nodes[k] == r && prevNext == LinkTo(k)
      modifies this`head, this`nodes, this`contents, repr`next
      ensures Linked() && nodes == RemoveAt(old(nodes), k) && contents == RemoveAt(old(contents), k)
      ensures Deref(prevNext) == old(r.next) && prevNext == LinkTo(k)
    {
      Skip(prevNext, r, k);
      contents := RemoveAt(contents, k);
    }

    /** Dtls13RtxAddRecord */
    method AddRecord(r: RtxRecord)
      requires Valid() && r !in nodes && r.Valid() && r.size == size
      modifies this, repr`next, r`next
      ensures Valid() && nodes == old(nodes) + [r] && repr == old(repr) + {r}
      ensures contents == old(contents) + [r.Value()]
    {
      Append(r);
      tailPtr := NextOf(r);
      contents := contents + [r.Value()];
    }

    /** Dtls13RtxRecordUnlink */
    method Unlink(prevNext: Link, r: RtxRecord, ghost k: nat)
      requires Valid() && k < |nodes| && nodes[k] == r && prevNext == LinkTo(k)
      modifies this, repr`next
      ensures Valid() && nodes == RemoveAt(old(nodes), k) && repr == old(repr)
      ensures contents == RemoveAt(old(contents), k)
    {
      if r.next == null {
        tailPtr := prevNext;
      }
      Drop(prevNext, r, k);
    }

    /** Dtls13RtxMoveToEndOfList */
    method MoveToEndOfList(prevNext: Link, r: RtxRecord, ghost k: nat)
      requires Valid() && k < |nodes| && nodes[k] == r && prevNext == LinkTo(k)
      modifies this, repr`next
      ensures Valid() && nodes == RemoveAt(old(nodes), k) + [r] && repr == old(repr)
      ensures contents == MovedToEnd(old(contents), k)
    {
      if r.next == null {
        assert k == |nodes| - 1;
        return;
      }
      Unlink(prevNext, r, k);
      AddRecord(r);
    }

    /** Dtls13RtxFlushBuffered */
    method FlushBuffered(keepNewSessionTicket: bool)
      requires Valid()
      modifies this, repr`next
      ensures Valid()
      ensures contents == Flushed(old(contents), keepNewSessionTicket)
      ensures repr == old(repr)
    {
      hide Linked, LinkTo, Node, RtxRecord.Valid, RtxRecord.Value, Flushed;
      AtHead();
      assert KeepsFirst(contents, keepNewSessionTicket, 0);
      hide KeepsFirst;
      var prevNext := HeadLink;
      var r := head;
      ghost var k := 0;
      while r != null
        invariant Linked() && repr == old(repr)
        invariant 0 <= k <= |nodes| == |contents| && prevNext == LinkTo(k) && r == Node(k)
        invariant KeepsFirst(contents, keepNewSessionTicket, k)
        invariant Flushed(contents, keepNewSessionTicket) == Flushed(old(contents), keepNewSessionTicket)
        decreases |nodes| - k
      {
        AtNode(k);
        FlushedNext(contents, keepNewSessionTicket, k);
        if keepNewSessionTicket && r.hsType == SESSION_TICKET {
          prevNext := NextOf(r);
          r := r.next;
          k := k + 1;
        } else {
          Drop(prevNext, r, k);
          r := Deref(prevNext);
          AfterDrop(k);
        }
      }
      AtNode(k);
      AllFlushed(contents, keepNewSessionTicket);
      tailPtr := prevNext;
    }

    lemma AtHead()
      requires Linked()
      ensures head == Node(0) && HeadLink == LinkTo(0) && |nodes| == |contents|
    {
    }

    /** What the links say about the k-th node. */
    lemma AtNode(k: nat)
      requires Linked() && k <= |nodes|
      ensures Node(k) == null <==> k == |nodes|
      ensures |nodes| == |contents|
      ensures k < |nodes| ==>
        && Node(k) == nodes[k] && nodes[k] in repr && nodes[k].next == Node(k + 1) && NextOf(nodes[k]) == LinkTo(k + 1)
        && nodes[k].Valid() && nodes[k].Value() == contents[k] && nodes[k].hsType == contents[k].hsType
    {
    }

    lemma NotAmongOthers(k: nat)
      requires Linked() && k < |nodes|
      ensures nodes[k] !in RemoveAt(nodes, k)
    {
    }

    /** The link to the k-th node holds it. */
    lemma AfterDrop(k: nat)
      requires Linked() && k <= |nodes|
      ensures Deref(LinkTo(k)) == Node(k) && |nodes| == |contents|
    {
      if k > 0 {
        assert nodes[k - 1].next == Node(k);
      }
    }

    /** Dtls13RtxRemoveRecord */
    method RemoveRecord(rn: RecordNumber)
      requires Valid()
      modifies this, repr`next
      ensures Valid()
      ensures contents == WithoutFirst(old(contents), (r: Rec) => r.IsTrackedBy(rn))
      ensures repr == old(repr)
    {
      var prevNext := HeadLink;
      var r := head;
      ghost var k := 0;
      while r != null
        invariant Valid() && nodes == old(nodes) && contents == old(contents) && repr == old(repr)
        invariant 0 <= k <= |nodes| && prevNext == LinkTo(k) && r == Node(k)
        invariant forall i :: 0 <= i < k ==> !contents[i].IsTrackedBy(rn)
        decreases |nodes| - k
      {
        var tracked := r.IsTrackedByRn(rn);
        if tracked {
          WithoutFirstIs(contents, (r: Rec) => r.IsTrackedBy(rn), k);
          Unlink(prevNext, r, k);
          return;
        }
        prevNext := NextOf(r);
        r := r.next;
        k := k + 1;
      }
      WithoutFirstIs(contents, (r: Rec) => r.IsTrackedBy(rn), k);
    }

    /** The loop of Dtls13MaybeSaveClientHello: the first ClientHello leaves the list and is returned. */
    method SaveClientHello() returns (saved: RtxRecord?)
      requires Valid()
      modifies this, repr`next
      ensures Valid()
      ensures contents == WithoutFirst(old(contents), (r: Rec) => r.hsType == CLIENT_HELLO)
      ensures saved == null <==> forall i :: 0 <= i < |old(contents)| ==> old(contents)[i].hsType != CLIENT_HELLO
      ensures repr == old(repr)
      ensures saved != null ==> saved in old(nodes) && saved !in nodes && saved.hsType == CLIENT_HELLO
    {
      hide Linked, LinkTo, Node, RtxRecord.Valid, RtxRecord.Value;
      AtHead();
      var prevNext := HeadLink;
      var r := head;
      ghost var k := 0;
      while r != null
        invariant Valid() && nodes == old(nodes) && contents == old(contents) && repr == old(repr)
        invariant 0 <= k <= |nodes| == |contents| && prevNext == LinkTo(k) && r == Node(k)
        invariant forall i :: 0 <= i < k ==> contents[i].hsType != CLIENT_HELLO
        decreases |nodes| - k
      {
        AtNode(k);
        if r.hsType == CLIENT_HELLO {
          WithoutFirstIs(contents, (r: Rec) => r.hsType == CLIENT_HELLO, k);
          NotAmongOthers(k);
          Unlink(prevNext, r, k);
          return r;
        }
        prevNext := NextOf(r);
        r := r.next;
        k := k + 1;
      }
      AtNode(k);
      WithoutFirstIs(contents, (r: Rec) => r.hsType == CLIENT_HELLO, k);
      return null;
    }

    /** The record at k tracks one more number. */
    method TrackAt(r: RtxRecord, ghost k: nat, s: word64)
      requires Valid() && k < |nodes| && nodes[k] == r
      modifies this`contents, repr`seqNumbers, repr`rnIdx
      ensures Valid()
      ensures contents == old(contents)[k := old(contents)[k].(tracked := Track(old(contents)[k].tracked, size, s))]
    {
      r.TrackNumber(s);
      contents := contents[k := contents[k].(tracked := Track(contents[k].tracked, size, s))];
    }

    /** The bookkeeping of Dtls13RtxSendBuffered for a record sent again: it tracks the number it was sent
        with, and goes to the end of the list if it is still to be flushed. */
    method Resent(prevNext: Link, r: RtxRecord, ghost k: nat, s: word64, wouldBlock: bool)
      requires Valid() && k < |nodes| && nodes[k] == r && prevNext == LinkTo(k)
      modifies this, repr
      ensures Valid() && repr == old(repr) && (!wouldBlock ==> nodes == old(nodes))
      ensures var rs := old(contents)[k := old(contents)[k].(tracked := Track(old(contents)[k].tracked, size, s))];
        contents == if wouldBlock then MovedToEnd(rs, k) else rs
    {
      hide Track, MovedToEnd, Valid;
      TrackAt(r, k, s);
      if wouldBlock {
        MoveToEndOfList(prevNext, r, k);
      }
    }

    method IsEmpty() returns (b: bool)
      requires Valid()
      ensures b <==> contents == []
    {
      b := head == null;
    }

    /** Dtls13RtxHasKeyUpdateBuffered */
    method HasKeyUpdateBuffered() returns (b: bool)
      requires Valid()
      ensures b == HasKeyUpdate(contents)
    {
      var r := head;
      ghost var k := 0;
      while r != null
        invariant 0 <= k <= |nodes| && r == Node(k)
        invariant forall i :: 0 <= i < k ==> contents[i].hsType != KEY_UPDATE
        decreases |nodes| - k
      {
        if r.hsType == KEY_UPDATE {
          assert contents[k].hsType == KEY_UPDATE;
          return true;
        }
        r := r.next;
        k := k + 1;
      }
      return false;
    }
  }
}
