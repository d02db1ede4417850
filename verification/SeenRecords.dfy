/** The record numbers received and not yet acknowledged: a linked list kept sorted
    by epoch and sequence number, without repetitions. */
module SeenRecords {
  import opened Words
  import opened RtxQueue
  import opened AckMessage

  predicate Less(a: RecordNumber, b: RecordNumber) {
    a.epoch < b.epoch || (a.epoch == b.epoch && a.seqNumber < b.seqNumber)
  }

  ghost predicate Sorted(rns: seq<RecordNumber>) {
    forall i, j :: 0 <= i < j < |rns| ==> Less(rns[i], rns[j])
  }

  ghost function Members(rns: seq<RecordNumber>): set<RecordNumber> { set rn | rn in rns }

  /** How many numbers of a list come before rn: where Dtls13RtxAddAck stops. */
  function Position(rns: seq<RecordNumber>, rn: RecordNumber): (p: nat)
    ensures p <= |rns|
    ensures forall i :: 0 <= i < p ==> rns[i] != rn && !Less(rn, rns[i])
    ensures p < |rns| ==> rns[p] == rn || Less(rn, rns[p])
  {
    if rns == [] || rns[0] == rn || Less(rn, rns[0]) then 0 else 1 + Position(rns[1..], rn)
  }

  /** Dtls13RtxAddAck */
  function Inserted(rns: seq<RecordNumber>, rn: RecordNumber): seq<RecordNumber> {
    var p := Position(rns, rn);
    if p < |rns| && rns[p] == rn then rns else rns[..p] + [rn] + rns[p..]
  }

  /** Dtls13RtxRemoveCurAck: the first entry equal to rn goes. */
  function Removed(rns: seq<RecordNumber>, rn: RecordNumber): seq<RecordNumber> {
    if rns == [] then [] else if rns[0] == rn then rns[1..] else [rns[0]] + Removed(rns[1..], rn)
  }

  lemma InsertedIs(rns: seq<RecordNumber>, rn: RecordNumber)
    requires Sorted(rns)
    ensures Sorted(Inserted(rns, rn)) && Members(Inserted(rns, rn)) == Members(rns) + {rn}
  {
    var p := Position(rns, rn);
    assert forall i :: 0 <= i < p ==> Less(rns[i], rn);
    hide Position;
    if !(p < |rns| && rns[p] == rn) {
      assert forall i :: p <= i < |rns| ==> Less(rn, rns[i]);
      InsertSorted(rns, rn, p);
      InsertMembers(rns, rn, p);
    }
  }

  lemma InsertSorted(rns: seq<RecordNumber>, rn: RecordNumber, p: nat)
    requires Sorted(rns) && p <= |rns|
    requires forall i :: 0 <= i < |rns| ==> if i < p then Less(rns[i], rn) else Less(rn, rns[i])
    ensures Sorted(rns[..p] + [rn] + rns[p..])
  {
    var s := rns[..p] + [rn] + rns[p..];
    assert forall i :: 0 <= i < |s| ==> s[i] == if i < p then rns[i] else if i == p then rn else rns[i - 1];
  }

  lemma InsertMembers(rns: seq<RecordNumber>, rn: RecordNumber, p: nat)
    requires p <= |rns|
    ensures Members(rns[..p] + [rn] + rns[p..]) == Members(rns) + {rn}
  {
    MembersOfConcat(rns[..p] + [rn], rns[p..]);
    MembersOfConcat(rns[..p], [rn]);
    MembersOfConcat(rns[..p], rns[p..]);
    assert rns == rns[..p] + rns[p..];
  }

  lemma MembersOfConcat(a: seq<RecordNumber>, b: seq<RecordNumber>)
    ensures Members(a + b) == Members(a) + Members(b)
  {
  }

  lemma {:induction false} RemovedIs(rns: seq<RecordNumber>, rn: RecordNumber)
    requires Sorted(rns)
    ensures Sorted(Removed(rns, rn)) && Members(Removed(rns, rn)) == Members(rns) - {rn}
  {
    if rns != [] {
      assert rns == [rns[0]] + rns[1..];
      MembersOfConcat([rns[0]], rns[1..]);
      if rns[0] == rn {
        assert rn !in Members(rns[1..]);
      } else {
        RemovedIs(rns[1..], rn);
        MembersOfConcat([rns[0]], Removed(rns[1..], rn));
        forall x | x in Removed(rns[1..], rn) ensures Less(rns[0], x) {
          assert x in Members(Removed(rns[1..], rn));
        }
      }
    }
  }

  lemma RemovedAt(rns: seq<RecordNumber>, rn: RecordNumber, k: nat)
    requires k <= |rns| && (k < |rns| ==> rns[k] == rn)
    requires forall i :: 0 <= i < k ==> rns[i] != rn
    ensures Removed(rns, rn) == if k < |rns| then RemoveAt(rns, k) else rns
  {
    if k > 0 {
      RemovedAt(rns[1..], rn, k - 1);
    }
  }

  datatype SeenOp = Add(rn: RecordNumber) | RemoveCurrent(rn: RecordNumber) | Flush

  function After(rns: seq<RecordNumber>, op: SeenOp): seq<RecordNumber> {
    match op
    case Add(rn) => Inserted(rns, rn)
    case RemoveCurrent(rn) => Removed(rns, rn)
    case Flush => []
  }

  function AfterAll(ops: seq<SeenOp>): seq<RecordNumber> {
    if ops == [] then [] else After(AfterAll(ops[..|ops| - 1]), ops[|ops| - 1])
  }

  /** The numbers added since the last flush and not removed since. */
  ghost function Outstanding(ops: seq<SeenOp>): set<RecordNumber> {
    if ops == [] then {}
    else
      var before := Outstanding(ops[..|ops| - 1]);
      match ops[|ops| - 1]
      case Add(rn) => before + {rn}
      case RemoveCurrent(rn) => before - {rn}
      case Flush => {}
  }

  /** After every sequence of operations the list is strictly sorted and holds exactly the outstanding numbers. */
  lemma {:induction false} ListIsOutstanding(ops: seq<SeenOp>)
    ensures Sorted(AfterAll(ops)) && Members(AfterAll(ops)) == Outstanding(ops)
  {
    if ops != [] {
      ListIsOutstanding(ops[..|ops| - 1]);
      var before := AfterAll(ops[..|ops| - 1]);
      match ops[|ops| - 1]
      case Add(rn) => InsertedIs(before, rn);
      case RemoveCurrent(rn) => RemovedIs(before, rn);
      case Flush =>
    }
  }

  class SeenRecord {
    const rn: RecordNumber
    var next: SeenRecord?

    /** Dtls13NewRecordNumber */
    constructor (rn: RecordNumber)
      ensures this.rn == rn && next == null
    {
      this.rn := rn;
      next := null;
    }
  }

  class SeenList {
    var head: SeenRecord?
    ghost var nodes: seq<SeenRecord>
    ghost var repr: set<SeenRecord>  // every record that has been on the list

    ghost predicate Valid()
      reads this, repr
    {
      && (forall i :: 0 <= i < |nodes| ==> nodes[i] in repr)
      && (forall i, j :: 0 <= i < j < |nodes| ==> nodes[i] != nodes[j])
      && head == Node(0)
      && (forall i {:trigger nodes[i].next} :: 0 <= i < |nodes| ==> nodes[i].next == Node(i + 1))
    }

    ghost function Node(i: nat): SeenRecord?
      reads this`nodes
    {
      if i < |nodes| then nodes[i] else null
    }

    ghost function Contents(): (c: seq<RecordNumber>)
      reads this`nodes
      ensures |c| == |nodes| && forall i :: 0 <= i < |nodes| ==> c[i] == nodes[i].rn
    {
      var ns := nodes;
      seq(|ns|, i requires 0 <= i < |ns| => ns[i].rn)
    }

    constructor ()
      ensures Valid() && Contents() == [] && repr == {}
    {
      head := null;
      nodes, repr := [], {};
    }

    /** Puts r behind prev, or at the head. */
    method Insert(prev: SeenRecord?, r: SeenRecord, cur: SeenRecord?, ghost p: nat)
      requires Valid() && p <= |nodes| && cur == Node(p) && r !in nodes
      requires prev == if p == 0 then null else nodes[p - 1]
      modifies this, repr`next, r`next
      ensures Valid() && nodes == old(nodes)[..p] + [r] + old(nodes)[p..] && repr == old(repr) + {r}
    {
      if prev == null {
        head := r;
      } else {
        prev.next := r;
      }
      r.next := cur;
      nodes, repr := nodes[..p] + [r] + nodes[p..], repr + {r};
    }

    /** The search of Dtls13RtxAddAck: the first record that is not below rn, and the one before it. */
    method FindPlace(rn: RecordNumber) returns (prev: SeenRecord?, cur: SeenRecord?, ghost p: nat)
      requires Valid()
      ensures p == Position(Contents(), rn) && cur == Node(p) && prev == if p == 0 then null else nodes[p - 1]
    {
      prev, cur, p := null, head, 0;
      assert Contents()[0..] == Contents();
      while cur != null
        invariant 0 <= p <= |nodes| && cur == Node(p) && prev == (if p == 0 then null else nodes[p - 1])
        invariant Position(Contents(), rn) == p + Position(Contents()[p..], rn)
        decreases |nodes| - p
      {
        assert Contents()[p..][0] == cur.rn;
        if cur.rn == rn || Less(rn, cur.rn) {
          return;
        }
        assert Contents()[p..][1..] == Contents()[p + 1..];
        prev, cur, p := cur, cur.next, p + 1;
      }
    }

    /** Dtls13RtxAddAck */
    method AddAck(rn: RecordNumber)
      requires Valid()
      modifies this, repr`next
      ensures Valid() && Contents() == Inserted(old(Contents()), rn) && fresh(repr - old(repr))
    {
      hide Position;
      var prev, cur, p := FindPlace(rn);
      if cur == null || cur.rn != rn {
        var r := new SeenRecord(rn);
        Insert(prev, r, cur, p);
        assert Contents() == old(Contents())[..p] + [rn] + old(Contents())[p..];
      }
    }

    /** Dtls13RtxFlushAcks */
    method FlushAcks()
      requires Valid()
      modifies this
      ensures Valid() && Contents() == [] && repr == old(repr)
    {
      head := null;
      nodes := [];
    }

    /** Makes prev, or the head, skip cur. */
    method Unlink(prev: SeenRecord?, cur: SeenRecord, ghost p: nat)
      requires Valid() && p < |nodes| && cur == nodes[p]
      requires prev == if p == 0 then null else nodes[p - 1]
      modifies this, repr`next
      ensures Valid() && nodes == RemoveAt(old(nodes), p) && repr == old(repr)
    {
      if prev == null {
        head := cur.next;
      } else {
        prev.next := cur.next;
      }
      nodes := RemoveAt(nodes, p);
    }

    /** Dtls13RtxRemoveCurAck */
    method RemoveCurAck(rn: RecordNumber)
      requires Valid()
      modifies this, repr`next
      ensures Valid() && Contents() == Removed(old(Contents()), rn) && repr == old(repr)
    {
      var prev, cur := null, head;
      ghost var p := 0;
      while cur != null
        invariant Valid() && nodes == old(nodes) && repr == old(repr)
        invariant 0 <= p <= |nodes| && cur == Node(p) && prev == (if p == 0 then null else nodes[p - 1])
        invariant forall i :: 0 <= i < p ==> nodes[i].rn != rn
        decreases |nodes| - p
      {
        if cur.rn == rn {
          RemovedAt(Contents(), rn, p);
          Unlink(prev, cur, p);
          return;
        }
        prev, cur := cur, cur.next;
        p := p + 1;
      }
      RemovedAt(Contents(), rn, p);
    }

    /** Dtls13GetAckListLength */
    method AckListLength() returns (length: word16)
      requires Valid()
      ensures length == ListLength(|Contents()|)
    {
      var n := 0;
      var cur := head;
      while cur != null
        invariant 0 <= n <= |nodes| && cur == Node(n)
        decreases |nodes| - n
      {
        cur := cur.next;
        n := n + 1;
      }
      length := (DTLS13_RN_SIZE * n) % 0x1_0000;
    }

    /** Dtls13WriteAckMessage: the bytes that go into the record. */
    method WriteAckMessage() returns (message: seq<byte>)
      requires Valid()
      ensures message == WriteAck(Contents())
    {
      hide C64toa, C16toa;
      var length := AckListLength();
      var body: seq<byte> := [];
      var cur := head;
      ghost var p := 0;
      assert Contents()[0..] == Contents();
      while cur != null
        invariant 0 <= p <= |nodes| && cur == Node(p)
        invariant body + EncodeNumbers(Contents()[p..]) == EncodeNumbers(Contents())
        decreases |nodes| - p
      {
        assert Contents()[p..][0] == cur.rn && Contents()[p..][1..] == Contents()[p + 1..];
        body := body + (C64toa(cur.rn.epoch) + C64toa(cur.rn.seqNumber));
        cur := cur.next;
        p := p + 1;
      }
      assert body == EncodeNumbers(Contents());
      message := C16toa(length) + body[..length];
    }
  }
}
