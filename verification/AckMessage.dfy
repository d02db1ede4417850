/** The ACK message of section 7 of RFC 9147: a length and that many bytes of record numbers. */
module AckMessage {
  import opened Words
  import opened RtxQueue

  const DTLS13_RN_SIZE: nat := 16

  datatype Parsed = Acked(numbers: seq<RecordNumber>, processed: nat) | BufferError | ParseError

  function EncodeNumber(rn: RecordNumber): (b: seq<byte>)
    ensures |b| == DTLS13_RN_SIZE
  {
    C64toa(rn.epoch) + C64toa(rn.seqNumber)
  }

  function DecodeNumber(b: seq<byte>): RecordNumber
    requires |b| >= DTLS13_RN_SIZE
  {
    RecordNumber(Ato64(b), Ato64(b[8..]))
  }

  function EncodeNumbers(rns: seq<RecordNumber>): (b: seq<byte>)
    ensures |b| == DTLS13_RN_SIZE * |rns|
  {
    if rns == [] then [] else EncodeNumber(rns[0]) + EncodeNumbers(rns[1..])
  }

  function DecodeNumbers(b: seq<byte>): (rns: seq<RecordNumber>)
    ensures |rns| == |b| / DTLS13_RN_SIZE
  {
    if |b| < DTLS13_RN_SIZE then [] else [DecodeNumber(b)] + DecodeNumbers(b[DTLS13_RN_SIZE..])
  }

  /** The length Dtls13GetAckListLength computes, cut to sixteen bits. */
  function ListLength(n: nat): word16 { (DTLS13_RN_SIZE * n) % 0x1_0000 }

  /** What Dtls13WriteAckMessage puts into the record: the length, and as many bytes as it says. */
  function WriteAck(rns: seq<RecordNumber>): seq<byte> {
    C16toa(ListLength(|rns|)) + EncodeNumbers(rns)[..ListLength(|rns|)]
  }

  /** The parsing half of DoDtls13Ack */
  function ParseAck(input: seq<byte>): Parsed {
    if |input| < 2 then BufferError
    else
      var length := Ato16(input);
      if |input| < 2 + length then BufferError
      else if length % DTLS13_RN_SIZE != 0 then ParseError
      else Acked(DecodeNumbers(input[2..2 + length]), length + 2)
  }

  lemma NumberRoundTrip(rn: RecordNumber, tail: seq<byte>)
    ensures DecodeNumber(EncodeNumber(rn) + tail) == rn
  {
    assert EncodeNumber(rn) + tail == C64toa(rn.epoch) + (C64toa(rn.seqNumber) + tail);
    Ato64OfC64toa(rn.epoch, C64toa(rn.seqNumber) + tail);
    assert (EncodeNumber(rn) + tail)[8..] == C64toa(rn.seqNumber) + tail;
    Ato64OfC64toa(rn.seqNumber, tail);
  }

  /** The entry in front is decoded first. */
  lemma DecodeFirst(rn: RecordNumber, tail: seq<byte>)
    ensures DecodeNumbers(EncodeNumber(rn) + tail) == [rn] + DecodeNumbers(tail)
  {
    NumberRoundTrip(rn, tail);
    hide EncodeNumber, DecodeNumber;
    assert (EncodeNumber(rn) + tail)[DTLS13_RN_SIZE..] == tail;
  }

  lemma CutBehind(a: seq<byte>, b: seq<byte>, k: nat)
    requires |a| <= k <= |a| + |b|
    ensures (a + b)[..k] == a + b[..k - |a|]
  {
  }

  /** Decoding any whole number of entries of an encoded list gives that many of its numbers. */
  lemma {:induction false} DecodePrefix(rns: seq<RecordNumber>, n: nat)
    requires n <= |rns|
    ensures DecodeNumbers(EncodeNumbers(rns)[..DTLS13_RN_SIZE * n]) == rns[..n]
  {
    hide EncodeNumber, DecodeNumber;
    if n > 0 {
      var rest := EncodeNumbers(rns[1..]);
      CutBehind(EncodeNumber(rns[0]), rest, DTLS13_RN_SIZE * n);
      DecodeFirst(rns[0], rest[..DTLS13_RN_SIZE * (n - 1)]);
      DecodePrefix(rns[1..], n - 1);
      assert rns[..n] == [rns[0]] + rns[1..][..n - 1];
    }
  }

  lemma LengthWraps(n: nat)
    ensures ListLength(n) == DTLS13_RN_SIZE * (n % 4096)
  {
    assert n == 4096 * (n / 4096) + n % 4096;
    assert DTLS13_RN_SIZE * n == 0x1_0000 * (n / 4096) + DTLS13_RN_SIZE * (n % 4096);
  }

  /** Parsing a written ACK gives back the numbers left over when every full block of 4096 is dropped. */
  lemma WrittenAckParses(rns: seq<RecordNumber>, tail: seq<byte>)
    ensures ParseAck(WriteAck(rns) + tail) == Acked(rns[..|rns| % 4096], 2 + DTLS13_RN_SIZE * (|rns| % 4096))
  {
    var len := ListLength(|rns|);
    var body := EncodeNumbers(rns)[..len];
    var input := WriteAck(rns) + tail;
    LengthWraps(|rns|);
    assert input == C16toa(len) + (body + tail);
    Ato16OfC16toa(len, body + tail);
    assert input[2..2 + len] == body;
    DecodePrefix(rns, |rns| % 4096);
  }

  lemma NumberDecoded(b: seq<byte>)
    requires |b| >= DTLS13_RN_SIZE
    ensures EncodeNumber(DecodeNumber(b)) == b[..DTLS13_RN_SIZE]
  {
    C64toaOfAto64(b);
    C64toaOfAto64(b[8..]);
    hide C64toa, Ato64;
    assert b[..8] + b[8..][..8] == b[..16];
  }

  lemma {:induction false} EncodeOfDecode(b: seq<byte>)
    requires |b| % DTLS13_RN_SIZE == 0
    ensures EncodeNumbers(DecodeNumbers(b)) == b
  {
    hide EncodeNumber, DecodeNumber;
    if b != [] {
      NumberDecoded(b);
      EncodeOfDecode(b[DTLS13_RN_SIZE..]);
      assert b[..DTLS13_RN_SIZE] + b[DTLS13_RN_SIZE..] == b;
    }
  }

  /** The bytes an ACK tells that it has are the numbers it names, one after the other; it is refused exactly if they
      are not all there, or not whole numbers. */
  lemma ParsesExactly(input: seq<byte>)
    ensures match ParseAck(input)
      case BufferError => |input| < 2 || |input| - 2 < Ato16(input)
      case ParseError => 2 <= |input| && Ato16(input) <= |input| - 2 && Ato16(input) % 16 != 0
      case Acked(numbers, processed) =>
        2 <= processed <= |input| && input[..processed] == C16toa(processed - 2) + EncodeNumbers(numbers)
  {
    hide C16toa, Ato16, EncodeNumbers, DecodeNumbers;
    if ParseAck(input).Acked? {
      var length := Ato16(input);
      EncodeOfDecode(input[2..2 + length]);
      C16toaOfAto16(input);
      assert input[..2] + input[2..2 + length] == input[..2 + length];
    }
  }

  /** So the list survives exactly when it has at most 4095 numbers. */
  lemma AckSurvivesExactlyUpTo4095(rns: seq<RecordNumber>, tail: seq<byte>)
    ensures ParseAck(WriteAck(rns) + tail) == Acked(rns, 2 + DTLS13_RN_SIZE * |rns|) <==> |rns| <= 4095
  {
    hide ParseAck, WriteAck;
    WrittenAckParses(rns, tail);
    assert |rns[..|rns| % 4096]| == |rns| % 4096 < 4096;
    if |rns| <= 4095 {
      assert rns[..|rns|] == rns;
    }
  }
}
