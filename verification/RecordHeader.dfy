/** The unified header of protected DTLS 1.3 records: built and protected by the sender, parsed in place
    and completed to full record numbers by the receiver. */
module RecordHeader {
  import opened Words
  import opened EpochTable

  const DTLS13_FIXED_BITS: byte := 0x20
  const DTLS13_CID_BIT: byte := 0x10
  const DTLS13_SEQ_LEN_BIT: byte := 0x08
  const DTLS13_LEN_BIT: byte := 0x04
  const DTLS13_UNIFIED_HEADER_SIZE: nat := 5
  const DTLS13_RN_MASK_SIZE: nat := 16
  const DTLS_RECVD_RL_HEADER_MAX_SZ: nat := 15
  const DTLS13_EPOCH_EARLYDATA: word64 := 1

  datatype Error = BadFuncArg | BufferError | LengthError | CidError | SequenceError | PartialRecord

  datatype Result<T> = Ok(value: T) | Err(error: Error)

  /** What one end has negotiated: connection ids for sending and receiving, whether the cipher suite is
      one of the NULL suites, and whether the build accepts early data. */
  datatype Config = Config(cidEnabled: bool, cidTx: seq<byte>, cidRx: seq<byte>, nullCipher: bool, earlyData: bool)
  {
    function Tx(): seq<byte> { if cidEnabled then cidTx else [] }

    function Rx(): seq<byte> { if cidEnabled then cidRx else [] }
  }

  /** Byte i of the mask that the record number key of an epoch makes of sixteen bytes of ciphertext. */
  type Mask = (word64, seq<byte>, nat) -> byte

  /** flags & bit, for a bit that is a power of two. */
  predicate HasBit(flags: byte, bit: byte)
    requires bit > 0
  {
    flags / bit % 2 == 1
  }

  // ----- building and protecting -----------------------------------------------------------

  /** The flags that announce the connection id, a 16-bit number and a length. */
  function Flags(epoch: word64, cid: seq<byte>): byte {
    DTLS13_FIXED_BITS + EpochBits(epoch) + (if cid == [] then 0 else DTLS13_CID_BIT) + DTLS13_SEQ_LEN_BIT
        + DTLS13_LEN_BIT
  }

  function Header(epoch: word64, seqNumber: word64, cid: seq<byte>, length: word16): (h: seq<byte>)
    ensures |h| == DTLS13_UNIFIED_HEADER_SIZE + |cid|
  {
    [Flags(epoch, cid)] + cid + C16toa(seqNumber % 0x1_0000) + C16toa(length)
  }

  /** n bytes from at on, masked with a mask made of the sixteen bytes from ct on. */
  function Masked(buf: seq<byte>, at: nat, n: nat, ct: nat, epoch: word64, mask: Mask): (r: seq<byte>)
    requires at + n <= ct && ct + DTLS13_RN_MASK_SIZE <= |buf|
    ensures |r| == |buf|
  {
    seq(|buf|, i requires 0 <= i < |buf| =>
      if at <= i < at + n then Xor(buf[i], mask(epoch, buf[ct..ct + DTLS13_RN_MASK_SIZE], i - at)) else buf[i])
  }

  lemma MaskedTwice(buf: seq<byte>, at: nat, n: nat, ct: nat, epoch: word64, mask: Mask)
    requires at + n <= ct && ct + DTLS13_RN_MASK_SIZE <= |buf|
    ensures Masked(Masked(buf, at, n, ct, epoch, mask), at, n, ct, epoch, mask) == buf
  {
    var once := Masked(buf, at, n, ct, epoch, mask);
    assert once[ct..ct + DTLS13_RN_MASK_SIZE] == buf[ct..ct + DTLS13_RN_MASK_SIZE];
    forall i | at <= i < at + n ensures Masked(once, at, n, ct, epoch, mask)[i] == buf[i] {
      XorTwice(buf[i], mask(epoch, buf[ct..ct + DTLS13_RN_MASK_SIZE], i - at));
    }
  }

  /** Dtls13EncryptRecordNumber on a whole record; the length bit decides how long the number is taken to be. */
  function Protect(cfg: Config, epoch: word64, record: seq<byte>, mask: Mask): (r: (Result<()>, seq<byte>))
    ensures |r.1| == |record|
  {
    if cfg.nullCipher then (Ok(()), record)
    else if |record| < DTLS13_UNIFIED_HEADER_SIZE + |cfg.Tx()| + DTLS13_RN_MASK_SIZE then (Err(BufferError), record)
    else
      var long := HasBit(record[0], DTLS13_LEN_BIT);
      (Ok(()), Masked(record, 1 + |cfg.Tx()|, if long then 2 else 1, |cfg.Tx()| + (if long then 5 else 2), epoch, mask))
  }

  /** Dtls13RlAddCiphertextHeader */
  method AddCiphertextHeader(cfg: Config, epochs: Epochs, out: array<byte>, length: word16)
    requires epochs.Represents() && epochs.enc < epochs.slots.Length
    requires out.Length >= DTLS13_UNIFIED_HEADER_SIZE + |cfg.Tx()|
    modifies out
    ensures out[..] == Header(SendingEpoch(epochs.table), NextSeq(epochs.table), cfg.Tx(), length)
                       + old(out[DTLS13_UNIFIED_HEADER_SIZE + |cfg.Tx()|..])
  {
    var slot := epochs.slots[epochs.enc];
    assert slot == epochs.table.slots[epochs.table.enc];
    hide Epochs.Represents;
    var cid := cfg.Tx();
    out[0] := DTLS13_FIXED_BITS;
    out[0] := out[0] + EpochBits(slot.epochNumber);
    var idx := 1;
    if cid != [] {
      out[0] := out[0] + DTLS13_CID_BIT;
      forall i | 0 <= i < |cid| {
        out[idx + i] := cid[i];
      }
      idx := idx + |cid|;
    }
    out[0] := out[0] + DTLS13_SEQ_LEN_BIT;
    out[0] := out[0] + DTLS13_LEN_BIT;
    assert out[..idx] == [Flags(slot.epochNumber, cid)] + cid;
    assert out[idx + 4..] == old(out[idx + 4..]);
    hide Flags;
    PutNumbers(out, idx, slot.nextSeq, length);
  }

  /** The number cut to sixteen bits, and the length. */
  method PutNumbers(out: array<byte>, idx: nat, nextSeq: word64, length: word16)
    requires idx + 4 <= out.Length
    modifies out
    ensures out[..] == old(out[..idx]) + C16toa(nextSeq % 0x1_0000) + C16toa(length) + old(out[idx + 4..])
  {
    var seqNumber := nextSeq % 0x1_0000;
    out[idx], out[idx + 1] := seqNumber / 0x100, seqNumber % 0x100;
    out[idx + 2], out[idx + 3] := length / 0x100, length % 0x100;
  }

  /** Dtls13EncryptDecryptRecordNumber with xorbuf; the NULL suites are dealt with by its callers too. */
  method XorNumber(buf: array<byte>, at: nat, n: nat, ct: nat, epoch: word64, mask: Mask)
    requires at + n <= ct && ct + DTLS13_RN_MASK_SIZE <= buf.Length
    modifies buf
    ensures buf[..] == Masked(old(buf[..]), at, n, ct, epoch, mask)
  {
    var ciphertext := buf[ct..ct + DTLS13_RN_MASK_SIZE];
    var i := 0;
    while i < n
      invariant 0 <= i <= n
      invariant forall k :: 0 <= k < buf.Length ==>
        buf[k] == if at <= k < at + i then Masked(old(buf[..]), at, n, ct, epoch, mask)[k] else old(buf[k])
    {
      buf[at + i] := Xor(buf[at + i], mask(epoch, ciphertext, i));
      i := i + 1;
    }
  }

  /** Dtls13EncryptRecordNumber */
  method EncryptRecordNumber(cfg: Config, epochs: Epochs, hdr: array<byte>, mask: Mask) returns (r: Result<()>)
    requires epochs.Represents() && epochs.enc < epochs.slots.Length
    modifies hdr
    ensures (r, hdr[..]) == Protect(cfg, SendingEpoch(epochs.table), old(hdr[..]), mask)
  {
    if cfg.nullCipher {
      return Ok(());
    }
    if hdr.Length < DTLS13_UNIFIED_HEADER_SIZE + |cfg.Tx()| + DTLS13_RN_MASK_SIZE {
      return Err(BufferError);
    }
    var seqLength := if HasBit(hdr[0], DTLS13_LEN_BIT) then 2 else 1;
    var hdrLength := 1 + seqLength + |cfg.Tx()|;
    if HasBit(hdr[0], DTLS13_LEN_BIT) {
      hdrLength := hdrLength + 2;
    }
    XorNumber(hdr, 1 + |cfg.Tx()|, seqLength, hdrLength, epochs.slots[epochs.enc].epochNumber, mask);
    r := Ok(());
  }

  // ----- recognising and parsing -----------------------------------------------------------------

  /** Dtls13IsUnifiedHeader: not alert (21), handshake (22) or ack (26), and the fixed bits under the mask
      0x111 << 5. */
  predicate IsUnifiedHeader(first: byte) {
    first != 21 && first != 22 && first != 26 && (first as bv16) & 0x2220 == 0x20
  }

  /** The mask reaches beyond the byte, so that only bit 5 decides; of the headers of section 4 of RFC 9147,
      001xxxxx, it accepts all, and of the bytes 011xxxxx, 101xxxxx and 111xxxxx as well. */
  lemma UnifiedMeansBit5(first: byte)
    ensures IsUnifiedHeader(first) <==> HasBit(first, DTLS13_FIXED_BITS)
  {
    var x := first as bv16;
    assert x < 256;
    assert (x & 0x2220 == 0x20) == ((x >> 5) & 1 == 1);
  }

  /** Dtls13UnifiedHdrInfo */
  datatype HeaderInfo =
    HeaderInfo(recordLength: word16, epochBits: word16, seqHiPresent: bool, seqHi: byte, seqLo: byte)

  /** Dtls13UnifiedHeaderParseCID: where the number starts. */
  function CidEnd(cfg: Config, input: seq<byte>): Result<nat>
    requires |input| >= 1
  {
    if HasBit(input[0], DTLS13_CID_BIT) then
      if cfg.Rx() == [] || !(cfg.Rx() <= input[1..]) then Err(CidError) else Ok(1 + |cfg.Rx()|)
    else if cfg.Rx() != [] then Err(CidError) else Ok(1)
  }

  /** Where the ciphertext starts and how long it is. */
  function Extent(input: seq<byte>, numberAt: nat): (r: Result<(nat, word16)>)
    requires 1 <= |input| < 0x1_0000
    ensures r.Ok? ==> numberAt + 1 <= r.value.0 <= |input|
  {
    var end := numberAt + if HasBit(input[0], DTLS13_SEQ_LEN_BIT) then 2 else 1;
    if |input| < end then Err(BufferError)
    else if HasBit(input[0], DTLS13_LEN_BIT) then
      if |input| < end + 2 then Err(BufferError) else Ok((end + 2, Ato16(input[end..])))
    else Ok((end, |input| - end))
  }

  /** The bytes of the number, read at the end. */
  function Info(input: seq<byte>, numberAt: nat, length: word16): HeaderInfo
    requires 1 <= |input| && numberAt + (if HasBit(input[0], DTLS13_SEQ_LEN_BIT) then 2 else 1) <= |input|
  {
    if HasBit(input[0], DTLS13_SEQ_LEN_BIT)
    then HeaderInfo(length, input[0] % 4, true, input[numberAt], input[numberAt + 1])
    else HeaderInfo(length, input[0] % 4, false, 0, input[numberAt])
  }

  /** Dtls13ParseUnifiedRecordLayer: what is parsed, and the input with its number decrypted. */
  function Parse(cfg: Config, input: seq<byte>, epoch: word64, mask: Mask): (r: (Result<HeaderInfo>, seq<byte>))
    requires |input| < 0x1_0000
    ensures |r.1| == |input|
  {
    if |input| < 1 then (Err(BadFuncArg), input)
    else
      var at := CidEnd(cfg, input);
      if at.Err? then (Err(at.error), input)
      else
        var extent := Extent(input, at.value);
        if extent.Err? then (Err(extent.error), input)
        else
          var (start, length) := extent.value;
          if cfg.nullCipher then (Ok(Info(input, at.value, length)), input)
          else if length < DTLS13_RN_MASK_SIZE then (Err(LengthError), input)
          else if |input| < start + DTLS13_RN_MASK_SIZE then (Err(BufferError), input)
          else
            var n := if HasBit(input[0], DTLS13_SEQ_LEN_BIT) then 2 else 1;
            var clear := Masked(input, at.value, n, start, epoch, mask);
            (Ok(Info(clear, at.value, length)), clear)
  }

  method ParseUnifiedRecordLayer(cfg: Config, input: array<byte>, epoch: word64, mask: Mask)
    returns (r: Result<HeaderInfo>)
    requires input.Length < 0x1_0000
    modifies input
    ensures (r, input[..]) == Parse(cfg, old(input[..]), epoch, mask)
  {
    hide Masked, Ato16, Info;
    if input.Length < 1 {
      return Err(BadFuncArg);
    }
    var flags := input[0];
    var at := CidEnd(cfg, input[..]);
    if at.Err? {
      return Err(at.error);
    }
    var idx := at.value;
    var seqLen := if HasBit(flags, DTLS13_SEQ_LEN_BIT) then 2 else 1;
    idx := idx + seqLen;
    if input.Length < idx {
      return Err(BufferError);
    }
    var recordLength: word16;
    if HasBit(flags, DTLS13_LEN_BIT) {
      if input.Length < idx + 2 {
        return Err(BufferError);
      }
      recordLength := Ato16(input[idx..]);
      idx := idx + 2;
    } else {
      recordLength := input.Length - idx;
    }
    if !cfg.nullCipher {
      if recordLength < DTLS13_RN_MASK_SIZE {
        return Err(LengthError);
      }
      if input.Length < idx + DTLS13_RN_MASK_SIZE {
        return Err(BufferError);
      }
      XorNumber(input, at.value, seqLen, idx, epoch, mask);
    }
    r := Ok(Info(input[..], at.value, recordLength));
  }

  // ----- full sequence numbers ---------------------------------------------------------------------

  /** Dtls13ReconstructSeqNumber, with mask + 1 == shift. */
  function Reconstruct(expected: word64, low: word16, shift: int): word64
    requires shift == 0x100 || shift == 0x1_0000
    requires low < shift
  {
    var expectedLow := expected % shift;
    var out := expected - expectedLow + low;
    if low >= expectedLow then
      if low - expectedLow > shift / 2 && out >= shift then out - shift else out
    else
      if expectedLow - low > shift / 2 && out + shift < TWO_64 then out + shift else out
  }

  function ReconstructSeqNumber(expected: word64, info: HeaderInfo): word64 {
    if info.seqHiPresent then Reconstruct(expected, info.seqHi as int * 0x100 + info.seqLo, 0x1_0000)
    else Reconstruct(expected, info.seqLo, 0x100)
  }

  function Distance(a: int, b: int): int { if a < b then b - a else a - b }

  lemma CongruentApart(x: int, r: int, shift: int)
    requires shift == 0x100 || shift == 0x1_0000
    requires x % shift == r % shift
    ensures x == r || Distance(x, r) >= shift
  {
    assert shift == 0x100 ==> x / 0x100 != r / 0x100 || x == r;
  }

  /** Section 4.2.2 of RFC 9147: of all 64-bit numbers with the given low bits, the one reconstructed is as
      close to the expected number as any. */
  lemma ReconstructsNearest(expected: word64, low: word16, shift: int, x: word64)
    requires shift == 0x100 || shift == 0x1_0000
    requires low < shift
    ensures Reconstruct(expected, low, shift) % shift == low
    ensures x % shift == low ==> Distance(Reconstruct(expected, low, shift), expected) <= Distance(x, expected)
  {
    var r := Reconstruct(expected, low, shift);
    ReconstructsCongruent(expected, low, shift);
    ReconstructsClose(expected, low, shift);
    if x % shift == low {
      CongruentApart(x, r, shift);
    }
  }

  lemma ReconstructsClose(expected: word64, low: word16, shift: int)
    requires shift == 0x100 || shift == 0x1_0000
    requires low < shift
    ensures var r := Reconstruct(expected, low, shift);
      Distance(r, expected) <= shift / 2 || (r > expected && r < shift) || (r < expected && r >= TWO_64 - shift)
  {
  }

  lemma LowBits(q: int, low: int, shift: int)
    requires shift == 0x100 || shift == 0x1_0000
    requires 0 <= low < shift
    ensures (q * shift + low) % shift == low
  {
    if shift == 0x100 {
      assert (q * 0x100 + low) % 0x100 == low;
    } else {
      assert (q * 0x1_0000 + low) % 0x1_0000 == low;
    }
  }

  lemma ReconstructsCongruent(expected: word64, low: word16, shift: int)
    requires shift == 0x100 || shift == 0x1_0000
    requires low < shift
    ensures Reconstruct(expected, low, shift) % shift == low
  {
    var q := expected / shift;
    assert expected - expected % shift == q * shift;
    LowBits(q - 1, low, shift);
    LowBits(q, low, shift);
    LowBits(q + 1, low, shift);
  }

  /** The only candidate, or one of two at the same distance that shares its higher bits with the expected number. */
  predicate Preferred(expected: word64, n: word64, shift: int)
    requires shift > 0
  {
    || Distance(n, expected) < shift / 2
    || (&& n / shift == expected / shift
        && (Distance(n, expected) == shift / 2 || (expected < n < shift) || (TWO_64 - shift <= n < expected)))
  }

  /** A number is recovered from its low bits exactly when it is less than half the span away from the expected
      one, or shares the higher bits with it and no other candidate is closer. */
  lemma ReconstructsExactly(expected: word64, n: word64, shift: int)
    requires shift == 0x100 || shift == 0x1_0000
    ensures Reconstruct(expected, n % shift, shift) == n <==> Preferred(expected, n, shift)
  {
    if shift == 0x100 {
      Reconstructs8Exactly(expected, n);
    } else {
      Reconstructs16Exactly(expected, n);
    }
  }

  lemma Reconstructs8Exactly(expected: word64, n: word64)
    ensures Reconstruct(expected, n % 0x100, 0x100) == n <==> Preferred(expected, n, 0x100)
  {
  }

  lemma Reconstructs16Exactly(expected: word64, n: word64)
    ensures Reconstruct(expected, n % 0x1_0000, 0x1_0000) == n <==> Preferred(expected, n, 0x1_0000)
  {
  }

  // ----- one received record, from its bytes to its full number ----------------------------------------

  datatype Received = Received(recordLength: word16, epoch: word64, seqNumber: word64)

  /** The keys of the epoch a record is in, chosen before its header is parsed: nothing is accepted in epoch 0,
      nor as early data once the handshake is done. */
  function SelectKeys(t: Table, cfg: Config, first: byte): (r: (bool, Table))
    requires t.dec < |t.slots|
    ensures r.1.dec < |r.1.slots| && r.1.slots == t.slots
  {
    var epoch := ReconstructedEpoch(t, first % 4);
    if epoch <= 0 || (cfg.earlyData && epoch == DTLS13_EPOCH_EARLYDATA && t.handShakeDone) then (false, t)
    else if t.slots[t.dec].epochNumber == epoch then (true, t)
    else UseKeys(t, epoch, DecryptOnly)
  }

  /** Dtls13GetUnifiedHeaderSize */
  function UnifiedHeaderSize(cfg: Config, first: byte): nat {
    1 + |cfg.Rx()| + 1
    + (if HasBit(first, DTLS13_SEQ_LEN_BIT) then 1 else 0) + (if HasBit(first, DTLS13_LEN_BIT) then 2 else 0)
  }

  /** GetDtls13RecordHeader: what is read, the input with its number decrypted, and the table with the keys chosen. */
  function ReadHeader(t: Table, cfg: Config, input: seq<byte>, mask: Mask): (Result<Received>, seq<byte>, Table)
    requires t.dec < |t.slots| && |input| < 0x1_0000
  {
    if |input| < 2 then (Err(BufferError), input, t)
    else
      var (ok, u) := SelectKeys(t, cfg, input[0]);
      var size := UnifiedHeaderSize(cfg, input[0]);
      if !ok || size > DTLS_RECVD_RL_HEADER_MAX_SZ then (Err(SequenceError), input, u)
      else if |input| < size + DTLS13_RN_MASK_SIZE then (Err(PartialRecord), input, u)
      else
        var slot := u.slots[u.dec];
        var (info, clear) := Parse(cfg, input, slot.epochNumber, mask);
        if info.Err? then (Err(info.error), clear, u)
        else (Ok(Received(info.value.recordLength, slot.epochNumber,
                          ReconstructSeqNumber(slot.nextPeerSeq, info.value))),
              clear, u)
  }

  method SelectRecordKeys(epochs: Epochs, cfg: Config, first: byte) returns (ok: bool)
    requires epochs.Represents() && epochs.dec < epochs.slots.Length
    modifies epochs`table, epochs`enc, epochs`dec
    ensures epochs.Represents() && (ok, epochs.table) == SelectKeys(old(epochs.table), cfg, first)
  {
    var epoch := epochs.ReconstructEpochNumber(first % 4);
    if epoch < 0 || epoch == 0 {
      return false;
    }
    if cfg.earlyData && epoch == DTLS13_EPOCH_EARLYDATA && epochs.handShakeDone {
      return false;
    }
    ok := true;
    if epochs.slots[epochs.dec].epochNumber != epoch {
      ok := epochs.SetEpochKeys(epoch, DecryptOnly);
    }
  }

  method GetRecordHeader(epochs: Epochs, cfg: Config, input: array<byte>, mask: Mask) returns (r: Result<Received>)
    requires epochs.Represents() && epochs.dec < epochs.slots.Length && input.Length < 0x1_0000
    modifies epochs`table, epochs`enc, epochs`dec, input
    ensures epochs.Represents()
    ensures (r, input[..], epochs.table) == ReadHeader(old(epochs.table), cfg, old(input[..]), mask)
  {
    hide Parse, SelectKeys, ReconstructSeqNumber;
    if input.Length < 2 {
      return Err(BufferError);
    }
    var ok := SelectRecordKeys(epochs, cfg, input[0]);
    if !ok {
      return Err(SequenceError);
    }
    var size := UnifiedHeaderSize(cfg, input[0]);
    if size > DTLS_RECVD_RL_HEADER_MAX_SZ {
      return Err(SequenceError);
    }
    if input.Length < size + DTLS13_RN_MASK_SIZE {
      return Err(PartialRecord);
    }
    var slot := epochs.slots[epochs.dec];
    var info := ParseUnifiedRecordLayer(cfg, input, slot.epochNumber, mask);
    if info.Err? {
      return Err(info.error);
    }
    r := Ok(Received(info.value.recordLength, slot.epochNumber, ReconstructSeqNumber(slot.nextPeerSeq, info.value)));
  }

  // ----- end to end ---------------------------------------------------------------------------------------

  /** What the sender puts on the wire for a record. */
  function OnWire(cfg: Config, epoch: word64, seqNumber: word64, ciphertext: seq<byte>, mask: Mask): seq<byte>
    requires |ciphertext| < 0x1_0000
  {
    Protect(cfg, epoch, Header(epoch, seqNumber, cfg.Tx(), |ciphertext|) + ciphertext, mask).1
  }

  /** The two ends use one connection id and one kind of cipher suite, and the id fits the header buffer. */
  predicate Matching(sender: Config, receiver: Config) {
    sender.Tx() == receiver.Rx() && |sender.Tx()| <= 10 && sender.nullCipher == receiver.nullCipher
  }

  lemma FlagBits(epoch: word64, cid: seq<byte>)
    ensures var f := Flags(epoch, cid);
      && f % 4 == EpochBits(epoch) && IsUnifiedHeader(f)
      && HasBit(f, DTLS13_SEQ_LEN_BIT) && HasBit(f, DTLS13_LEN_BIT)
      && (HasBit(f, DTLS13_CID_BIT) <==> cid != [])
  {
    UnifiedMeansBit5(Flags(epoch, cid));
  }

  /** Every record a sender makes is recognised as one with a unified header, and parsing it gives back its length,
      its epoch bits and the low bits of its number, and leaves the header as it was before protection. */
  lemma ParseUndoesProtect(sender: Config, receiver: Config, epoch: word64, seqNumber: word64, ciphertext: seq<byte>,
                           more: seq<byte>, mask: Mask)
    requires Matching(sender, receiver)
    requires sender.nullCipher || |ciphertext| >= DTLS13_RN_MASK_SIZE
    requires |ciphertext| + |more| + DTLS13_UNIFIED_HEADER_SIZE + |sender.Tx()| < 0x1_0000
    ensures var wire := OnWire(sender, epoch, seqNumber, ciphertext, mask) + more;
      var low := seqNumber % 0x1_0000;
      && IsUnifiedHeader(wire[0]) && wire[0] == Flags(epoch, sender.Tx())
      && Parse(receiver, wire, epoch, mask)
         == (Ok(HeaderInfo(|ciphertext|, EpochBits(epoch), true, low / 0x100, low % 0x100)),
             Header(epoch, seqNumber, sender.Tx(), |ciphertext|) + ciphertext + more)
  {
    var first, low := Flags(epoch, sender.Tx()), seqNumber % 0x1_0000;
    FlagBits(epoch, sender.Tx());
    SentInForm(sender, receiver, epoch, seqNumber, ciphertext, mask);
    hide Flags, IsUnifiedHeader, OnWire, Header, Form, SentAs, Parse, HasBit, Config.Rx, Config.Tx;
    SentIsParsable(receiver, first, low, ciphertext, more, epoch, mask);
    ParsesEveryForm(receiver, first, low, ciphertext, more, epoch, mask);
  }

  /** Senders use sixteen bits of the number and tell the length. */
  lemma SentInForm(sender: Config, receiver: Config, epoch: word64, seqNumber: word64, ciphertext: seq<byte>,
                   mask: Mask)
    requires Matching(sender, receiver) && |ciphertext| < 0x1_0000
    requires sender.nullCipher || |ciphertext| >= DTLS13_RN_MASK_SIZE
    ensures var first, low := Flags(epoch, sender.Tx()), seqNumber % 0x1_0000;
      && Span(first) == 0x1_0000
      && Header(epoch, seqNumber, sender.Tx(), |ciphertext|) == Form(first, receiver.Rx(), low, |ciphertext|)
      && OnWire(sender, epoch, seqNumber, ciphertext, mask) == SentAs(receiver, first, low, ciphertext, epoch, mask)
  {
    FlagBits(epoch, sender.Tx());
    hide Flags, IsUnifiedHeader, C16toa, Config.Rx, Config.Tx, Masked;
    assert Header(epoch, seqNumber, sender.Tx(), |ciphertext|)
        == Form(Flags(epoch, sender.Tx()), receiver.Rx(), seqNumber % 0x1_0000, |ciphertext|);
  }

  lemma MaskedBefore(buf: seq<byte>, more: seq<byte>, at: nat, n: nat, ct: nat, epoch: word64, mask: Mask)
    requires at + n <= ct && ct + DTLS13_RN_MASK_SIZE <= |buf|
    ensures Masked(buf, at, n, ct, epoch, mask) + more == Masked(buf + more, at, n, ct, epoch, mask)
  {
    assert (buf + more)[ct..ct + DTLS13_RN_MASK_SIZE] == buf[ct..ct + DTLS13_RN_MASK_SIZE];
  }

  /** May the receiver decrypt in the epoch, and is it the one its low bits stand for? */
  ghost predicate Receivable(t: Table, cfg: Config, epoch: word64)
    requires t.dec < |t.slots|
  {
    && epoch > 0
    && ReconstructedEpoch(t, EpochBits(epoch)) == epoch
    && (t.slots[t.dec].epochNumber == epoch
        || (Find(t.slots, epoch) >= 0 && Serves(t.slots[Find(t.slots, epoch)].side, DecryptOnly)))
    && !(cfg.earlyData && epoch == DTLS13_EPOCH_EARLYDATA && t.handShakeDone)
  }

  lemma SelectsReceivable(t: Table, cfg: Config, first: byte)
    requires t.dec < |t.slots|
    ensures var (ok, u) := SelectKeys(t, cfg, first); var epoch := u.slots[u.dec].epochNumber;
      if ok then Receivable(t, cfg, epoch) && EpochBits(epoch) == first % 4
      else u == t && forall n: word64 :: EpochBits(n) == first % 4 ==> !Receivable(t, cfg, n)
  {
    ReconstructedBits(t, first % 4);
    hide ReconstructedEpoch;
  }

  /** A record is read only in a receivable epoch with the low bits its header tells: never in epoch 0, nor as early
      data once the handshake is done.  If there is no such epoch it is refused and nothing changes. */
  lemma ReadsReceivableOnly(t: Table, cfg: Config, input: seq<byte>, mask: Mask)
    requires t.dec < |t.slots| && 2 <= |input| < 0x1_0000
    ensures var (r, clear, u) := ReadHeader(t, cfg, input, mask);
      && (r.Ok? ==> Receivable(t, cfg, r.value.epoch) && EpochBits(r.value.epoch) == input[0] % 4)
      && ((forall n: word64 :: EpochBits(n) == input[0] % 4 ==> !Receivable(t, cfg, n)) ==>
            r == Err(SequenceError) && clear == input && u == t)
  {
    SelectsReceivable(t, cfg, input[0]);
    hide SelectKeys, Parse, Receivable, ReconstructSeqNumber;
  }

  /** The number the receiver expects next in a live epoch. */
  function ExpectedSeq(t: Table, epoch: word64): word64
    requires Find(t.slots, epoch) >= 0
  {
    t.slots[Find(t.slots, epoch)].nextPeerSeq
  }

  /** Sections 4, 4.2.2 and 4.2.3 of RFC 9147, from one end to the other: a record in an epoch the receiver can
      name from its low bits arrives with its length and epoch, and its full number is recovered if and only if the
      number is Preferred: within less than 2^15 of the expected one, or a tie or an end. */
  lemma NumberSurvivesTheWire(sender: Config, receiver: Config, t: Table, epoch: word64, seqNumber: word64,
                              ciphertext: seq<byte>, more: seq<byte>, mask: Mask)
    requires Matching(sender, receiver) && Valid(t) && Find(t.slots, epoch) >= 0 && Receivable(t, receiver, epoch)
    requires |ciphertext| >= DTLS13_RN_MASK_SIZE
    requires |ciphertext| + |more| + DTLS13_UNIFIED_HEADER_SIZE + |sender.Tx()| < 0x1_0000
    ensures var wire := OnWire(sender, epoch, seqNumber, ciphertext, mask) + more;
      var (r, clear, u) := ReadHeader(t, receiver, wire, mask);
      && clear == Header(epoch, seqNumber, sender.Tx(), |ciphertext|) + ciphertext + more
      && u.slots[u.dec].epochNumber == epoch
      && r.Ok? && r.value.recordLength == |ciphertext| && r.value.epoch == epoch
      && (r.value.seqNumber == seqNumber <==> Preferred(ExpectedSeq(t, epoch), seqNumber, 0x1_0000))
  {
    hide Parse, OnWire, Reconstruct, Header, ReconstructedEpoch, IsUnifiedHeader, Flags;
    ParseUndoesProtect(sender, receiver, epoch, seqNumber, ciphertext, more, mask);
    ReconstructsExactly(ExpectedSeq(t, epoch), seqNumber, 0x1_0000);
    FlagBits(epoch, sender.Tx());
    FindIs(t.slots, t.dec);
  }

  // ----- headers of every form ------------------------------------------------------------------------------

  /** The number has sixteen bits, or eight. */
  function Span(first: byte): int { if HasBit(first, 8) then 0x1_0000 else 0x100 }

  function NumberSize(first: byte): nat { if HasBit(first, 8) then 2 else 1 }

  function LengthSize(first: byte): nat { if HasBit(first, 4) then 2 else 0 }

  /** Number and length as the first byte tells. */
  function Numbers(first: byte, low: word16, length: word16): (b: seq<byte>)
    requires low < Span(first)
    ensures |b| == NumberSize(first) + LengthSize(first)
  {
    (if HasBit(first, 8) then C16toa(low) else [low]) + (if HasBit(first, 4) then C16toa(length) else [])
  }

  /** A header of section 4 of RFC 9147, in any of its forms. */
  function Form(first: byte, cid: seq<byte>, low: word16, length: word16): (h: seq<byte>)
    requires low < Span(first)
    ensures |h| == FormSize(first, cid)
  {
    [first] + cid + Numbers(first, low, length)
  }

  function FormSize(first: byte, cid: seq<byte>): nat { 1 + |cid| + NumberSize(first) + LengthSize(first) }

  /** The connection id is announced if there is one, and is the one expected. */
  predicate CidMatches(cfg: Config, input: seq<byte>)
    requires input != []
  {
    if HasBit(input[0], 16) then cfg.Rx() != [] && cfg.Rx() <= input[1..] else cfg.Rx() == []
  }

  /** The length the header tells, or else all that is there. */
  function LengthTold(cfg: Config, input: seq<byte>): int
    requires input != [] && FormSize(input[0], cfg.Rx()) <= |input|
  {
    var end := FormSize(input[0], cfg.Rx());
    if HasBit(input[0], 4) then Ato16(input[end - 2..]) else |input| - end
  }

  /** Why parsing fails, if it does. */
  function Failure(cfg: Config, input: seq<byte>): Result<()> {
    if input == [] then Err(BadFuncArg)
    else if !CidMatches(cfg, input) then Err(CidError)
    else if |input| < FormSize(input[0], cfg.Rx()) then Err(BufferError)
    else if cfg.nullCipher then Ok(())
    else if LengthTold(cfg, input) < 16 then Err(LengthError)
    else if |input| < FormSize(input[0], cfg.Rx()) + 16 then Err(BufferError)
    else Ok(())
  }

  lemma ExtentIs(cfg: Config, input: seq<byte>)
    requires 1 <= |input| < 0x1_0000 && CidMatches(cfg, input)
    ensures var at := CidEnd(cfg, input); at == Ok(1 + |cfg.Rx()|)
    ensures var extent := Extent(input, 1 + |cfg.Rx()|); var end := FormSize(input[0], cfg.Rx());
      if |input| < end then extent == Err(BufferError) else extent == Ok((end, LengthTold(cfg, input)))
  {
    hide Ato16, Config.Rx;
  }

  lemma NoCidEnd(cfg: Config, input: seq<byte>)
    requires 1 <= |input| && !CidMatches(cfg, input)
    ensures CidEnd(cfg, input) == Err(CidError)
  {
    hide Config.Rx;
  }

  /** Whatever the bytes: each error has its cause, and leaves them alone. */
  lemma FailsExactly(cfg: Config, input: seq<byte>, epoch: word64, mask: Mask)
    requires |input| < 0x1_0000
    ensures var (r, clear) := Parse(cfg, input, epoch, mask);
      match Failure(cfg, input) case Err(e) => r == Err(e) && clear == input case Ok(_) => r.Ok?
  {
    hide CidMatches, CidEnd, Extent, FormSize, LengthTold, Masked, Info, Config.Rx;
    if input != [] {
      if CidMatches(cfg, input) {
        ExtentIs(cfg, input);
      } else {
        NoCidEnd(cfg, input);
      }
    }
  }

  /** The low bits of the number that was read. */
  function LowBitsOf(info: HeaderInfo): word16 {
    if info.seqHiPresent then info.seqHi as int * 0x100 + info.seqLo else info.seqLo
  }

  /** The form of the header, told by its first byte. */
  predicate Describes(info: HeaderInfo, first: byte, length: int) {
    && info.epochBits == first % 4 && info.recordLength == length
    && (info.seqHiPresent <==> HasBit(first, 8)) && LowBitsOf(info) < Span(first)
  }

  lemma InfoIs(clear: seq<byte>, at: nat, length: word16)
    requires 1 <= |clear| && at + NumberSize(clear[0]) + LengthSize(clear[0]) <= |clear|
    requires HasBit(clear[0], 4) ==> length == Ato16(clear[at + NumberSize(clear[0])..])
    ensures var info := Info(clear, at, length); var end := at + NumberSize(clear[0]) + LengthSize(clear[0]);
      Describes(info, clear[0], length) && clear[at..end] == Numbers(clear[0], LowBitsOf(info), length)
  {
    var middle := at + NumberSize(clear[0]);
    var end := middle + LengthSize(clear[0]);
    if HasBit(clear[0], 4) {
      C16toaOfAto16(clear[middle..]);
      assert clear[middle..][..2] == clear[middle..end];
    }
    hide Ato16, HasBit;
    assert clear[at..end] == clear[at..middle] + clear[middle..end];
  }

  /** The bytes with the number of their header decrypted. */
  function Cleared(cfg: Config, input: seq<byte>, epoch: word64, mask: Mask): (clear: seq<byte>)
    requires Failure(cfg, input).Ok?
    ensures |clear| == |input|
  {
    if cfg.nullCipher then input
    else Masked(input, 1 + |cfg.Rx()|, NumberSize(input[0]), FormSize(input[0], cfg.Rx()), epoch, mask)
  }

  lemma ParseIs(cfg: Config, input: seq<byte>, epoch: word64, mask: Mask)
    requires |input| < 0x1_0000 && Failure(cfg, input).Ok?
    ensures Parse(cfg, input, epoch, mask)
         == (Ok(Info(Cleared(cfg, input, epoch, mask), 1 + |cfg.Rx()|, LengthTold(cfg, input))),
             Cleared(cfg, input, epoch, mask))
  {
    ExtentIs(cfg, input);
    hide CidMatches, CidEnd, Extent, LengthTold, Masked, Info, Config.Rx, HasBit;
  }

  /** Only the number is touched. */
  lemma OthersClear(cfg: Config, input: seq<byte>, epoch: word64, mask: Mask)
    requires Failure(cfg, input).Ok?
    ensures var clear := Cleared(cfg, input, epoch, mask); var at := 1 + |cfg.Rx()|;
      && clear[0] == input[0] && clear[1..at] == cfg.Rx()
      && forall k :: at + NumberSize(input[0]) <= k <= |input| ==> clear[k..] == input[k..]
  {
    hide LengthTold, Ato16, Config.Rx, HasBit;
  }

  lemma JoinsUp(b: seq<byte>, i: nat, j: nat)
    requires 1 <= i <= j <= |b|
    ensures b == [b[0]] + b[1..i] + b[i..j] + b[j..]
  {
  }

  /** Where parsing succeeds the bytes begin with the header that was read, once its number is decrypted. */
  lemma ReadsForm(cfg: Config, input: seq<byte>, epoch: word64, mask: Mask)
    requires |input| < 0x1_0000 && Failure(cfg, input).Ok?
    ensures var (r, clear) := Parse(cfg, input, epoch, mask); var end := FormSize(input[0], cfg.Rx());
      && r.Ok? && clear == Cleared(cfg, input, epoch, mask)
      && Describes(r.value, input[0], LengthTold(cfg, input))
      && clear == Form(input[0], cfg.Rx(), LowBitsOf(r.value), LengthTold(cfg, input)) + input[end..]
  {
    hide Masked, Info, Config.Rx, HasBit, Ato16, Parse, Cleared, Numbers, LowBitsOf, CidMatches;
    ParseIs(cfg, input, epoch, mask);
    OthersClear(cfg, input, epoch, mask);
    var clear := Cleared(cfg, input, epoch, mask);
    InfoIs(clear, 1 + |cfg.Rx()|, LengthTold(cfg, input));
    JoinsUp(clear, 1 + |cfg.Rx()|, FormSize(input[0], cfg.Rx()));
  }

  /** A record with a header of the form the first byte tells, as it comes from the wire. */
  function SentAs(cfg: Config, first: byte, low: word16, ciphertext: seq<byte>, epoch: word64, mask: Mask): seq<byte>
    requires low < Span(first) && |ciphertext| < 0x1_0000 && (cfg.nullCipher || |ciphertext| >= 16)
  {
    var plain := Form(first, cfg.Rx(), low, |ciphertext|) + ciphertext;
    if cfg.nullCipher then plain
    else Masked(plain, 1 + |cfg.Rx()|, NumberSize(first), FormSize(first, cfg.Rx()), epoch, mask)
  }

  /** The receiver can tell where such a record ends, and its connection id is as expected. */
  predicate WellSent(cfg: Config, first: byte, low: word16, ciphertext: seq<byte>, more: seq<byte>) {
    && low < Span(first) && (HasBit(first, 16) <==> cfg.Rx() != []) && (HasBit(first, 4) || more == [])
    && (cfg.nullCipher || |ciphertext| >= 16) && FormSize(first, cfg.Rx()) + |ciphertext| + |more| < 0x1_0000
  }

  lemma SentIsParsable(cfg: Config, first: byte, low: word16, ciphertext: seq<byte>, more: seq<byte>, epoch: word64,
                       mask: Mask)
    requires WellSent(cfg, first, low, ciphertext, more)
    ensures var wire := SentAs(cfg, first, low, ciphertext, epoch, mask) + more;
      && |wire| == FormSize(first, cfg.Rx()) + |ciphertext| + |more| && wire[0] == first
      && Failure(cfg, wire) == Ok(()) && LengthTold(cfg, wire) == |ciphertext|
  {
    var wire := SentAs(cfg, first, low, ciphertext, epoch, mask) + more;
    SentBytes(cfg, first, low, ciphertext, epoch, mask);
    hide SentAs, HasBit, Ato16, C16toa;
    var sent := SentAs(cfg, first, low, ciphertext, epoch, mask);
    var at := 1 + |cfg.Rx()| + NumberSize(first);
    Piece(sent, more, 1, 1 + |cfg.Rx()|);
    if LengthSize(first) == 2 {
      Piece(sent, more, at, at + 2);
      Ato16OfC16toa(|ciphertext|, wire[at + 2..]);
    }
    hide Config.Rx;
  }

  lemma Piece(a: seq<byte>, b: seq<byte>, i: nat, j: nat)
    requires i <= j <= |a|
    ensures (a + b)[i..] == a[i..j] + (a + b)[j..] && a[i..j] <= (a + b)[i..]
  {
  }

  /** What masking leaves. */
  lemma SentBytes(cfg: Config, first: byte, low: word16, ciphertext: seq<byte>, epoch: word64, mask: Mask)
    requires low < Span(first) && |ciphertext| < 0x1_0000 && (cfg.nullCipher || |ciphertext| >= 16)
    ensures var sent := SentAs(cfg, first, low, ciphertext, epoch, mask); var at := 1 + |cfg.Rx()|;
      && |sent| == FormSize(first, cfg.Rx()) + |ciphertext| && sent[0] == first && sent[1..at] == cfg.Rx()
      && sent[at + NumberSize(first)..FormSize(first, cfg.Rx())]
         == if LengthSize(first) == 2 then C16toa(|ciphertext|) else []
  {
    var cid := cfg.Rx();
    var at, end := 1 + |cid| + NumberSize(first), FormSize(first, cid);
    var header := Form(first, cid, low, |ciphertext|);
    FormBytes(first, cid, low, |ciphertext|);
    hide Form, HasBit, C16toa, Config.Rx, Masked;
    assert forall i, j :: 0 <= i <= j <= end ==> (header + ciphertext)[i..j] == header[i..j];
    if !cfg.nullCipher {
      MaskedKeeps(header + ciphertext, 1 + |cid|, NumberSize(first), end, epoch, mask, 0, 1);
      MaskedKeeps(header + ciphertext, 1 + |cid|, NumberSize(first), end, epoch, mask, 1, 1 + |cid|);
      MaskedKeeps(header + ciphertext, 1 + |cid|, NumberSize(first), end, epoch, mask, at, end);
    }
  }

  lemma MaskedKeeps(buf: seq<byte>, at: nat, n: nat, ct: nat, epoch: word64, mask: Mask, i: nat, j: nat)
    requires at + n <= ct && ct + DTLS13_RN_MASK_SIZE <= |buf|
    requires i <= j <= |buf| && (j <= at || at + n <= i)
    ensures Masked(buf, at, n, ct, epoch, mask)[i..j] == buf[i..j]
    ensures i < j ==> Masked(buf, at, n, ct, epoch, mask)[i] == buf[i]
  {
    var r := Masked(buf, at, n, ct, epoch, mask);
    assert forall k :: i <= k < j ==> r[k] == buf[k];
    hide Masked;
    assert forall k :: 0 <= k < j - i ==> r[i..j][k] == r[i + k] && buf[i..j][k] == buf[i + k];
  }

  lemma FormBytes(first: byte, cid: seq<byte>, low: word16, length: word16)
    requires low < Span(first)
    ensures var h, at := Form(first, cid, low, length), 1 + |cid|;
      && h[0] == first && h[1..at] == cid
      && h[at + NumberSize(first)..FormSize(first, cid)] == if LengthSize(first) == 2 then C16toa(length) else []
  {
    hide C16toa;
  }

  lemma ClearedAgain(cfg: Config, first: byte, low: word16, ciphertext: seq<byte>, more: seq<byte>, epoch: word64,
                     mask: Mask)
    requires WellSent(cfg, first, low, ciphertext, more)
    ensures var wire := SentAs(cfg, first, low, ciphertext, epoch, mask) + more;
      Failure(cfg, wire) == Ok(())
      && Cleared(cfg, wire, epoch, mask) == Form(first, cfg.Rx(), low, |ciphertext|) + ciphertext + more
  {
    SentIsParsable(cfg, first, low, ciphertext, more, epoch, mask);
    hide Form, FormSize, Failure, Masked, WellSent, Config.Rx;
    var plain := Form(first, cfg.Rx(), low, |ciphertext|) + ciphertext;
    if !cfg.nullCipher {
      var at, n, end := 1 + |cfg.Rx()|, NumberSize(first), FormSize(first, cfg.Rx());
      SizeIs(first, cfg.Rx());
      MaskedBefore(plain, more, at, n, end, epoch, mask);
      MaskedTwice(plain + more, at, n, end, epoch, mask);
    }
  }

  lemma SizeIs(first: byte, cid: seq<byte>)
    ensures FormSize(first, cid) >= 1 + |cid| + NumberSize(first)
  {
  }

  lemma SameNumbers(first: byte, low: word16, low1: word16, length: word16)
    requires low < Span(first) && low1 < Span(first) && Numbers(first, low, length) == Numbers(first, low1, length)
    ensures low == low1
  {
    assert Numbers(first, low, length)[0] == Numbers(first, low1, length)[0];
    if HasBit(first, 8) {
      assert Numbers(first, low, length)[1] == Numbers(first, low1, length)[1];
    }
  }

  lemma SameForm(first: byte, cid: seq<byte>, low: word16, low1: word16, length: word16, a: seq<byte>, b: seq<byte>)
    requires low < Span(first) && low1 < Span(first)
    requires Form(first, cid, low, length) + a == Form(first, cid, low1, length) + b
    ensures low == low1
  {
    var k, end := 1 + |cid|, FormSize(first, cid);
    assert (Form(first, cid, low, length) + a)[k..end] == Numbers(first, low, length);
    assert (Form(first, cid, low1, length) + b)[k..end] == Numbers(first, low1, length);
    hide Numbers;
    SameNumbers(first, low, low1, length);
  }

  /** Parsing gives back what any header says, in whatever form it comes, and leaves it in the clear. */
  lemma ParsesEveryForm(cfg: Config, first: byte, low: word16, ciphertext: seq<byte>, more: seq<byte>, epoch: word64,
                        mask: Mask)
    requires WellSent(cfg, first, low, ciphertext, more)
    ensures var wire := SentAs(cfg, first, low, ciphertext, epoch, mask) + more;
      var (r, clear) := Parse(cfg, wire, epoch, mask);
      && r.Ok? && Describes(r.value, first, |ciphertext|) && LowBitsOf(r.value) == low
      && clear == Form(first, cfg.Rx(), low, |ciphertext|) + ciphertext + more
  {
    hide SentAs, Form, Failure, Parse, Cleared, FormSize, LengthTold, LowBitsOf, HasBit, Numbers, Masked, CidMatches,
         Config.Rx;
    SentIsParsable(cfg, first, low, ciphertext, more, epoch, mask);
    ClearedAgain(cfg, first, low, ciphertext, more, epoch, mask);
    var wire := SentAs(cfg, first, low, ciphertext, epoch, mask) + more;
    ReadsForm(cfg, wire, epoch, mask);
    var info := Parse(cfg, wire, epoch, mask).0.value;
    FormsAgree(first, cfg.Rx(), LowBitsOf(info), low, |ciphertext|, wire[FormSize(first, cfg.Rx())..], ciphertext,
               more);
  }

  lemma FormsAgree(first: byte, cid: seq<byte>, low: word16, low1: word16, length: word16, a: seq<byte>, b: seq<byte>,
                   c: seq<byte>)
    requires low < Span(first) && low1 < Span(first)
    requires Form(first, cid, low, length) + a == Form(first, cid, low1, length) + b + c
    ensures low == low1
  {
    hide Form, Span;
    var header := Form(first, cid, low1, length);
    assert header + b + c == header + (b + c);
    SameForm(first, cid, low, low1, length, a, b + c);
  }

  /** A record in a receivable epoch is read whatever the form of its header; its full number is recovered if and only
      if it is Preferred among the numbers with the bits that the header holds, sixteen or eight. */
  lemma ReadsEveryForm(cfg: Config, t: Table, epoch: word64, seqNumber: word64, first: byte, ciphertext: seq<byte>,
                       more: seq<byte>, mask: Mask)
    requires Valid(t) && Find(t.slots, epoch) >= 0 && Receivable(t, cfg, epoch) && EpochBits(epoch) == first % 4
    requires WellSent(cfg, first, seqNumber % Span(first), ciphertext, more) && |cfg.Rx()| <= 10 && |ciphertext| >= 16
    ensures var low := seqNumber % Span(first);
      var (r, clear, u) := ReadHeader(t, cfg, SentAs(cfg, first, low, ciphertext, epoch, mask) + more, mask);
      && clear == Form(first, cfg.Rx(), low, |ciphertext|) + ciphertext + more
      && u.slots[u.dec].epochNumber == epoch
      && r.Ok? && r.value.recordLength == |ciphertext| && r.value.epoch == epoch
      && (r.value.seqNumber == seqNumber <==> Preferred(ExpectedSeq(t, epoch), seqNumber, Span(first)))
  {
    var low := seqNumber % Span(first);
    var wire := SentAs(cfg, first, low, ciphertext, epoch, mask) + more;
    SentIsParsable(cfg, first, low, ciphertext, more, epoch, mask);
    ParsesEveryForm(cfg, first, low, ciphertext, more, epoch, mask);
    ReconstructsExactly(ExpectedSeq(t, epoch), seqNumber, Span(first));
    SizeIs(first, cfg.Rx());
    KeysChosen(t, cfg, epoch, first);
    hide Parse, SentAs, Form, Failure, WellSent, Reconstruct, SelectKeys, Receivable, Preferred, Find, Valid, HasBit,
         Config.Rx;
    assert UnifiedHeaderSize(cfg, first) == FormSize(first, cfg.Rx());
  }

  lemma KeysChosen(t: Table, cfg: Config, epoch: word64, first: byte)
    requires Valid(t) && Find(t.slots, epoch) >= 0 && Receivable(t, cfg, epoch) && EpochBits(epoch) == first % 4
    ensures var (ok, u) := SelectKeys(t, cfg, first);
      ok && u.slots[u.dec] == t.slots[Find(t.slots, epoch)] && u.slots[u.dec].epochNumber == epoch
  {
    FindIs(t.slots, t.dec);
    hide ReconstructedEpoch;
  }

  /** Why a header in a receivable epoch is not read. */
  function NotRead(cfg: Config, input: seq<byte>): Result<()>
    requires |input| >= 2
  {
    if FormSize(input[0], cfg.Rx()) > 15 then Err(SequenceError)
    else if |input| < FormSize(input[0], cfg.Rx()) + 16 then Err(PartialRecord)
    else if !CidMatches(cfg, input) then Err(CidError)
    else if !cfg.nullCipher && LengthTold(cfg, input) < 16 then Err(LengthError)
    else Ok(())
  }

  /** Whatever the bytes of a datagram: each error has its cause and leaves them alone. */
  lemma ReadFailsExactly(t: Table, cfg: Config, input: seq<byte>, mask: Mask, epoch: word64)
    requires t.dec < |t.slots| && |input| < 0x1_0000
    requires |input| >= 2 ==> Receivable(t, cfg, epoch) && EpochBits(epoch) == input[0] % 4
    ensures var (r, clear, u) := ReadHeader(t, cfg, input, mask);
      if |input| < 2 then r == Err(BufferError) && clear == input && u == t
      else match NotRead(cfg, input) case Err(e) => r == Err(e) && clear == input case Ok(_) => r.Ok?
  {
    if |input| >= 2 {
      SelectsReceivable(t, cfg, input[0]);
      hide SelectKeys, Receivable, Parse, CidMatches, LengthTold, ReconstructSeqNumber, HasBit, Config.Rx;
      var u := SelectKeys(t, cfg, input[0]).1;
      assert UnifiedHeaderSize(cfg, input[0]) == FormSize(input[0], cfg.Rx());
      FailsExactly(cfg, input, u.slots[u.dec].epochNumber, mask);
    }
  }
}
