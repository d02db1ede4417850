/** Fixed-width unsigned words and the big-endian byte codecs (c16toa, ato16,
    c24to32, c64toa, ato64) shared by the record, handshake and QUIC code. */
module Words {
  type byte = x: int | 0 <= x < 0x100
  type word16 = x: int | 0 <= x < 0x1_0000
  type word32 = x: int | 0 <= x < 0x1_0000_0000
  type word64 = x: int | 0 <= x < TWO_64

  const TWO_64: int := 0x1_0000_0000_0000_0000

  /** w64Increment: wraps to zero. */
  function Increment64(x: word64): word64 { (x + 1) % TWO_64 }

  /** w64Decrement: zero wraps to the largest word. */
  function Decrement64(x: word64): word64 { (x - 1) % TWO_64 }

  function Increment16(x: word16): word16 { (x + 1) % 0x1_0000 }

  function Min(a: int, b: int): int { if a <= b then a else b }

  function C16toa(x: word16): (b: seq<byte>)
    ensures |b| == 2
  {
    [x / 0x100, x % 0x100]
  }

  function Ato16(b: seq<byte>): word16
    requires |b| >= 2
  {
    b[0] as int * 0x100 + b[1]
  }

  function Ato24(b: seq<byte>): word32
    requires |b| >= 3
  {
    b[0] as int * 0x1_0000 + b[1] as int * 0x100 + b[2]
  }

  function C32toa(x: word32): (b: seq<byte>)
    ensures |b| == 4
  {
    C16toa(x / 0x1_0000) + C16toa(x % 0x1_0000)
  }

  function Ato32(b: seq<byte>): word32
    requires |b| >= 4
  {
    Ato16(b) as int * 0x1_0000 + Ato16(b[2..])
  }

  function C64toa(x: word64): (b: seq<byte>)
    ensures |b| == 8
  {
    C32toa(x / 0x1_0000_0000) + C32toa(x % 0x1_0000_0000)
  }

  function Ato64(b: seq<byte>): word64
    requires |b| >= 8
  {
    Ato32(b) as int * 0x1_0000_0000 + Ato32(b[4..])
  }

  lemma Ato16OfC16toa(x: word16, tail: seq<byte>)
    ensures Ato16(C16toa(x) + tail) == x
  {
  }

  lemma C16toaOfAto16(s: seq<byte>)
    requires |s| >= 2
    ensures C16toa(Ato16(s)) == s[..2]
  {
  }

  lemma C32toaOfAto32(s: seq<byte>)
    requires |s| >= 4
    ensures C32toa(Ato32(s)) == s[..4]
  {
  }

  lemma C64toaOfAto64(s: seq<byte>)
    requires |s| >= 8
    ensures C64toa(Ato64(s)) == s[..8]
  {
    C32toaOfAto32(s);
    C32toaOfAto32(s[4..]);
    hide C32toa, Ato32;
    assert s[..4] + s[4..][..4] == s[..8];
  }

  lemma Ato32OfC32toa(x: word32, tail: seq<byte>)
    ensures Ato32(C32toa(x) + tail) == x
  {
    var hi, lo := C16toa(x / 0x1_0000), C16toa(x % 0x1_0000);
    assert C32toa(x) + tail == hi + (lo + tail);
    assert (hi + (lo + tail))[2..] == lo + tail;
    Ato16OfC16toa(x / 0x1_0000, lo + tail);
    Ato16OfC16toa(x % 0x1_0000, tail);
  }

  /** Reading back a 64-bit number that c64toa wrote gives the number, whatever follows it. */
  lemma Ato64OfC64toa(x: word64, tail: seq<byte>)
    ensures Ato64(C64toa(x) + tail) == x
  {
    var hi, lo := C32toa(x / 0x1_0000_0000), C32toa(x % 0x1_0000_0000);
    assert C64toa(x) + tail == hi + (lo + tail);
    assert (hi + (lo + tail))[4..] == lo + tail;
    Ato32OfC32toa(x / 0x1_0000_0000, lo + tail);
    Ato32OfC32toa(x % 0x1_0000_0000, tail);
  }

  // ----- exclusive or of bytes -----------------------------------------------------------

  function Pow2(n: nat): nat { if n == 0 then 1 else 2 * Pow2(n - 1) }

  function XorBits(a: nat, b: nat, n: nat): (r: nat)
    requires a < Pow2(n) && b < Pow2(n)
    ensures r < Pow2(n)
  {
    if n == 0 then 0 else (a % 2 + b % 2) % 2 + 2 * XorBits(a / 2, b / 2, n - 1)
  }

  lemma Halves(a: nat, n: nat)
    requires n > 0 && a < Pow2(n)
    ensures a / 2 < Pow2(n - 1) && a == 2 * (a / 2) + a % 2
  {
  }

  lemma Doubled(a: nat, x: nat, n: nat)
    requires n > 0 && x < 2 && a < Pow2(n - 1)
    ensures 2 * a + x < Pow2(n) && (2 * a + x) / 2 == a && (2 * a + x) % 2 == x
  {
  }

  lemma XorLowBit(a: nat, x: nat, b: nat, y: nat, n: nat)
    requires n > 0 && x < 2 && y < 2 && a < Pow2(n - 1) && b < Pow2(n - 1)
    ensures 2 * a + x < Pow2(n) && 2 * b + y < Pow2(n)
    ensures XorBits(2 * a + x, 2 * b + y, n) == 2 * XorBits(a, b, n - 1) + if x == y then 0 else 1
  {
    hide Pow2;
    Doubled(a, x, n);
    Doubled(b, y, n);
  }

  lemma XorTwiceWithLowBit(a: nat, x: nat, b: nat, y: nat, n: nat)
    requires n > 0 && x < 2 && y < 2 && a < Pow2(n - 1) && b < Pow2(n - 1)
    requires XorBits(XorBits(a, b, n - 1), b, n - 1) == a
    ensures 2 * a + x < Pow2(n) && 2 * b + y < Pow2(n)
    ensures XorBits(XorBits(2 * a + x, 2 * b + y, n), 2 * b + y, n) == 2 * a + x
  {
    hide Pow2, XorBits;
    XorLowBit(a, x, b, y, n);
    XorLowBit(XorBits(a, b, n - 1), if x == y then 0 else 1, b, y, n);
  }

  lemma {:induction false} XorBitsTwice(a: nat, b: nat, n: nat)
    requires a < Pow2(n) && b < Pow2(n)
    ensures XorBits(XorBits(a, b, n), b, n) == a
  {
    if n == 0 {
      assert Pow2(0) == 1;
    } else {
      hide Pow2, XorBits;
      Halves(a, n);
      Halves(b, n);
      XorBitsTwice(a / 2, b / 2, n - 1);
      XorTwiceWithLowBit(a / 2, a % 2, b / 2, b % 2, n);
    }
  }

  lemma EightBits()
    ensures Pow2(8) == 0x100
  {
    assert Pow2(4) == 16;
  }

  function Xor(a: byte, b: byte): byte {
    EightBits();
    XorBits(a, b, 8)
  }

  lemma XorTwice(a: byte, b: byte)
    ensures Xor(Xor(a, b), b) == a
  {
    EightBits();
    XorBitsTwice(a, b, 8);
  }
}
