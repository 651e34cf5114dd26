/**
 The CRC-32 that guards every stored record and every uploaded image.

 The bit-serial loop of the firmware is specified by Crc32.  Two independent readings of
 that function are proved elsewhere: it is the remainder of a polynomial division over
 GF(2) (module CrcPolynomial), and it tells apart any two messages of equal length whose
 difference is one burst of at most 32 bits (module CrcBurst).
 */
module Crc32 {

  type byte = bv8
  type Word = bv32

  /** The generator with its coefficients reflected, as the firmware shifts right. */
  const REFLECTED_POLY: Word := 0xEDB88320
  const ALL_ONES: Word := 0xFFFFFFFF

  predicate Odd(x: Word) { x & 1 == 1 }
  function Half(x: Word): Word { x >> 1 }
  function Mix(x: Word, y: Word): Word { x ^ y }

  function StepBit(x: Word): Word {
    if Odd(x) then Mix(Half(x), REFLECTED_POLY) else Half(x)
  }

  function Steps(x: Word, k: nat): Word
    decreases k
  {
    if k == 0 then x else Steps(StepBit(x), k - 1)
  }

  function Widen(b: byte): Word { b as Word }

  function StepByte(r: Word, b: byte): Word {
    Steps(Mix(r, Widen(b)), 8)
  }

  /** The register after the bytes of data, read from register value r. */
  function Update(r: Word, data: seq<byte>): Word
    decreases |data|
  {
    if data == [] then r else Update(StepByte(r, data[0]), data[1..])
  }

  function Crc32(data: seq<byte>): Word {
    Complement(Update(ALL_ONES, data))
  }

  function Complement(x: Word): Word { Mix(x, ALL_ONES) }

  lemma {:induction false} ComplementTwice(x: Word)
    ensures Complement(Complement(x)) == x
  {
  }

  method ConfigCRC32(data: seq<byte>) returns (r: Word)
    ensures r == Crc32(data)
  {
    var crc: Word := 0xFFFFFFFF;
    for i := 0 to |data|
      invariant Update(crc, data[i..]) == Update(ALL_ONES, data)
    {
      assert data[i..][1..] == data[i + 1..];
      crc := Mix(crc, Widen(data[i]));
      crc := ShiftEight(crc);
    }
    r := Mix(crc, 0xFFFFFFFF);
  }

  method ShiftEight(x: Word) returns (crc: Word)
    ensures crc == Steps(x, 8)
  {
    crc := x;
    for bit := 0 to 8
      invariant Steps(crc, 8 - bit) == Steps(x, 8)
    {
      if crc & 1 != 0 {
        crc := (crc >> 1) ^ 0xEDB88320;
      } else {
        crc := crc >> 1;
      }
    }
  }

  // ---------------------------------------------------------------------------
  // Checksumming can be resumed
  // ---------------------------------------------------------------------------

  lemma {:induction false} UpdateConcat(r: Word, a: seq<byte>, b: seq<byte>)
    ensures Update(r, a + b) == Update(Update(r, a), b)
    decreases |a|
  {
    if a == [] {
      assert a + b == b;
    } else {
      assert (a + b)[1..] == a[1..] + b;
      UpdateConcat(StepByte(r, a[0]), a[1..], b);
    }
  }

  /** The checksum of a ++ b follows from the checksum of a and the bytes of b. */
  lemma {:induction false} Crc32Concat(a: seq<byte>, b: seq<byte>)
    ensures Crc32(a + b) == Complement(Update(Complement(Crc32(a)), b))
  {
    UpdateConcat(ALL_ONES, a, b);
    ComplementTwice(Update(ALL_ONES, a));
  }
}

/** The checksum register as a row of 32 bits, and the message as a string of bits. */
module CrcBits {
  import opened Crc32

  type Bits = seq<bool>

  function Zeros(n: nat): (s: Bits)
    ensures |s| == n
  {
    seq(n, _ => false)
  }

  /** Addition over GF(2). */
  function Xor(a: Bits, b: Bits): (s: Bits)
    requires |a| == |b|
    ensures |s| == |a|
  {
    seq(|a|, i requires 0 <= i < |a| => a[i] != b[i])
  }

  /** The word shifted right k times. */
  function Above(w: Word, k: nat): Word
    decreases k
  {
    if k == 0 then w else Above(Half(w), k - 1)
  }

  /** The k low bits of a word, least significant first. */
  function LowBits(w: Word, k: nat): (s: Bits)
    ensures |s| == k
  {
    seq(k, i requires 0 <= i < k => Odd(Above(w, i)))
  }

  function ByteBits(b: byte): (s: Bits)
    ensures |s| == 8
  {
    LowBits(Widen(b), 8)
  }

  /** Each byte is sent least significant bit first. */
  function MessageBits(data: seq<byte>): (s: Bits)
    ensures |s| == 8 * |data|
  {
    if data == [] then [] else ByteBits(data[0]) + MessageBits(data[1..])
  }

  /**
   The coefficients of IEEE 802.3's generator below x^32, that of x^31 first:
   x^26 + x^23 + x^22 + x^16 + x^12 + x^11 + x^10 + x^8 + x^7 + x^5 + x^4 + x^2 + x + 1.
   */
  function GeneratorTail(): (s: Bits)
    ensures |s| == 32
  {
    seq(32, j requires 0 <= j < 32 => (31 - j) in {26, 23, 22, 16, 12, 11, 10, 8, 7, 5, 4, 2, 1, 0})
  }

  /** One shift of the register, seen as 32 coefficients with that of x^31 first. */
  function Shift(s: Bits): (t: Bits)
    requires |s| == 32
    ensures |t| == 32
  {
    var up := s[1..] + [false];
    if s[0] then Xor(up, GeneratorTail()) else up
  }

  function FeedBit(s: Bits, b: bool): (t: Bits)
    requires |s| == 32
    ensures |t| == 32
  {
    Shift(s[0 := s[0] != b])
  }

  /** The register after a string of message bits. */
  function Feed(s: Bits, m: Bits): (t: Bits)
    requires |s| == 32
    ensures |t| == 32
    decreases |m|
  {
    if m == [] then s else Feed(FeedBit(s, m[0]), m[1..])
  }

  lemma {:induction false} FeedConcat(s: Bits, a: Bits, b: Bits)
    requires |s| == 32
    ensures Feed(s, a + b) == Feed(Feed(s, a), b)
    decreases |a|
  {
    if a == [] {
      assert a + b == b;
    } else {
      assert (a + b)[1..] == a[1..] + b;
      FeedConcat(FeedBit(s, a[0]), a[1..], b);
    }
  }

  /** The register as 32 coefficients: bit i of the word belongs to x^(31 - i). */
  function Row(w: Word): (s: Bits)
    ensures |s| == 32
  {
    LowBits(w, 32)
  }

  // ---------------------------------------------------------------------------
  // From machine words to rows of bits
  // ---------------------------------------------------------------------------

  lemma {:induction false} MixParts(x: Word, y: Word)
    ensures Odd(Mix(x, y)) == (Odd(x) != Odd(y))
    ensures Half(Mix(x, y)) == Mix(Half(x), Half(y))
  {
  }

  lemma {:induction false} AboveMix(x: Word, y: Word, k: nat)
    ensures Above(Mix(x, y), k) == Mix(Above(x, k), Above(y, k))
    decreases k
  {
    if k > 0 {
      MixParts(x, y);
      AboveMix(Half(x), Half(y), k - 1);
    }
  }

  lemma {:induction false} LowBitsMix(x: Word, y: Word, k: nat)
    ensures LowBits(Mix(x, y), k) == Xor(LowBits(x, k), LowBits(y, k))
  {
    hide Above, Mix, Odd;
    forall i | 0 <= i < k ensures Odd(Above(Mix(x, y), i)) == (Odd(Above(x, i)) != Odd(Above(y, i))) {
      AboveMix(x, y, i);
      MixParts(Above(x, i), Above(y, i));
    }
  }

  lemma {:induction false} AboveTwice(w: Word, j: nat, k: nat)
    ensures Above(w, j + k) == Above(Above(w, j), k)
    decreases j
  {
    if j > 0 { AboveTwice(Half(w), j - 1, k); }
  }

  lemma {:induction false} AboveBit(w: Word, j: nat, i: nat)
    requires j <= i
    ensures Odd(Above(w, i)) == Odd(Above(Above(w, j), i - j))
  {
    AboveTwice(w, j, i - j);
  }

  lemma {:induction false} LowBitsSplit(w: Word, j: nat, k: nat)
    ensures LowBits(w, j + k) == LowBits(w, j) + LowBits(Above(w, j), k)
  {
    var s, t := LowBits(w, j + k), LowBits(w, j) + LowBits(Above(w, j), k);
    forall i | 0 <= i < j + k ensures s[i] == t[i] {
      if i >= j { AboveBit(w, j, i); }
    }
  }

  lemma {:induction false} AboveZero(k: nat)
    ensures Above(0, k) == 0
  {
    if k > 0 {
      HalfZero();
      AboveZero(k - 1);
    }
  }

  lemma {:induction false} LowBitsZero(k: nat)
    ensures LowBits(0, k) == Zeros(k)
  {
    forall i | 0 <= i < k ensures !Odd(Above(0, i)) {
      AboveZero(i);
      HalfZero();
    }
  }

  lemma {:induction false} HalfZero() ensures Half(0) == 0 && !Odd(0) {}

  /** The word without its lowest four bits. */
  function Down4(w: Word): Word { w >> 4 }

  lemma {:induction false} Above4(w: Word)
    ensures Above(w, 4) == Down4(w)
  {
    assert Above(w, 4) == Above(Half(w), 3) == Above(Half(Half(w)), 2);
    FourHalves(w);
  }

  lemma {:induction false} FourHalves(w: Word) ensures Half(Half(Half(Half(w)))) == Down4(w) {}

  lemma {:induction false} Above8(w: Word)
    ensures Above(w, 8) == Down4(Down4(w))
  {
    hide Above, Down4;
    AboveTwice(w, 4, 4);
    Above4(w);
    Above4(Down4(w));
  }

  lemma {:induction false} Above16(w: Word)
    ensures Above(w, 16) == Down4(Down4(Down4(Down4(w))))
  {
    hide Above, Down4;
    AboveTwice(w, 8, 8);
    Above8(w);
    Above8(Down4(Down4(w)));
  }

  lemma {:induction false} NothingLeft(w: Word)
    ensures Down4(Down4(Down4(Down4(Down4(Down4(Down4(Down4(w)))))))) == 0
  {
  }

  lemma {:induction false} Above32(w: Word)
    ensures Above(w, 32) == 0
  {
    NothingLeft(w);
    hide Above, Down4;
    AboveTwice(w, 16, 16);
    Above16(w);
    Above16(Down4(Down4(Down4(Down4(w)))));
  }

  lemma {:induction false} RowHalf(w: Word)
    ensures Row(Half(w)) == Row(w)[1..] + [false]
  {
    forall i | 0 <= i < 31 ensures Row(Half(w))[i] == Row(w)[i + 1] {
      assert Above(Half(w), i) == Above(w, i + 1);
    }
    assert Above(Half(w), 31) == Above(w, 32);
    Above32(w);
    HalfZero();
  }

  lemma {:induction false} Nibble(w: Word)
    ensures LowBits(w, 4) == LowNibble(w)
  {
    assert Above(w, 1) == Half(w) && Above(w, 2) == Half(Half(w)) && Above(w, 3) == Half(Half(Half(w)));
    NibbleParts(w);
  }

  lemma {:induction false} NibbleParts(w: Word)
    ensures Odd(w) == (w & 1 != 0) && Odd(Half(w)) == (w & 2 != 0)
    ensures Odd(Half(Half(w))) == (w & 4 != 0) && Odd(Half(Half(Half(w)))) == (w & 8 != 0)
  {
  }

  lemma {:induction false} NextNibble(w: Word, k: nat)
    ensures LowBits(w, 4 + k) == LowBits(w, 4) + LowBits(Down4(w), k)
  {
    hide Above, LowBits, Down4;
    LowBitsSplit(w, 4, k);
    Above4(w);
  }

  /** The lowest four bits, by their weights. */
  function LowNibble(w: Word): (s: Bits)
    ensures |s| == 4
  {
    [w & 1 != 0, w & 2 != 0, w & 4 != 0, w & 8 != 0]
  }

  lemma {:induction false} TwoNibbles(w: Word, k: nat)
    ensures LowBits(w, 8 + k) == LowNibble(w) + LowNibble(Down4(w)) + LowBits(Down4(Down4(w)), k)
  {
    Nibble(w);
    Nibble(Down4(w));
    hide LowBits, LowNibble, Down4;
    NextNibble(w, 4 + k);
    NextNibble(Down4(w), k);
  }

  /** Two hexadecimal digits of the reflected constant. */
  lemma {:induction false} Digits(w: Word, k: nat, next: Word, low: Bits, high: Bits)
    requires next == Down4(Down4(w)) && low == LowNibble(w) && high == LowNibble(Down4(w))
    ensures LowBits(w, 8 + k) == low + high + LowBits(next, k)
  {
    hide LowNibble, Down4, LowBits;
    TwoNibbles(w, k);
  }

  /** The reflected constant is the generator of the standard. */
  lemma {:induction false} RowOfPoly()
    ensures Row(REFLECTED_POLY) == GeneratorTail()
  {
    var t, f := true, false;
    Digits(0xEDB88320, 24, 0x00EDB883, [f, f, f, f], [f, t, f, f]);
    Digits(0x00EDB883, 16, 0x0000EDB8, [t, t, f, f], [f, f, f, t]);
    Digits(0x0000EDB8, 8, 0x000000ED, [f, f, f, t], [t, t, f, t]);
    Digits(0x000000ED, 0, 0, [t, f, t, t], [f, t, t, t]);
    hide LowBits;
    PolyBits(LowBits(0, 0));
  }

  lemma {:induction false} PolyBits(none: Bits)
    requires none == []
    ensures
      var t, f := true, false;
      [f, f, f, f] + [f, t, f, f] + ([t, t, f, f] + [f, f, f, t] +
      ([f, f, f, t] + [t, t, f, t] + ([t, f, t, t] + [f, t, t, t] + none))) == GeneratorTail()
  {
  }

  /** One right shift of the word is one step of the division. */
  lemma {:induction false} RowStep(x: Word)
    ensures Row(StepBit(x)) == Shift(Row(x))
  {
    RowHalf(x);
    RowOfPoly();
    LowBitsMix(Half(x), REFLECTED_POLY, 32);
    assert Row(x)[0] == Odd(Above(x, 0)) == Odd(x);
  }

  /** Adding the first |m| bits of s to m. */
  function XorPrefix(s: Bits, m: Bits): (t: Bits)
    requires |m| <= |s|
    ensures |t| == |s|
  {
    seq(|s|, i requires 0 <= i < |s| => if i < |m| then s[i] != m[i] else s[i])
  }

  /** Xoring all of m in at once and shifting |m| times is feeding its bits one by one. */
  lemma {:induction false} StepsAreFeed(x: Word, s: Bits, m: Bits)
    requires |s| == 32 && |m| <= 32 && Row(x) == XorPrefix(s, m)
    ensures Row(Steps(x, |m|)) == Feed(s, m)
    decreases |m|
  {
    if m == [] {
      assert XorPrefix(s, m) == s;
    } else {
      RowStep(x);
      ShiftPrefix(s, m);
      StepsAreFeed(StepBit(x), FeedBit(s, m[0]), m[1..]);
    }
  }

  lemma {:induction false} ShiftPrefix(s: Bits, m: Bits)
    requires |s| == 32 && 0 < |m| <= 32
    ensures Shift(XorPrefix(s, m)) == XorPrefix(FeedBit(s, m[0]), m[1..])
  {
  }

  lemma {:induction false} RowOfByte(b: byte)
    ensures Row(Widen(b)) == ByteBits(b) + Zeros(24)
    ensures Above(Widen(b), 8) == 0
  {
    LowBitsSplit(Widen(b), 8, 24);
    Above8(Widen(b));
    ByteShift(b);
    LowBitsZero(24);
  }

  lemma {:induction false} ByteShift(b: byte) ensures Down4(Down4(Widen(b))) == 0 {}

  lemma {:induction false} RowMix(r: Word, w: Word, m: Bits)
    requires |m| == 8 && Row(w) == m + Zeros(24)
    ensures Row(Mix(r, w)) == XorPrefix(Row(r), m)
  {
    RowOfMix(r, w);
    XorPadded(Row(r), m);
  }

  lemma {:induction false} RowOfMix(r: Word, w: Word)
    ensures Row(Mix(r, w)) == Xor(Row(r), Row(w))
  {
    LowBitsMix(r, w, 32);
  }

  lemma {:induction false} XorPadded(s: Bits, m: Bits)
    requires |s| == 32 && |m| == 8
    ensures Xor(s, m + Zeros(24)) == XorPrefix(s, m)
  {
  }

  lemma {:induction false} RowStepByte(r: Word, b: byte)
    ensures Row(StepByte(r, b)) == Feed(Row(r), ByteBits(b))
  {
    RowOfByte(b);
    RowMix(r, Widen(b), ByteBits(b));
    StepsAreFeed(Mix(r, Widen(b)), Row(r), ByteBits(b));
  }

  /** The firmware's byte loop reads the message bit by bit. */
  lemma {:induction false} UpdateIsFeed(r: Word, data: seq<byte>)
    ensures Row(Update(r, data)) == Feed(Row(r), MessageBits(data))
    decreases |data|
  {
    if data != [] {
      RowStepByte(r, data[0]);
      FeedConcat(Row(r), ByteBits(data[0]), MessageBits(data[1..]));
      UpdateIsFeed(StepByte(r, data[0]), data[1..]);
    }
  }

  // ---------------------------------------------------------------------------
  // Rows determine words
  // ---------------------------------------------------------------------------

  lemma {:induction false} SameByParts(v: Word, w: Word)
    requires Half(v) == Half(w) && Odd(v) == Odd(w)
    ensures v == w
  {
  }

  lemma {:induction false} LowBitsTail(w: Word, k: nat)
    requires k > 0
    ensures LowBits(Half(w), k - 1) == LowBits(w, k)[1..]
  {
    forall i: nat | i < k - 1 ensures Odd(Above(Half(w), i)) == Odd(Above(w, i + 1)) {
    }
  }

  lemma {:induction false} LowBitsInjective(v: Word, w: Word, k: nat)
    requires LowBits(v, k) == LowBits(w, k) && Above(v, k) == Above(w, k)
    ensures v == w
    decreases k
  {
    if k > 0 {
      assert LowBits(v, k)[0] == LowBits(w, k)[0];
      assert Odd(Above(v, 0)) == Odd(Above(w, 0));
      LowBitsTail(v, k);
      LowBitsTail(w, k);
      LowBitsInjective(Half(v), Half(w), k - 1);
      SameByParts(v, w);
    }
  }

  lemma {:induction false} RowInjective(v: Word, w: Word)
    requires Row(v) == Row(w)
    ensures v == w
  {
    Above32(v);
    Above32(w);
    LowBitsInjective(v, w, 32);
  }

  lemma {:induction false} WidenInjective(a: byte, b: byte)
    requires Widen(a) == Widen(b)
    ensures a == b
  {
  }

  lemma {:induction false} ByteBitsInjective(a: byte, b: byte)
    requires ByteBits(a) == ByteBits(b)
    ensures a == b
  {
    RowOfByte(a);
    RowOfByte(b);
    RowInjective(Widen(a), Widen(b));
    WidenInjective(a, b);
  }

  lemma {:induction false} MessageBitsInjective(a: seq<byte>, b: seq<byte>)
    requires |a| == |b| && MessageBits(a) == MessageBits(b)
    ensures a == b
  {
    if a != [] {
      assert ByteBits(a[0]) == MessageBits(a)[..8] == MessageBits(b)[..8] == ByteBits(b[0]);
      assert MessageBits(a[1..]) == MessageBits(a)[8..] == MessageBits(b)[8..] == MessageBits(b[1..]);
      MessageBitsInjective(a[1..], b[1..]);
      ByteBitsInjective(a[0], b[0]);
      assert a == [a[0]] + a[1..] && b == [b[0]] + b[1..];
    }
  }

  lemma {:induction false} MessageBitsConcat(a: seq<byte>, b: seq<byte>)
    ensures MessageBits(a + b) == MessageBits(a) + MessageBits(b)
  {
    if a == [] {
      assert a + b == b;
    } else {
      assert (a + b)[1..] == a[1..] + b;
      MessageBitsConcat(a[1..], b);
    }
  }
}
