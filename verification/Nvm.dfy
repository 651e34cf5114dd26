/**
 What survives a reset: the 1 MB flash and the two EEPROM words of the OTA pending flag.

 Every change is one of three operations.  Flash programming can only clear bits and an
 erase sets a whole 16 KB page to 0xFF.  Power can fail in the middle of an operation; then
 the cells the operation was working on hold anything at all.
 */
module Nvm {
  import opened Crc32

  const PAGE_SIZE: nat := 0x4000
  const FLASH_SIZE: nat := 0x100000
  const APP_ADDR: nat := 0
  const APP_SIZE: nat := 0x80000
  const HEADER_ADDR: nat := 0x80000
  const HEADER_SIZE: nat := 16
  const IMAGE_ADDR: nat := 0x84000
  const IMAGE_MAX_SIZE: nat := FLASH_SIZE - IMAGE_ADDR

  /** "OTAH", the mark of a written header, and "OTAP", the mark of a pending update. */
  const HDR_MAGIC: Word := 0x4F544148
  const PENDING_MAGIC: Word := 0x4F544150

  type Flash = f: seq<byte> | |f| == FLASH_SIZE witness seq(FLASH_SIZE, _ => 0)

  datatype Nvm = Nvm(flash: Flash, flag: Word, flagSize: nat)

  datatype Op =
    | Erase(page: nat)
    | Program(addr: nat, data: seq<byte>)
    | SetFlag(magic: Word, size: nat)
  {
    /** The flash cells the operation works on. */
    predicate Touches(i: int) {
      match this
      case Erase(page) => page <= i < page + PAGE_SIZE
      case Program(addr, data) => addr <= i < addr + |data|
      case SetFlag(_, _) => false
    }
  }

  function Erased(f: Flash, page: nat): Flash {
    seq(FLASH_SIZE, i requires 0 <= i < FLASH_SIZE => if page <= i < page + PAGE_SIZE then 0xFF else f[i])
  }

  function Programmed(f: Flash, addr: nat, data: seq<byte>): Flash {
    seq(FLASH_SIZE, i requires 0 <= i < FLASH_SIZE =>
      if addr <= i < addr + |data| then f[i] & data[i - addr] else f[i])
  }

  function Apply(m: Nvm, op: Op): Nvm {
    match op
    case Erase(page) => m.(flash := Erased(m.flash, page))
    case Program(addr, data) => m.(flash := Programmed(m.flash, addr, data))
    case SetFlag(magic, size) => m.(flag := magic, flagSize := size)
  }

  function ApplyAll(m: Nvm, ops: seq<Op>): Nvm
    decreases |ops|
  {
    if ops == [] then m else ApplyAll(Apply(m, ops[0]), ops[1..])
  }

  /** Power failed while op was running on m: n is what is left. */
  ghost predicate Torn(m: Nvm, op: Op, n: Nvm) {
    && (forall i :: 0 <= i < FLASH_SIZE && !op.Touches(i) ==> n.flash[i] == m.flash[i])
    && (!op.SetFlag? ==> n.flag == m.flag && n.flagSize == m.flagSize)
  }

  /** Power failed somewhere during, or right after, the operations ops started on m. */
  ghost predicate CrashState(m: Nvm, ops: seq<Op>, n: Nvm)
    decreases |ops|
  {
    if ops == [] then n == m
    else Torn(m, ops[0], n) || CrashState(Apply(m, ops[0]), ops[1..], n)
  }

  lemma {:induction false} Untouched(m: Nvm, op: Op, i: int)
    requires 0 <= i < FLASH_SIZE && !op.Touches(i)
    ensures Apply(m, op).flash[i] == m.flash[i]
  {
  }

  lemma {:induction false} ApplyAllConcat(m: Nvm, a: seq<Op>, b: seq<Op>)
    ensures ApplyAll(m, a + b) == ApplyAll(ApplyAll(m, a), b)
    decreases |a|
  {
    if a == [] {
      assert a + b == b;
    } else {
      assert (a + b)[1..] == a[1..] + b;
      ApplyAllConcat(Apply(m, a[0]), a[1..], b);
    }
  }

  /** A run that completed is one of its own crash states. */
  lemma {:induction false} CompletedIsCrashState(m: Nvm, ops: seq<Op>)
    ensures CrashState(m, ops, ApplyAll(m, ops))
    decreases |ops|
  {
    if ops != [] { CompletedIsCrashState(Apply(m, ops[0]), ops[1..]); }
  }

  /** A crash during a ++ b is a crash during a or, once a is done, a crash during b. */
  lemma {:induction false} CrashConcat(m: Nvm, a: seq<Op>, b: seq<Op>, n: Nvm)
    ensures CrashState(m, a + b, n) <==> CrashState(m, a, n) || CrashState(ApplyAll(m, a), b, n)
    decreases |a|
  {
    if a == [] {
      assert a + b == b;
    } else {
      assert (a + b)[1..] == a[1..] + b;
      CrashConcat(Apply(m, a[0]), a[1..], b, n);
    }
  }

  // ---------------------------------------------------------------------------
  // Little-endian words in flash
  // ---------------------------------------------------------------------------

  function WordBytes(w: Word): (s: seq<byte>)
    ensures |s| == 4
  {
    [(w & 0xFF) as byte, ((w >> 8) & 0xFF) as byte, ((w >> 16) & 0xFF) as byte, ((w >> 24) & 0xFF) as byte]
  }

  function BytesWord(s: seq<byte>): Word
    decreases |s|
  {
    if s == [] then 0 else PushByte(BytesWord(s[1..]), s[0])
  }

  function PushByte(high: Word, low: byte): Word {
    Mix(high << 8, Widen(low))
  }

  lemma {:induction false} WordBytesRoundTrip(w: Word)
    ensures BytesWord(WordBytes(w)) == w
  {
    var s := WordBytes(w);
    assert BytesWord(s[4..]) == 0;
    assert BytesWord(s[3..]) == PushByte(0, s[3]) by { assert s[3..][1..] == s[4..]; }
    assert BytesWord(s[2..]) == PushByte(PushByte(0, s[3]), s[2]) by { assert s[2..][1..] == s[3..]; }
    assert BytesWord(s[1..]) == PushByte(PushByte(PushByte(0, s[3]), s[2]), s[1]) by { assert s[1..][1..] == s[2..]; }
    PushFour(w);
  }

  lemma {:induction false} PushFour(w: Word)
    ensures
      var a, b := (w & 0xFF) as byte, ((w >> 8) & 0xFF) as byte;
      var c, d := ((w >> 16) & 0xFF) as byte, ((w >> 24) & 0xFF) as byte;
      PushByte(PushByte(PushByte(PushByte(0, d), c), b), a) == w
  {
  }

  lemma {:induction false} BytesWordInverse(s: seq<byte>)
    requires |s| == 4
    ensures WordBytes(BytesWord(s)) == s
  {
    assert BytesWord(s[4..]) == 0;
    assert BytesWord(s[3..]) == PushByte(0, s[3]) by { assert s[3..][1..] == s[4..]; }
    assert BytesWord(s[2..]) == PushByte(PushByte(0, s[3]), s[2]) by { assert s[2..][1..] == s[3..]; }
    assert BytesWord(s[1..]) == PushByte(PushByte(PushByte(0, s[3]), s[2]), s[1]) by { assert s[1..][1..] == s[2..]; }
    PopFour(s[0], s[1], s[2], s[3]);
  }

  lemma {:induction false} PopFour(a: byte, b: byte, c: byte, d: byte)
    ensures
      var w := PushByte(PushByte(PushByte(PushByte(0, d), c), b), a);
      && (w & 0xFF) as byte == a && ((w >> 8) & 0xFF) as byte == b
      && ((w >> 16) & 0xFF) as byte == c && ((w >> 24) & 0xFF) as byte == d
  {
  }

  // ---------------------------------------------------------------------------
  // Counts as bytes, bit by bit
  // ---------------------------------------------------------------------------

  function Pack(a: bool, b: bool, c: bool, d: bool, e: bool, f: bool, g: bool, h: bool): byte {
    (if a then 1 else 0) | (if b then 2 else 0) | (if c then 4 else 0) | (if d then 8 else 0) |
    (if e then 16 else 0) | (if f then 32 else 0) | (if g then 64 else 0) | (if h then 128 else 0)
  }

  predicate LowBit(n: nat) { n % 2 == 1 }

  function Halved(n: nat): nat { n / 2 }

  function ByteOf(n: nat): byte
    requires n < 0x100
  {
    var n1 := Halved(n); var n2 := Halved(n1); var n3 := Halved(n2); var n4 := Halved(n3);
    var n5 := Halved(n4); var n6 := Halved(n5); var n7 := Halved(n6);
    Pack(LowBit(n), LowBit(n1), LowBit(n2), LowBit(n3), LowBit(n4), LowBit(n5), LowBit(n6), n7 == 1)
  }

  function Weigh(a: bool, b: bool, c: bool, d: bool, e: bool, f: bool, g: bool, h: bool): (n: nat)
    ensures n < 0x100
  {
    Digit(a) + 2 * (Digit(b) + 2 * (Digit(c) + 2 * (Digit(d) +
    2 * (Digit(e) + 2 * (Digit(f) + 2 * (Digit(g) + 2 * Digit(h)))))))
  }

  function Digit(b: bool): nat { if b then 1 else 0 }

  function ByteValue(b: byte): (n: nat)
    ensures n < 0x100
  {
    Weigh(b & 1 != 0, b & 2 != 0, b & 4 != 0, b & 8 != 0, b & 16 != 0, b & 32 != 0, b & 64 != 0, b & 128 != 0)
  }

  lemma {:induction false} PackBits(a: bool, b: bool, c: bool, d: bool, e: bool, f: bool, g: bool, h: bool)
    ensures ByteValue(Pack(a, b, c, d, e, f, g, h)) == Weigh(a, b, c, d, e, f, g, h)
  {
    var p := Pack(a, b, c, d, e, f, g, h);
    assert (p & 1 != 0) == a && (p & 2 != 0) == b && (p & 4 != 0) == c && (p & 8 != 0) == d;
    assert (p & 16 != 0) == e && (p & 32 != 0) == f && (p & 64 != 0) == g && (p & 128 != 0) == h;
  }

  lemma {:induction false} Binary(n: nat)
    requires n < 0x100
    ensures
      var n1 := Halved(n); var n2 := Halved(n1); var n3 := Halved(n2); var n4 := Halved(n3);
      var n5 := Halved(n4); var n6 := Halved(n5); var n7 := Halved(n6);
      n == Weigh(LowBit(n), LowBit(n1), LowBit(n2), LowBit(n3), LowBit(n4), LowBit(n5), LowBit(n6), n7 == 1)
  {
    hide Halved, LowBit;
    var n1 := Halved(n); var n2 := Halved(n1); var n3 := Halved(n2); var n4 := Halved(n3);
    var n5 := Halved(n4); var n6 := Halved(n5); var n7 := Halved(n6);
    LowBitWeight(n);
    LowBitWeight(n1);
    LowBitWeight(n2);
    LowBitWeight(n3);
    LowBitWeight(n4);
    LowBitWeight(n5);
    LowBitWeight(n6);
    assert n7 < 2;
  }

  lemma {:induction false} LowBitWeight(n: nat)
    ensures n == Digit(LowBit(n)) + 2 * Halved(n)
  {
  }

  lemma {:induction false} ByteRoundTrip(n: nat)
    requires n < 0x100
    ensures ByteValue(ByteOf(n)) == n
  {
    hide Halved, LowBit, Pack, Weigh, ByteValue;
    var n1 := Halved(n); var n2 := Halved(n1); var n3 := Halved(n2); var n4 := Halved(n3);
    var n5 := Halved(n4); var n6 := Halved(n5); var n7 := Halved(n6);
    Binary(n);
    PackBits(LowBit(n), LowBit(n1), LowBit(n2), LowBit(n3), LowBit(n4), LowBit(n5), LowBit(n6), n7 == 1);
  }

  /** A byte below 16, by its binary digits. */
  lemma {:induction false} SmallByte(n: nat, a: bool, b: bool, c: bool, d: bool)
    requires n == Digit(a) + 2 * (Digit(b) + 2 * (Digit(c) + 2 * Digit(d)))
    ensures n < 16 && ByteOf(n) == Pack(a, b, c, d, false, false, false, false)
  {
    LastDigit(a, Digit(b) + 2 * (Digit(c) + 2 * Digit(d)));
    LastDigit(b, Digit(c) + 2 * Digit(d));
    LastDigit(c, Digit(d));
    LastDigit(d, 0);
    LastDigit(false, 0);
    hide Halved, LowBit, Pack;
  }

  lemma {:induction false} LastDigit(a: bool, high: nat)
    ensures LowBit(Digit(a) + 2 * high) == a && Halved(Digit(a) + 2 * high) == high
  {
  }

  function LowByte(n: nat): (r: nat)
    ensures r < 0x100
  {
    n % 0x100
  }

  function HighPart(n: nat): (q: nat)
    ensures n == LowByte(n) + 0x100 * q
  {
    n / 0x100
  }

  /** An unsigned 32-bit count, least significant byte first. */
  function NatBytes(n: nat): (s: seq<byte>)
    requires n < 0x1_0000_0000
    ensures |s| == 4
  {
    var n1 := HighPart(n);
    var n2 := HighPart(n1);
    [ByteOf(LowByte(n)), ByteOf(LowByte(n1)), ByteOf(LowByte(n2)), ByteOf(HighPart(n2))]
  }

  function BytesNat(s: seq<byte>): nat
    requires |s| == 4
  {
    ByteValue(s[0]) + 0x100 * (ByteValue(s[1]) + 0x100 * (ByteValue(s[2]) + 0x100 * ByteValue(s[3])))
  }

  lemma {:induction false} NatBytesRoundTrip(n: nat)
    requires n < 0x1_0000_0000
    ensures BytesNat(NatBytes(n)) == n
  {
    hide ByteOf, ByteValue, LowByte, HighPart;
    var n1 := HighPart(n);
    var n2 := HighPart(n1);
    ByteRoundTrip(LowByte(n));
    ByteRoundTrip(LowByte(n1));
    ByteRoundTrip(LowByte(n2));
    ByteRoundTrip(HighPart(n2));
  }

  lemma {:induction false} LastDigitOf(n: nat, a: bool, high: nat)
    requires n == Digit(a) + 2 * high
    ensures LowBit(n) == a && Halved(n) == high
  {
    LastDigit(a, high);
  }

  /** A byte by its binary digits, the partial numbers given. */
  lemma {:induction false} WeighedByte(n: nat, n1: nat, n2: nat, n3: nat, n4: nat, n5: nat, n6: nat,
                                       a: bool, b: bool, c: bool, d: bool, e: bool, f: bool, g: bool, h: bool)
    requires n == Digit(a) + 2 * n1 && n1 == Digit(b) + 2 * n2 && n2 == Digit(c) + 2 * n3 && n3 == Digit(d) + 2 * n4
    requires n4 == Digit(e) + 2 * n5 && n5 == Digit(f) + 2 * n6 && n6 == Digit(g) + 2 * Digit(h) && n < 0x100
    ensures ByteOf(n) == Pack(a, b, c, d, e, f, g, h)
  {
    LastDigitOf(n, a, n1);
    LastDigitOf(n1, b, n2);
    LastDigitOf(n2, c, n3);
    LastDigitOf(n3, d, n4);
    LastDigitOf(n4, e, n5);
    LastDigitOf(n5, f, n6);
    LastDigitOf(n6, g, Digit(h));
    assert (Digit(h) == 1) == h;
    hide Halved, LowBit, Pack, Digit;
  }

  lemma {:induction false} WeighedBits(a: bool, b: bool, c: bool, d: bool, e: bool, f: bool, g: bool, h: bool)
    ensures ByteOf(Weigh(a, b, c, d, e, f, g, h)) == Pack(a, b, c, d, e, f, g, h)
  {
    var n6 := Digit(g) + 2 * Digit(h);
    var n5 := Digit(f) + 2 * n6;
    var n4 := Digit(e) + 2 * n5;
    var n3 := Digit(d) + 2 * n4;
    var n2 := Digit(c) + 2 * n3;
    var n1 := Digit(b) + 2 * n2;
    assert Weigh(a, b, c, d, e, f, g, h) == Digit(a) + 2 * n1;
    hide ByteOf, Pack, Digit, Weigh;
    WeighedByte(Weigh(a, b, c, d, e, f, g, h), n1, n2, n3, n4, n5, n6, a, b, c, d, e, f, g, h);
  }

  lemma {:induction false} ByteInverse(b: byte)
    ensures ByteOf(ByteValue(b)) == b
  {
    BitsPack(b);
    hide ByteOf, Pack, Weigh;
    WeighedBits(b & 1 != 0, b & 2 != 0, b & 4 != 0, b & 8 != 0, b & 16 != 0, b & 32 != 0, b & 64 != 0, b & 128 != 0);
  }

  lemma {:induction false} BitsPack(b: byte)
    ensures Pack(b & 1 != 0, b & 2 != 0, b & 4 != 0, b & 8 != 0,
      b & 16 != 0, b & 32 != 0, b & 64 != 0, b & 128 != 0) == b
  {
  }

  lemma {:induction false} LastByteOf(n: nat, low: nat, high: nat)
    requires low < 0x100 && n == low + 0x100 * high
    ensures LowByte(n) == low && HighPart(n) == high
  {
  }

  lemma {:induction false} NatBytesOf(n: nat, n1: nat, n2: nat, v0: nat, v1: nat, v2: nat, v3: nat)
    requires v0 < 0x100 && v1 < 0x100 && v2 < 0x100 && v3 < 0x100
    requires n == v0 + 0x100 * n1 && n1 == v1 + 0x100 * n2 && n2 == v2 + 0x100 * v3
    ensures n < 0x1_0000_0000 && NatBytes(n) == [ByteOf(v0), ByteOf(v1), ByteOf(v2), ByteOf(v3)]
  {
    LastByteOf(n, v0, n1);
    LastByteOf(n1, v1, n2);
    LastByteOf(n2, v2, v3);
    hide ByteOf, LowByte, HighPart;
  }

  lemma {:induction false} FourBytes(s: seq<byte>)
    requires |s| == 4
    ensures s == [s[0], s[1], s[2], s[3]]
  {
  }

  lemma {:induction false} BytesNatInverse(s: seq<byte>)
    requires |s| == 4
    ensures BytesNat(s) < 0x1_0000_0000 && NatBytes(BytesNat(s)) == s
  {
    ByteInverse(s[0]);
    ByteInverse(s[1]);
    ByteInverse(s[2]);
    ByteInverse(s[3]);
    FourBytes(s);
    var v0, v1, v2, v3 := ByteValue(s[0]), ByteValue(s[1]), ByteValue(s[2]), ByteValue(s[3]);
    hide ByteValue, ByteOf, NatBytes;
    var n2 := v2 + 0x100 * v3;
    var n1 := v1 + 0x100 * n2;
    assert BytesNat(s) == v0 + 0x100 * n1;
    hide *;
    NatBytesOf(BytesNat(s), n1, n2, v0, v1, v2, v3);
  }

  // ---------------------------------------------------------------------------
  // Programming and reading ranges
  // ---------------------------------------------------------------------------

  /** Data programmed into erased cells reads back. */
  lemma {:induction false} ProgramIntoErased(m: Nvm, addr: nat, data: seq<byte>)
    requires addr + |data| <= FLASH_SIZE
    requires forall i :: addr <= i < addr + |data| ==> m.flash[i] == 0xFF
    ensures Apply(m, Program(addr, data)).flash[addr..addr + |data|] == data
  {
    var s := Apply(m, Program(addr, data)).flash[addr..addr + |data|];
    forall i | 0 <= i < |data| ensures s[i] == data[i] {
      assert m.flash[addr + i] == 0xFF;
      ProgramErased(data[i]);
    }
  }

  lemma {:induction false} SameRange(m: Nvm, n: Nvm, lo: nat, hi: nat)
    requires lo <= hi <= FLASH_SIZE
    requires forall i :: lo <= i < hi ==> n.flash[i] == m.flash[i]
    ensures n.flash[lo..hi] == m.flash[lo..hi]
  {
    var s, t := n.flash[lo..hi], m.flash[lo..hi];
    forall i | 0 <= i < hi - lo ensures s[i] == t[i] {
      assert n.flash[lo + i] == m.flash[lo + i];
    }
  }

  lemma {:induction false} SubSlice(f: seq<byte>, base: nat, n: nat, lo: nat, hi: nat)
    requires base + n <= |f| && lo <= hi <= n
    ensures f[base..base + n][lo..hi] == f[base + lo..base + hi]
  {
    var s, t := f[base..base + n][lo..hi], f[base + lo..base + hi];
    assert forall i :: 0 <= i < hi - lo ==> s[i] == t[i];
  }

  lemma {:induction false} ApplyTwo(m: Nvm, op1: Op, op2: Op)
    ensures ApplyAll(m, [op1, op2]) == Apply(Apply(m, op1), op2)
  {
    assert [op1, op2][1..] == [op2] && [op2][1..] == [];
    assert ApplyAll(Apply(m, op1), [op2]) == ApplyAll(Apply(Apply(m, op1), op2), []);
  }

  lemma {:induction false} ProgramErased(b: byte)
    ensures 0xFF & b == b
  {
  }
}
