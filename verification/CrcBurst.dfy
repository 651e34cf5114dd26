/** Which damage the checksum is certain to notice. */
module CrcBurst {
  import opened Crc32
  import opened CrcBits

  lemma {:induction false} ShiftLinear(s: Bits, t: Bits)
    requires |s| == 32 && |t| == 32
    ensures Shift(Xor(s, t)) == Xor(Shift(s), Shift(t))
  {
  }

  lemma {:induction false} FeedLinear(s: Bits, t: Bits, a: Bits, b: Bits)
    requires |s| == 32 && |t| == 32 && |a| == |b|
    ensures Feed(Xor(s, t), Xor(a, b)) == Xor(Feed(s, a), Feed(t, b))
    decreases |a|
  {
    if a != [] {
      var x, y := s[0 := s[0] != a[0]], t[0 := t[0] != b[0]];
      var st := Xor(s, t);
      assert st[0 := st[0] != Xor(a, b)[0]] == Xor(x, y);
      ShiftLinear(x, y);
      assert Xor(a, b)[1..] == Xor(a[1..], b[1..]);
      FeedLinear(Shift(x), Shift(y), a[1..], b[1..]);
    }
  }

  /** The coefficient of x^0 in the generator is 1, so a shift can be undone. */
  function Unshift(t: Bits): (s: Bits)
    requires |t| == 32
    ensures |s| == 32
  {
    [t[31]] + if t[31] then Xor(t[..31], GeneratorTail()[..31]) else t[..31]
  }

  lemma {:induction false} ShiftBack(s: Bits)
    requires |s| == 32
    ensures Unshift(Shift(s)) == s
  {
  }

  /** Reading the same bytes never merges two register values. */
  lemma {:induction false} FeedInjective(s: Bits, t: Bits, m: Bits)
    requires |s| == 32 && |t| == 32 && Feed(s, m) == Feed(t, m)
    ensures s == t
    decreases |m|
  {
    if m != [] {
      FeedInjective(FeedBit(s, m[0]), FeedBit(t, m[0]), m[1..]);
      var x, y := s[0 := s[0] != m[0]], t[0 := t[0] != m[0]];
      ShiftBack(x);
      ShiftBack(y);
      assert s == x[0 := x[0] != m[0]] && t == y[0 := y[0] != m[0]];
    }
  }

  /** If at most 32 bits drive the register to zero, they are the register they started from. */
  lemma {:induction false} FeedToZero(s: Bits, e: Bits)
    requires |s| == 32 && |e| <= 32 && Feed(s, e) == Zeros(32)
    ensures s == e + Zeros(32 - |e|)
    decreases |e|
  {
    if e != [] {
      var x := s[0 := s[0] != e[0]];
      FeedToZero(Shift(x), e[1..]);
      FromShift(x, e[1..]);
      hide Shift;
      assert s == [e[0]] + x[1..];
    }
  }

  lemma {:induction false} FromShift(x: Bits, rest: Bits)
    requires |x| == 32 && |rest| < 32 && Shift(x) == rest + Zeros(32 - |rest|)
    ensures x == [false] + rest + Zeros(31 - |rest|)
  {
    ShiftBack(x);
    hide Shift;
    assert !Shift(x)[31];
    assert x == [false] + Shift(x)[..31];
  }

  /**
   Two different messages of the same length whose bits differ only inside one window of 32
   bits, at any bit position, never have the same checksum.
   */
  lemma {:induction false} BurstDetected(a: seq<byte>, b: seq<byte>, k: nat)
    requires |a| == |b| && a != b
    requires forall i :: 0 <= i < 8 * |a| && MessageBits(a)[i] != MessageBits(b)[i] ==> k <= i < k + 32
    ensures Crc32.Crc32(a) != Crc32.Crc32(b)
  {
    if Crc32.Crc32(a) == Crc32.Crc32(b) {
      SameChecksum(a, b);
      SameOutsideWindow(Row(ALL_ONES), MessageBits(a), MessageBits(b), k);
      MessageBitsInjective(a, b);
    }
  }

  lemma {:induction false} SameChecksum(a: seq<byte>, b: seq<byte>)
    requires Crc32.Crc32(a) == Crc32.Crc32(b)
    ensures Feed(Row(ALL_ONES), MessageBits(a)) == Feed(Row(ALL_ONES), MessageBits(b))
  {
    ComplementTwice(Update(ALL_ONES, a));
    ComplementTwice(Update(ALL_ONES, b));
    UpdateIsFeed(ALL_ONES, a);
    UpdateIsFeed(ALL_ONES, b);
  }

  lemma {:induction false} SameOutsideWindow(s: Bits, x: Bits, y: Bits, k: nat)
    requires |s| == 32 && |x| == |y| && Feed(s, x) == Feed(s, y)
    requires forall i :: 0 <= i < |x| && x[i] != y[i] ==> k <= i < k + 32
    ensures x == y
  {
    var from := if k < |x| then k else |x|;
    var to := if k + 32 < |x| then k + 32 else |x|;
    assert x[..from] == y[..from] && x[to..] == y[to..];
    ThreeParts(s, x, from, to);
    ThreeParts(s, y, from, to);
    var r := Feed(s, x[..from]);
    FeedInjective(Feed(r, x[from..to]), Feed(r, y[from..to]), x[to..]);
    SameWindow(r, x[from..to], y[from..to]);
    SameParts(x, y, from, to);
  }

  lemma {:induction false} SameParts(x: Bits, y: Bits, from: nat, to: nat)
    requires |x| == |y| && from <= to <= |x|
    requires x[..from] == y[..from] && x[from..to] == y[from..to] && x[to..] == y[to..]
    ensures x == y
  {
    assert x == x[..from] + x[from..to] + x[to..];
    assert y == y[..from] + y[from..to] + y[to..];
  }

  lemma {:induction false} TwoParts(s: Bits, x: Bits, k: nat)
    requires |s| == 32 && k <= |x|
    ensures Feed(s, x) == Feed(Feed(s, x[..k]), x[k..])
  {
    assert x == x[..k] + x[k..];
    FeedConcat(s, x[..k], x[k..]);
  }

  lemma {:induction false} ThreeParts(s: Bits, x: Bits, from: nat, to: nat)
    requires |s| == 32 && from <= to <= |x|
    ensures Feed(s, x) == Feed(Feed(Feed(s, x[..from]), x[from..to]), x[to..])
  {
    TwoParts(s, x, from);
    TwoParts(Feed(s, x[..from]), x[from..], to - from);
    assert x[from..][..to - from] == x[from..to] && x[from..][to - from..] == x[to..];
  }

  lemma {:induction false} SameWindow(r: Bits, u: Bits, v: Bits)
    requires |r| == 32 && |u| == |v| <= 32
    requires Feed(r, u) == Feed(r, v)
    ensures u == v
  {
    FeedLinear(r, r, u, v);
    XorSelf(r);
    XorSelf(Feed(r, u));
    FeedToZero(Zeros(32), Xor(u, v));
    forall i | 0 <= i < |u| ensures u[i] == v[i] {
      assert Xor(u, v)[i] == (Xor(u, v) + Zeros(32 - |u|))[i] == Zeros(32)[i];
    }
  }

  lemma {:induction false} XorSelf(s: Bits)
    ensures Xor(s, s) == Zeros(|s|)
  {
  }

  /** The case the store relies on: damage confined to four consecutive bytes. */
  lemma {:induction false} FourByteDamageDetected(p: seq<byte>, u: seq<byte>, v: seq<byte>, t: seq<byte>)
    requires |u| == |v| <= 4 && u != v
    ensures Crc32.Crc32(p + u + t) != Crc32.Crc32(p + v + t)
  {
    var a, b := p + u + t, p + v + t;
    MessageBitsConcat(p + u, t);
    MessageBitsConcat(p, u);
    MessageBitsConcat(p + v, t);
    MessageBitsConcat(p, v);
    assert a[|p|..|p| + |u|] == u && b[|p|..|p| + |u|] == v;
    BurstDetected(a, b, 8 * |p|);
  }

  /** The same, position by position: all differences lie in [lo, lo + 4). */
  lemma {:induction false} DamageInRange(a: seq<byte>, b: seq<byte>, lo: nat)
    requires |a| == |b| && a != b && lo <= |a|
    requires forall i :: 0 <= i < |a| && !(lo <= i < lo + 4) ==> a[i] == b[i]
    ensures Crc32.Crc32(a) != Crc32.Crc32(b)
  {
    hide Crc32.Crc32;
    var hi := if lo + 4 <= |a| then lo + 4 else |a|;
    Cut(a, lo, hi);
    Cut(b, lo, hi);
    assert a[..lo] == b[..lo];
    assert a[hi..] == b[hi..];
    FourByteDamageDetected(a[..lo], a[lo..hi], b[lo..hi], a[hi..]);
  }

  lemma {:induction false} Cut(a: seq<byte>, lo: nat, hi: nat)
    requires lo <= hi <= |a|
    ensures a == a[..lo] + a[lo..hi] + a[hi..]
  {
  }
}
