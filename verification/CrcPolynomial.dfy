/**
 The checksum as a remainder.  Polynomials over GF(2) are rows of coefficients, highest
 power first.  The message M, times x^32, with its first 32 coefficients inverted (the
 all-ones preset), is divided by the generator of IEEE 802.3; the checksum is the
 complement of the remainder.
 */
module CrcPolynomial {
  import opened Crc32
  import opened CrcBits

  /** M times x^32, plus s times x^|M|. */
  function Dividend(s: Bits, m: Bits): (d: Bits)
    requires |s| == 32
    ensures |d| == |m| + 32
  {
    Xor(m + Zeros(32), s + Zeros(|m|))
  }

  /** One coefficient times the generator x^32 + tail, times x^n. */
  function Term(q: bool, n: nat): (p: Bits)
    ensures |p| == n + 33
  {
    if q then [true] + GeneratorTail() + Zeros(n) else Zeros(n + 33)
  }

  /** The product of a polynomial with the generator. */
  function TimesGenerator(q: Bits): (p: Bits)
    ensures |p| == |q| + 32
  {
    if q == [] then Zeros(32) else Xor(Term(q[0], |q| - 1), [false] + TimesGenerator(q[1..]))
  }

  /** Quotient times generator plus remainder. */
  function Value(q: Bits, r: Bits): (p: Bits)
    requires |r| == 32
    ensures |p| == |q| + 32
  {
    Xor(TimesGenerator(q), Zeros(|q|) + r)
  }

  ghost predicate IsRemainder(m: Bits, r: Bits)
    requires |r| == 32
  {
    exists q: Bits :: |q| == |m| && Dividend(Row(ALL_ONES), m) == Value(q, r)
  }

  /** The quotient bits the register shifts out. */
  function Quotient(s: Bits, m: Bits): (q: Bits)
    requires |s| == 32
    ensures |q| == |m|
    decreases |m|
  {
    if m == [] then [] else [s[0] != m[0]] + Quotient(FeedBit(s, m[0]), m[1..])
  }

  /** One step of long division: cancel the leading coefficient. */
  lemma {:induction false} DivisionStep(s: Bits, m: Bits)
    requires |s| == 32 && m != []
    ensures Dividend(s, m) == Xor(Term(s[0] != m[0], |m| - 1), [false] + Dividend(FeedBit(s, m[0]), m[1..]))
  {
    var d := Dividend(s, m);
    var t := Term(s[0] != m[0], |m| - 1);
    var e := [false] + Dividend(FeedBit(s, m[0]), m[1..]);
    forall i | 0 <= i < |d| ensures d[i] == (t[i] != e[i]) {
      assert d[i] == ((i < |m| && m[i]) != (i < 32 && s[i]));
      assert i > 0 ==> e[i] == ((i < |m| && m[i]) != (i < 33 && FeedBit(s, m[0])[i - 1]));
    }
  }

  lemma {:induction false} XorAssociative(a: Bits, b: Bits, c: Bits)
    requires |a| == |b| == |c|
    ensures Xor(a, Xor(b, c)) == Xor(Xor(a, b), c)
  {
  }

  lemma {:induction false} XorTails(a: Bits, b: Bits)
    requires |a| == |b|
    ensures [false] + Xor(a, b) == Xor([false] + a, [false] + b)
  {
  }

  /** The leading quotient bit contributes one term. */
  lemma {:induction false} LeadingTerm(q: Bits, r: Bits)
    requires |r| == 32 && q != []
    ensures Value(q, r) == Xor(Term(q[0], |q| - 1), [false] + Value(q[1..], r))
  {
    var n := |q| - 1;
    var p := TimesGenerator(q[1..]);
    assert [false] + (Zeros(n) + r) == Zeros(n + 1) + r;
    hide Term, Xor, Zeros;
    XorTails(p, Zeros(n) + r);
    XorAssociative(Term(q[0], n), [false] + p, Zeros(n + 1) + r);
  }

  lemma {:induction false} LongDivision(s: Bits, m: Bits)
    requires |s| == 32
    ensures Dividend(s, m) == Value(Quotient(s, m), Feed(s, m))
    decreases |m|
  {
    if m == [] {
      NoTerms(s);
    } else {
      hide Value, Dividend, Term, Xor, FeedBit;
      var s' := FeedBit(s, m[0]);
      var q := Quotient(s, m);
      DivisionStep(s, m);
      LongDivision(s', m[1..]);
      LeadingTerm(q, Feed(s, m));
      assert q[1..] == Quotient(s', m[1..]);
    }
  }

  lemma {:induction false} NoTerms(s: Bits)
    requires |s| == 32
    ensures Value([], s) == s == Dividend(s, [])
  {
  }

  lemma {:induction false} XorCancel(t: Bits, a: Bits, b: Bits)
    requires |t| == |a| == |b| && Xor(t, a) == Xor(t, b)
    ensures a == b
  {
    forall i | 0 <= i < |a| ensures a[i] == b[i] {
      assert Xor(t, a)[i] == Xor(t, b)[i];
    }
  }

  /** The generator is monic, so the leading coefficient is the leading quotient bit. */
  lemma {:induction false} LeadingBit(q: bool, n: nat, rest: Bits)
    requires |rest| == n + 32
    ensures Xor(Term(q, n), [false] + rest)[0] == q
  {
  }

  lemma {:induction false} SameTail(a: Bits, b: Bits)
    requires [false] + a == [false] + b
    ensures a == b
  {
    assert a == ([false] + a)[1..] && b == ([false] + b)[1..];
  }

  /** Division by a monic generator has one quotient and one remainder. */
  lemma {:induction false} DivisionUnique(q: Bits, r: Bits, q': Bits, r': Bits)
    requires |q| == |q'| && |r| == |r'| == 32 && Value(q, r) == Value(q', r')
    ensures q == q' && r == r'
  {
    if q == [] {
      NoTerms(r);
      NoTerms(r');
    } else {
      hide Value, Term, Xor;
      var n := |q| - 1;
      var c, d := Value(q[1..], r), Value(q'[1..], r');
      LeadingTerm(q, r);
      LeadingTerm(q', r');
      LeadingBit(q[0], n, c);
      LeadingBit(q'[0], n, d);
      XorCancel(Term(q[0], n), [false] + c, [false] + d);
      SameTail(c, d);
      DivisionUnique(q[1..], r, q'[1..], r');
      assert q == [q[0]] + q[1..] && q' == [q'[0]] + q'[1..];
    }
  }

  /** For every message: the complement of the checksum is the remainder, and nothing else is. */
  lemma {:induction false} ChecksumIsRemainder(data: seq<byte>, r: Bits)
    requires |r| == 32
    ensures IsRemainder(MessageBits(data), r) <==> r == Row(Complement(Crc32.Crc32(data)))
  {
    var m := MessageBits(data);
    var s := Row(ALL_ONES);
    FinalRegister(data);
    LongDivision(s, m);
    if IsRemainder(m, r) {
      var q: Bits :| |q| == |m| && Dividend(s, m) == Value(q, r);
      DivisionUnique(q, r, Quotient(s, m), Feed(s, m));
    }
  }

  lemma {:induction false} FinalRegister(data: seq<byte>)
    ensures Row(Complement(Crc32.Crc32(data))) == Feed(Row(ALL_ONES), MessageBits(data))
  {
    ComplementTwice(Update(ALL_ONES, data));
    UpdateIsFeed(ALL_ONES, data);
  }

  /** The preset really is all ones. */
  lemma {:induction false} PresetRow()
    ensures forall i :: 0 <= i < 32 ==> Row(ALL_ONES)[i]
  {
    var ones := [true, true, true, true];
    Digits(0xFFFFFFFF, 24, 0x00FFFFFF, ones, ones);
    Digits(0x00FFFFFF, 16, 0x0000FFFF, ones, ones);
    Digits(0x0000FFFF, 8, 0x000000FF, ones, ones);
    Digits(0x000000FF, 0, 0, ones, ones);
    hide LowBits;
    AllTrue(ones, LowBits(0x00FFFFFF, 24), LowBits(0x0000FFFF, 16), LowBits(0x000000FF, 8), LowBits(0, 0));
  }

  lemma {:induction false} AllTrue(ones: Bits, a: Bits, b: Bits, c: Bits, none: Bits)
    requires ones == [true, true, true, true] && none == []
    requires a == ones + ones + b && b == ones + ones + c && c == ones + ones + none
    ensures forall i :: 0 <= i < 32 ==> (ones + ones + a)[i]
  {
    assert forall i :: 0 <= i < 8 ==> (ones + ones)[i];
  }
}
