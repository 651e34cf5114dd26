/** The CAN bit-rate search: which clock ratio it settles on, and what the registers make of it. */
module CanBitRate {

  const MIN_BITS: nat := 4
  const MAX_BITS: nat := 19
  const MAX_PRE: nat := 1024
  const MAX_RATIO: nat := MAX_PRE * MAX_BITS

  // ---------------------------------------------------------------------------
  // The ratios that can be set
  // ---------------------------------------------------------------------------

  /** A bit of this many quanta divides the clock ratio evenly. */
  predicate Fits(ratio: nat, bits: nat) {
    MIN_BITS <= bits <= MAX_BITS && ratio % bits == 0
  }

  ghost predicate Settable(ratio: nat) {
    exists bits :: Fits(ratio, bits)
  }

  /** Unsigned division. */
  function Quotient(n: nat, d: nat): (q: nat)
    requires d > 0
  {
    n / d
  }

  lemma {:induction false} Division(n: nat, d: nat)
    requires d > 0
    ensures n == d * Quotient(n, d) + n % d && n % d < d
  {
  }

  lemma {:induction false} Scaled(d: nat, a: nat, b: nat)
    requires a <= b
    ensures d * a <= d * b
  {
  }

  lemma {:induction false} Distribute(d: nat, k: nat)
    ensures d * (k + 1) == d * k + d
  {
  }

  lemma {:induction false} QuotientBelow(n: nat, d: nat, q: nat)
    requires d > 0 && n < d * q
    ensures Quotient(n, d) < q
  {
    Division(n, d);
    hide Quotient;
    if q <= Quotient(n, d) { Scaled(d, q, Quotient(n, d)); }
  }

  lemma {:induction false} QuotientAtLeast(n: nat, d: nat, q: nat)
    requires d > 0 && d * q <= n
    ensures q <= Quotient(n, d)
  {
    Division(n, d);
    hide Quotient;
    var k := Quotient(n, d);
    if k < q {
      Scaled(d, k + 1, q);
      Distribute(d, k);
    }
  }

  lemma {:induction false} QuotientShrinks(n: nat, a: nat, b: nat)
    requires 0 < a <= b
    ensures Quotient(n, b) <= Quotient(n, a)
  {
    Division(n, b);
    hide Quotient;
    var q := Quotient(n, b);
    Scaled(q, a, b);
    QuotientAtLeast(n, a, q);
  }

  lemma {:induction false} NextRatioIsSlower(clock: nat, rate: nat)
    requires rate > 0
    ensures Quotient(clock, Quotient(clock, rate) + 1) < rate
  {
    Division(clock, rate);
    hide Quotient;
    var ratio := Quotient(clock, rate);
    Distribute(rate, ratio);
    QuotientBelow(clock, ratio + 1, rate);
  }

  /** What the driver asserts of its arguments. */
  predicate Asked(clock: nat, rate: nat) {
    rate > 0 && MIN_BITS <= Quotient(clock, rate) <= MAX_RATIO
  }

  /** The ratio the search starts from. */
  function Start(clock: nat, rate: nat): (start: nat)
    requires Asked(clock, rate)
    ensures start >= MIN_BITS && Quotient(clock, start) <= rate
  {
    var ratio := Quotient(clock, rate);
    NextRatioIsSlower(clock, rate);
    if Quotient(clock, ratio) > rate then ratio + 1 else ratio
  }

  /** The smallest settable ratio from the start on, with the longest bit that divides it. */
  ghost predicate Chosen(start: nat, ratio: nat, bits: nat) {
    && start <= ratio && Fits(ratio, bits)
    && (forall r :: start <= r < ratio ==> !Settable(r))
    && (forall b :: b > bits ==> !Fits(ratio, b))
  }

  lemma {:induction false} MultiplesOfFourAreSettable(ratio: nat)
    requires ratio % 4 == 0
    ensures Settable(ratio)
  {
    assert Fits(ratio, 4);
  }

  /** The next multiple of four, at most three ratios further, can always be set. */
  function NextFour(start: nat): (r: nat)
    ensures start <= r <= start + 3 && r % 4 == 0
    ensures start <= MAX_RATIO ==> r <= MAX_RATIO
  {
    start + (3 - (start + 3) % 4)
  }

  /** The search looks at no more than four ratios. */
  lemma {:induction false} AtMostFourRatios(start: nat, ratio: nat, bits: nat)
    requires Chosen(start, ratio, bits)
    ensures ratio <= start + 3
    ensures start <= MAX_RATIO ==> ratio <= MAX_RATIO
  {
    MultiplesOfFourAreSettable(NextFour(start));
  }

  /** The choice leaves no freedom. */
  lemma {:induction false} ChosenUnique(start: nat, ratio: nat, bits: nat, ratio': nat, bits': nat)
    requires Chosen(start, ratio, bits) && Chosen(start, ratio', bits')
    ensures ratio == ratio' && bits == bits'
  {
    assert Settable(ratio) && Settable(ratio');
  }

  /** The longest bit of at most most quanta that divides the ratio, 0 if there is none. */
  function LongestBit(ratio: nat, most: nat): (bits: nat)
    ensures bits <= most && (most <= MAX_BITS && bits > 0 ==> Fits(ratio, bits))
    ensures forall b :: bits < b <= most ==> !Fits(ratio, b)
  {
    if most < MIN_BITS then 0 else if ratio % most == 0 then most else LongestBit(ratio, most - 1)
  }

  /** The first settable ratio from start on, looking at left more. */
  function FirstSettable(start: nat, left: nat): (ratio: nat)
    requires NextFour(start) <= start + left
    ensures start <= ratio <= start + left && LongestBit(ratio, MAX_BITS) > 0
    ensures forall r :: start <= r < ratio ==> !Settable(r)
    decreases left
  {
    LongestBitExact(start);
    NextFourAfter(start);
    if LongestBit(start, MAX_BITS) > 0 then start else FirstSettable(start + 1, left - 1)
  }

  lemma {:induction false} LongestBitExact(ratio: nat)
    ensures LongestBit(ratio, MAX_BITS) > 0 <==> Settable(ratio)
  {
    hide LongestBit;
    if Settable(ratio) {
      var b: nat :| Fits(ratio, b);
      assert b > 0 && b <= MAX_BITS;
    }
  }

  lemma {:induction false} NextFourAfter(start: nat)
    ensures !Settable(start) ==> NextFour(start) > start && NextFour(start + 1) <= NextFour(start)
  {
    if start % 4 == 0 { MultiplesOfFourAreSettable(start); }
  }

  /** Ratio and bit length, as a caller could work them out beforehand. */
  function Setting(clock: nat, rate: nat): (s: (nat, nat))
    requires Asked(clock, rate)
    ensures Chosen(Start(clock, rate), s.0, s.1)
  {
    var ratio := FirstSettable(Start(clock, rate), 3);
    (ratio, LongestBit(ratio, MAX_BITS))
  }

  // ---------------------------------------------------------------------------
  // How good the choice is
  // ---------------------------------------------------------------------------

  /**
   No settable ratio whose exact rate clock / ratio stays at or below the one asked for comes
   closer to it than the chosen one.
   */
  lemma {:induction false} ClosestFromBelow(clock: nat, rate: nat, ratio: nat, bits: nat, other: nat)
    requires Asked(clock, rate) && Chosen(Start(clock, rate), ratio, bits)
    requires Settable(other) && clock <= rate * other
    ensures ratio <= other
  {
    StartIsBelow(clock, rate, other);
  }

  lemma {:induction false} StartIsBelow(clock: nat, rate: nat, other: nat)
    requires Asked(clock, rate) && clock <= rate * other
    ensures Start(clock, rate) <= other
  {
    Division(clock, rate);
    hide Quotient;
    var ratio := Quotient(clock, rate);
    if other < ratio {
      Scaled(rate, other + 1, ratio);
      Distribute(rate, other);
    } else if other == ratio {
      Distribute(ratio, rate);
      QuotientBelow(clock, ratio, rate + 1);
    }
  }

  lemma {:induction false} ExceedsAtLow(clock: nat, rate: nat, ratio: nat, bits: nat)
    requires Asked(clock, rate) && Chosen(Start(clock, rate), ratio, bits)
    ensures clock > rate * ratio <==> ratio == Quotient(clock, rate) && clock % rate != 0
  {
    Division(clock, rate);
    var low := Quotient(clock, rate);
    assert low <= ratio;
    hide Quotient, Start, Chosen;
    if ratio != low {
      Scaled(rate, low + 1, ratio);
      Distribute(rate, low);
    }
  }

  /**
   The rate returned is rounded down.  Unrounded, it is above the one asked for exactly when rate
   does not divide the clock, the rounded-down ratio of the two can be set, and it passes the
   driver's own check.
   */
  lemma {:induction false} UnroundedRateExceeds(clock: nat, rate: nat, ratio: nat, bits: nat)
    requires Asked(clock, rate) && Chosen(Start(clock, rate), ratio, bits)
    ensures
      var low := Quotient(clock, rate);
      clock > rate * ratio <==> clock % rate != 0 && Settable(low) && Quotient(clock, low) <= rate
  {
    ExceedsAtLow(clock, rate, ratio, bits);
    hide Quotient, Fits, Settable;
    SettlesOnStart(Start(clock, rate), ratio, bits);
  }

  lemma {:induction false} SettlesOnStart(start: nat, ratio: nat, bits: nat)
    requires Chosen(start, ratio, bits)
    ensures ratio == start <==> Settable(start)
  {
    assert Settable(ratio);
  }

  /** At 9 Hz and 2 bit/s the search settles on a ratio of 4: 2.25 bit/s. */
  lemma {:induction false} UnroundedRateExceedsExample()
    ensures Asked(9, 2) && Start(9, 2) == 4 && Chosen(4, 4, 4) && 9 > 2 * 4
  {
    assert Fits(4, 4);
    forall b: nat | b > 4 ensures !Fits(4, b) {
      if b <= MAX_BITS { SmallRemainder(4, b); }
    }
  }

  lemma {:induction false} SmallRemainder(n: nat, d: nat)
    requires 0 < n < d
    ensures n % d != 0
  {
  }

  /**
   A result of 0 is meant to say that nothing was set.  It is also returned, with the registers
   written, for a rate of 1 and a clock that is not itself a settable ratio, and only then.
   */
  lemma {:induction false} ZeroThoughSet(clock: nat, rate: nat, ratio: nat, bits: nat)
    requires Asked(clock, rate) && Chosen(Start(clock, rate), ratio, bits)
    ensures Quotient(clock, ratio) == 0 <==> rate == 1 && !Settable(clock)
  {
    var start := Start(clock, rate);
    AtMostFourRatios(start, ratio, bits);
    if rate > 1 {
      EnoughCycles(clock, rate, ratio);
    } else {
      ByOne(clock);
      assert start == clock;
      hide Quotient, Start;
      assert Settable(ratio);
      if ratio > clock { QuotientBelow(clock, ratio, 1); }
      else { QuotientAtLeast(clock, ratio, 1); }
    }
  }

  lemma {:induction false} ByOne(n: nat)
    ensures Quotient(n, 1) == n
  {
  }

  lemma {:induction false} EnoughCycles(clock: nat, rate: nat, ratio: nat)
    requires rate >= 2 && MIN_BITS <= Quotient(clock, rate) && 0 < ratio <= Quotient(clock, rate) + 4
    ensures Quotient(clock, ratio) > 0
  {
    var low := Quotient(clock, rate);
    Division(clock, rate);
    hide Quotient;
    Scaled(low, 2, rate);
    QuotientAtLeast(clock, ratio, 1);
  }

  lemma {:induction false} ZeroThoughSetExample()
    ensures Asked(23, 1) && Chosen(Start(23, 1), 24, 12) && Quotient(23, 24) == 0
  {
    assert Fits(24, 12);
    forall b: nat | b > 12 ensures !Fits(24, b) {
      assert b > 19 || b == 13 || b == 14 || b == 15 || b == 16 || b == 17 || b == 18 || b == 19;
    }
    forall b: nat ensures !Fits(23, b) {
      assert b < 4 || b > 19 || b == 4 || b == 5 || b == 6 || b == 7 || b == 8 || b == 9 || b == 10 || b == 11
          || b == 12 || b == 13 || b == 14 || b == 15 || b == 16 || b == 17 || b == 18 || b == 19;
    }
    assert !Settable(23);
  }

  // ---------------------------------------------------------------------------
  // The registers
  // ---------------------------------------------------------------------------

  /** First segment, second segment and jump width for each bit length from 4 quanta on. */
  const TIMINGS: seq<(nat, nat, nat)> := [
    (2, 1, 1), (3, 1, 1), (3, 2, 2), (4, 2, 2), (4, 3, 3), (5, 3, 3), (5, 4, 4), (6, 4, 4),
    (6, 5, 4), (7, 5, 4), (7, 6, 4), (8, 6, 4), (8, 7, 4), (9, 7, 4), (9, 8, 4), (10, 8, 4)]

  /** A field of a register, given the weight of its lowest bit and the number of its values. */
  function Field(register: nat, weight: nat, values: nat): (f: nat)
    requires weight > 0 && values > 0
    ensures f < values
  {
    register / weight % values
  }

  /** The bit-timing register: prescaler in bits 0-5, jump width in 6-7, the segments in 8-11 and 12-14. */
  function Pack(seg2: nat, seg1: nat, sjw: nat, brp: nat): nat {
    seg2 * 4096 + seg1 * 256 + sjw * 64 + brp
  }

  function LowSix(pre: nat): nat
    requires pre > 0
  {
    (pre - 1) % 64
  }

  function BitValue(t: (nat, nat, nat), pre: nat): nat
    requires t.0 > 0 && t.1 > 0 && t.2 > 0 && pre > 0
  {
    Pack((t.1 - 1) % 8, (t.0 - 1) % 16, (t.2 - 1) % 4, LowSix(pre))
  }

  /** The extension register holds four more prescaler bits. */
  function ExtValue(pre: nat): nat
    requires pre > 0
  {
    Field(pre - 1, 64, 16)
  }

  datatype Timing = Timing(phase1: nat, phase2: nat, sjw: nat, prescaler: nat)
  {
    /** Clock cycles a bit takes on the bus: one synchronisation quantum and the two segments. */
    function CyclesPerBit(): nat {
      prescaler * (1 + phase1 + phase2)
    }
  }

  /** CANBitTimingGet: what the controller makes of the registers. */
  function ReadBack(bit: nat, ext: nat): Timing {
    Timing(Field(bit, 256, 16) + 1, Field(bit, 4096, 8) + 1, Field(bit, 64, 4) + 1,
      Field(bit, 1, 64) + Field(ext, 1, 16) * 64 + 1)
  }

  /**
   The table follows one rule: half of the bit, rounded up, before the sample point, what is left of the
   bit after it, and a jump width of the second segment, at most 4.
   */
  lemma {:induction false} TimingsExact(bits: nat)
    requires MIN_BITS <= bits <= MAX_BITS
    ensures
      var (seg1, seg2, sjw) := Of(bits);
      && seg1 == (bits + 1) / 2 && 1 + seg1 + seg2 == bits && sjw == if seg2 < 4 then seg2 else 4
  {
    var i := bits - MIN_BITS;
    assert i == 0 || i == 1 || i == 2 || i == 3 || i == 4 || i == 5 || i == 6 || i == 7
        || i == 8 || i == 9 || i == 10 || i == 11 || i == 12 || i == 13 || i == 14 || i == 15;
  }

  lemma {:induction false} TimingOf(bits: nat)
    requires MIN_BITS <= bits <= MAX_BITS
    ensures
      var t := TIMINGS[bits - MIN_BITS];
      1 <= t.0 <= 16 && 1 <= t.1 <= 8 && 1 <= t.2 <= 4 && 1 + t.0 + t.1 == bits
  {
    var i := bits - MIN_BITS;
    assert i == 0 || i == 1 || i == 2 || i == 3 || i == 4 || i == 5 || i == 6 || i == 7
        || i == 8 || i == 9 || i == 10 || i == 11 || i == 12 || i == 13 || i == 14 || i == 15;
  }

  lemma {:induction false} FieldsApart(seg2: nat, seg1: nat, sjw: nat, brp: nat)
    requires seg2 < 8 && seg1 < 16 && sjw < 4 && brp < 64
    ensures
      var v := Pack(seg2, seg1, sjw, brp);
      Field(v, 4096, 8) == seg2 && Field(v, 256, 16) == seg1 && Field(v, 64, 4) == sjw && Field(v, 1, 64) == brp
  {
    hide Field;
    FieldOf(seg2, seg1 * 256 + sjw * 64 + brp);
    FieldOf1(seg2, seg1, sjw * 64 + brp);
    FieldOf2(seg2 * 16 + seg1, sjw, brp);
    FieldOf3(seg2 * 64 + seg1 * 4 + sjw, brp);
  }

  lemma {:induction false} FieldOf(field: nat, low: nat)
    requires field < 8 && low < 4096
    ensures Field(field * 4096 + low, 4096, 8) == field
  {
  }

  lemma {:induction false} FieldOf1(high: nat, field: nat, low: nat)
    requires field < 16 && low < 256
    ensures Field(high * 4096 + field * 256 + low, 256, 16) == field
  {
    assert (high * 4096 + field * 256 + low) / 256 == high * 16 + field;
  }

  lemma {:induction false} FieldOf2(high: nat, field: nat, low: nat)
    requires field < 4 && low < 64
    ensures Field(high * 256 + field * 64 + low, 64, 4) == field
  {
    assert (high * 256 + field * 64 + low) / 64 == high * 4 + field;
  }

  lemma {:induction false} FieldOf3(high: nat, field: nat)
    requires field < 64
    ensures Field(high * 64 + field, 1, 64) == field
  {
  }

  /** The segments come back as the table has them; the prescaler comes back modulo its ten bits. */
  lemma {:induction false} RegistersReadBack(bits: nat, pre: nat)
    requires MIN_BITS <= bits <= MAX_BITS && pre > 0
    ensures
      var t := Of(bits);
      var read := ReadBack(BitValue(t, pre), ExtValue(pre));
      && read.phase1 == t.0 && read.phase2 == t.1 && read.sjw == t.2
      && 1 + read.phase1 + read.phase2 == bits
      && read.prescaler == Stored(pre)
  {
    TimingOf(bits);
    var t := Of(bits);
    hide TIMINGS, Of, Pack, Field, Stored;
    Fits3(t);
    FieldsApart(t.1 - 1, t.0 - 1, t.2 - 1, LowSix(pre));
    TenBits(pre);
  }

  lemma {:induction false} Fits3(t: (nat, nat, nat))
    requires 1 <= t.0 <= 16 && 1 <= t.1 <= 8 && 1 <= t.2 <= 4
    ensures (t.0 - 1) % 16 == t.0 - 1 && (t.1 - 1) % 8 == t.1 - 1 && (t.2 - 1) % 4 == t.2 - 1
  {
  }

  /** A pre-divider cut to ten bits. */
  function Stored(pre: nat): (stored: nat)
    requires pre > 0
    ensures if pre <= MAX_PRE then stored == pre else stored < pre
  {
    (pre - 1) % MAX_PRE + 1
  }

  lemma {:induction false} TenBits(pre: nat)
    requires pre > 0
    ensures LowSix(pre) + Field(ExtValue(pre), 1, 16) * 64 + 1 == Stored(pre)
    ensures LowSix(pre) < 64
  {
    SixAndFour(pre - 1);
  }

  lemma {:induction false} SixAndFour(n: nat)
    ensures n % 64 + n / 64 % 16 * 64 == n % 1024
  {
    var (high, low) := (n / 64, n % 64);
    var (q, mid) := (high / 16, high % 16);
    assert n == 1024 * q + (64 * mid + low);
    LowPart(q, 64 * mid + low);
  }

  lemma {:induction false} LowPart(q: nat, r: nat)
    requires r < 1024
    ensures (1024 * q + r) % 1024 == r
  {
  }

  /**
   The bus runs at the ratio the search settles on exactly when that ratio is at most 1024 bits of
   the length it settles on: a pre-divider has ten bits.
   */
  lemma {:induction false} BusRatioExact(clock: nat, rate: nat)
    requires Asked(clock, rate)
    ensures
      var (ratio, bits) := Setting(clock, rate);
      var pre := Quotient(ratio, bits);
      && pre > 0
      && (ReadBack(BitValue(Of(bits), pre), ExtValue(pre)).CyclesPerBit() == ratio <==> ratio <= MAX_PRE * bits)
  {
    var (ratio, bits) := Setting(clock, rate);
    WholeSetting(clock, rate);
    hide *;
    var pre := Quotient(ratio, bits);
    BusRatioOf(pre, bits);
    if pre <= MAX_PRE { Scaled(bits, pre, MAX_PRE); }
    else {
      Scaled(bits, MAX_PRE + 1, pre);
      Distribute(bits, MAX_PRE);
    }
  }

  lemma {:induction false} WholeQuotient(ratio: nat, bits: nat)
    requires Fits(ratio, bits) && ratio > 0
    ensures Quotient(ratio, bits) > 0 && bits * Quotient(ratio, bits) == ratio
    ensures MIN_BITS <= bits <= MAX_BITS
  {
    Division(ratio, bits);
    hide Quotient;
  }

  /** It does whenever the search starts at 4096 or below. */
  lemma {:induction false} SmallStartsExact(clock: nat, rate: nat)
    requires Asked(clock, rate) && Start(clock, rate) <= MIN_BITS * MAX_PRE
    ensures Setting(clock, rate).0 <= MAX_PRE * Setting(clock, rate).1
  {
    var (ratio, bits) := Setting(clock, rate);
    SmallChoice(Start(clock, rate), ratio, bits);
  }

  lemma {:induction false} SmallChoice(start: nat, ratio: nat, bits: nat)
    requires Chosen(start, ratio, bits) && start <= MIN_BITS * MAX_PRE
    ensures ratio <= MAX_PRE * bits
  {
    MultiplesOfFourAreSettable(NextFour(start));
    assert ratio <= NextFour(start) <= MIN_BITS * MAX_PRE;
    Scaled(MAX_PRE, MIN_BITS, bits);
  }

  lemma {:induction false} BusRatioOf(pre: nat, bits: nat)
    requires MIN_BITS <= bits <= MAX_BITS && pre > 0
    ensures ReadBack(BitValue(Of(bits), pre), ExtValue(pre)).CyclesPerBit() == bits * pre <==> pre <= MAX_PRE
  {
    RegistersReadBack(bits, pre);
    hide BitValue, ExtValue, ReadBack, Of, Stored;
    ProductExact(bits, Stored(pre), pre);
  }

  lemma {:induction false} ProductExact(bits: nat, stored: nat, pre: nat)
    requires bits > 0 && (if pre <= MAX_PRE then stored == pre else stored < pre)
    ensures stored * bits == bits * pre <==> pre <= MAX_PRE
  {
    if pre > MAX_PRE {
      Scaled(bits, stored + 1, pre);
      Distribute(bits, stored);
    }
  }

  function Of(bits: nat): (t: (nat, nat, nat))
    requires MIN_BITS <= bits <= MAX_BITS
    ensures t.0 > 0 && t.1 > 0 && t.2 > 0
    ensures 1 + t.0 + t.1 == bits
  {
    TimingOf(bits);
    TIMINGS[bits - MIN_BITS]
  }

  /**
   Beyond it the pre-divider can be cut short: at 4.124 MHz and 1000 bit/s the only divisor is 4, the
   pre-divider 1031 is stored as 7, and a bit takes 28 clock cycles in place of 4124.
   */
  lemma {:induction false} PreDividerCutShort()
    ensures
      var (clock, rate) := (4_124_000, 1000);
      && Asked(clock, rate) && Start(clock, rate) == 4124 && Chosen(4124, 4124, 4)
      && ReadBack(BitValue(Of(4), Quotient(4124, 4)), ExtValue(Quotient(4124, 4))).CyclesPerBit() == 28
  {
    RegistersReadBack(4, 1031);
    hide BitValue, ExtValue, ReadBack, Of, TIMINGS;
    OnlyFour();
  }

  lemma {:induction false} OnlyFour()
    ensures Chosen(4124, 4124, 4)
  {
    assert Fits(4124, 4);
    forall b: nat | b > 4 ensures !Fits(4124, b) {
      if b <= MAX_BITS { NoOtherDivisor(b); }
    }
  }

  lemma {:induction false} NoOtherDivisor(b: nat)
    requires 4 < b <= MAX_BITS
    ensures 4124 % b != 0
  {
    assert b == 5 || b == 6 || b == 7 || b == 8 || b == 9 || b == 10 || b == 11 || b == 12
        || b == 13 || b == 14 || b == 15 || b == 16 || b == 17 || b == 18 || b == 19;
  }

  // ---------------------------------------------------------------------------
  // The driver
  // ---------------------------------------------------------------------------

  const CTL_INIT: bv16 := 0x0001
  const CTL_CCE: bv16 := 0x0040

  datatype Write = Ctl(mode: bv16) | Bit(value: nat) | Ext(value: nat)

  class Controller {
    var ctl: bv16
    var bit: nat
    var ext: nat
    ghost var writes: seq<Write>

    constructor ()
      ensures ctl == 0 && writes == []
    {
      ctl, bit, ext, writes := 0, 0, 0, [];
    }

    method WriteCtl(value: bv16)
      modifies this`ctl, this`writes
      ensures ctl == value && writes == old(writes) + [Ctl(value)]
    {
      ctl, writes := value, writes + [Ctl(value)];
    }

    /** The rate is changed while the controller is in initialisation mode, and its mode is restored. */
    method Program(bits: nat, pre: nat)
      requires MIN_BITS <= bits <= MAX_BITS && pre > 0
      modifies this
      ensures ctl == old(ctl)
      ensures bit == BitValue(Of(bits), pre) && ext == ExtValue(pre)
      ensures writes == old(writes) + [Ctl(old(ctl) | CTL_INIT | CTL_CCE), Bit(bit), Ext(ext), Ctl(old(ctl))]
    {
      var saved := ctl;
      WriteCtl(saved | CTL_INIT | CTL_CCE);
      bit := BitValue(Of(bits), pre);
      writes := writes + [Bit(bit)];
      ext := ExtValue(pre);
      writes := writes + [Ext(ext)];
      WriteCtl(saved);
    }

    /** The registers hold the setting for this clock and rate. */
    ghost predicate Holds(clock: nat, rate: nat)
      requires Asked(clock, rate)
      reads this
    {
      var (ratio, bits) := Setting(clock, rate);
      WholeSetting(clock, rate);
      bit == BitValue(Of(bits), Quotient(ratio, bits)) && ext == ExtValue(Quotient(ratio, bits))
    }

    /** The rate set, or 0 and no register touched. */
    method CANBitRateSet(clock: nat, rate: nat) returns (actual: nat)
      requires Asked(clock, rate)
      modifies this
      ensures Start(clock, rate) > MAX_RATIO ==> actual == 0 && unchanged(this)
      ensures Start(clock, rate) <= MAX_RATIO ==>
        var (ratio, bits) := Setting(clock, rate);
        && ratio <= MAX_RATIO
        && actual == Quotient(clock, ratio) <= rate
        && Holds(clock, rate) && ctl == old(ctl)
        && writes == old(writes) + [Ctl(old(ctl) | CTL_INIT | CTL_CCE), Bit(bit), Ext(ext), Ctl(old(ctl))]
    {
      var desired := Quotient(clock, rate);
      NextRatioIsSlower(clock, rate);
      if Quotient(clock, desired) > rate {
        desired := desired + 1;
      }
      ghost var start := Start(clock, rate);
      assert desired == start;
      ghost var (ratio, bits) := Setting(clock, rate);
      hide *;
      NoneSkipped(start);
      while desired <= MAX_RATIO
        invariant start <= desired
        invariant Skipped(start, desired)
        invariant unchanged(this)
        decreases MAX_RATIO + 1 - desired
      {
        var canBits := MAX_BITS;
        NoneAbove(desired);
        while canBits >= MIN_BITS
          invariant MIN_BITS - 1 <= canBits <= MAX_BITS
          invariant NoneOver(desired, canBits)
          invariant unchanged(this)
        {
          var pre := Quotient(desired, canBits);
          DividesEvenly(desired, canBits);
          if pre * canBits == desired {
            Settled(start, desired, canBits);
            ChosenUnique(start, ratio, bits, desired, canBits);
            Program(canBits, pre);
            QuotientShrinks(clock, start, desired);
            return Quotient(clock, pre * canBits);
          }
          OneBitLess(desired, canBits);
          canBits := canBits - 1;
        }
        NoneBelow(start, desired);
        desired := desired + 1;
      }
      if start <= MAX_RATIO { MultiplesOfFourAreSettable(NextFour(start)); }
      return 0;
    }

    /**
     CANBitTimingGet.  Whatever clock and rate have been set, the timing reported is that of the bit length
     chosen for them, and it adds up to the ratio chosen exactly when that is at most 1024 such bits.
     */
    method CANBitTimingGet() returns (t: Timing)
      ensures t == ReadBack(bit, ext)
      ensures forall clock, rate :: Asked(clock, rate) && Holds(clock, rate) ==>
        var (ratio, bits) := Setting(clock, rate);
        1 + t.phase1 + t.phase2 == bits && (t.CyclesPerBit() == ratio <==> ratio <= MAX_PRE * bits)
    {
      forall clock, rate | Asked(clock, rate) && Holds(clock, rate)
        ensures
          var (ratio, bits) := Setting(clock, rate);
          var t := ReadBack(bit, ext);
          1 + t.phase1 + t.phase2 == bits && (t.CyclesPerBit() == ratio <==> ratio <= MAX_PRE * bits)
      {
        BusRatioExact(clock, rate);
        SettingReadBack(clock, rate);
      }
      var phase2 := Field(bit, 4096, 8) + 1;
      var phase1 := Field(bit, 256, 16) + 1;
      var sjw := Field(bit, 64, 4) + 1;
      var prescaler := Field(bit, 1, 64) + Field(ext, 1, 16) * 64 + 1;
      return Timing(phase1, phase2, sjw, prescaler);
    }
  }

  lemma {:induction false} SettingReadBack(clock: nat, rate: nat)
    requires Asked(clock, rate)
    ensures
      var (ratio, bits) := Setting(clock, rate);
      var pre := Quotient(ratio, bits);
      pre > 0 && var t := ReadBack(BitValue(Of(bits), pre), ExtValue(pre)); 1 + t.phase1 + t.phase2 == bits
  {
    var (ratio, bits) := Setting(clock, rate);
    WholeSetting(clock, rate);
    hide *;
    RegistersReadBack(bits, Quotient(ratio, bits));
  }

  lemma {:induction false} WholeSetting(clock: nat, rate: nat)
    requires Asked(clock, rate)
    ensures
      var (ratio, bits) := Setting(clock, rate);
      MIN_BITS <= bits <= MAX_BITS && Quotient(ratio, bits) > 0 && bits * Quotient(ratio, bits) == ratio
  {
    var (ratio, bits) := Setting(clock, rate);
    assert Fits(ratio, bits) && ratio > 0;
    hide *;
    WholeQuotient(ratio, bits);
  }

  lemma {:induction false} DividesEvenly(ratio: nat, bits: nat)
    requires MIN_BITS <= bits <= MAX_BITS && ratio >= MIN_BITS
    ensures Quotient(ratio, bits) * bits == ratio <==> Fits(ratio, bits)
    ensures Fits(ratio, bits) ==> Quotient(ratio, bits) > 0
  {
    Division(ratio, bits);
  }

  /** No ratio from the start up to this one is settable. */
  ghost predicate Skipped(start: nat, ratio: nat) {
    forall r :: start <= r < ratio ==> !Settable(r)
  }

  /** No bit longer than this one divides the ratio. */
  ghost predicate NoneOver(ratio: nat, bits: nat) {
    forall b :: b > bits ==> !Fits(ratio, b)
  }

  lemma {:induction false} NoneSkipped(start: nat)
    ensures Skipped(start, start)
  {
  }

  lemma {:induction false} NoneAbove(ratio: nat)
    ensures NoneOver(ratio, MAX_BITS)
  {
  }

  lemma {:induction false} OneBitLess(ratio: nat, bits: nat)
    requires bits > 0 && NoneOver(ratio, bits) && !Fits(ratio, bits)
    ensures NoneOver(ratio, bits - 1)
  {
  }

  lemma {:induction false} NoneBelow(start: nat, ratio: nat)
    requires Skipped(start, ratio) && NoneOver(ratio, MIN_BITS - 1)
    ensures Skipped(start, ratio + 1)
  {
    assert !Settable(ratio);
  }

  lemma {:induction false} Settled(start: nat, ratio: nat, bits: nat)
    requires start <= ratio && Fits(ratio, bits) && Skipped(start, ratio) && NoneOver(ratio, bits)
    ensures Chosen(start, ratio, bits)
  {
  }
}
