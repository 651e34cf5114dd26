/**
 Framing of the MQTT byte stream: the remaining-length field, the parse loop over the assembly
 buffer, and why the way TCP cuts the stream into pieces does not matter.
 */
module MqttFrame {
  import opened Common

  const RX_SIZE: nat := 512

  // ---------------------------------------------------------------------------
  // The length field (section 2.2.3 of MQTT 3.1.1)
  // ---------------------------------------------------------------------------

  function EncodeLen(n: nat): (s: Octets)
    ensures |s| >= 1
    decreases n
  {
    if n < 128 then [n] else [n % 128 + 128] + EncodeLen(n / 128)
  }

  /** The scan of the parse loop: at most four bytes, with a 16-bit multiplier. */
  function ScanLen(buf: Octets, idx: nat, mult: nat, rem: nat): (r: (nat, nat))
    requires 1 <= idx <= |buf|
    ensures idx <= r.0 <= |buf|
    ensures idx < |buf| && idx <= 4 ==> idx < r.0
    decreases |buf| - idx
  {
    if idx < |buf| && idx <= 4 then
      var rem' := rem + buf[idx] % 128 * mult;
      if buf[idx] < 128 then (idx + 1, rem')
      else ScanLen(buf, idx + 1, mult * 128 % 0x1_0000, rem')
    else (idx, rem)
  }

  /** The first packet of the buffer, if it is complete: header length and remaining length. */
  function Front(buf: Octets): (r: Option<(nat, nat)>)
    ensures r.Some? ==> 2 <= r.value.0 && r.value.0 + r.value.1 <= |buf|
  {
    if |buf| < 2 then None
    else
      var (hdr, rem) := ScanLen(buf, 1, 1, 0);
      if buf[hdr - 1] >= 128 && |buf| <= hdr then None
      else if |buf| < hdr + rem then None
      else Some((hdr, rem))
  }

  /** One dispatched packet: all its bytes and the length of its fixed header. */
  datatype Frame = Frame(bytes: Octets, hdr: nat)
  {
    predicate Valid() { 2 <= hdr <= |bytes| }
    function Body(): Octets requires Valid() { bytes[hdr..] }
    function Kind(): nat requires Valid() { bytes[0] / 16 }
  }

  /** The parse loop: the packets it dispatches and the bytes it leaves. */
  function Drain(buf: Octets): (r: (seq<Frame>, Octets))
    ensures |r.1| <= |buf|
    ensures forall f :: f in r.0 ==> f.Valid()
    decreases |buf|
  {
    match Front(buf)
    case None => ([], buf)
    case Some((hdr, rem)) =>
      var (fs, rest) := Drain(buf[hdr + rem..]);
      ([Frame(buf[..hdr + rem], hdr)] + fs, rest)
  }

  // ---------------------------------------------------------------------------
  // Segmentation does not matter, for any bytes at all
  // ---------------------------------------------------------------------------

  lemma {:induction false} ScanGrows(a: Octets, b: Octets, idx: nat, mult: nat, rem: nat)
    requires 1 <= idx <= |a|
    ensures
      var (h, r) := ScanLen(a, idx, mult, rem);
      (h > idx && a[h - 1] < 128) || h > 4 ==> ScanLen(a + b, idx, mult, rem) == (h, r)
    decreases |a| - idx
  {
    if idx < |a| && idx <= 4 && a[idx] >= 128 {
      ScanGrows(a, b, idx + 1, mult * 128 % 0x1_0000, rem + a[idx] % 128 * mult);
    }
  }

  lemma {:induction false} ScanStops(a: Octets, idx: nat, mult: nat, rem: nat)
    requires 1 <= idx <= |a|
    ensures
      var h := ScanLen(a, idx, mult, rem).0;
      h == |a| || h > 4 || (h > idx && a[h - 1] < 128)
    decreases |a| - idx
  {
    if idx < |a| && idx <= 4 && a[idx] >= 128 {
      ScanStops(a, idx + 1, mult * 128 % 0x1_0000, rem + a[idx] % 128 * mult);
    }
  }

  /** A complete packet stays the same packet when more bytes arrive. */
  lemma {:induction false} FrontGrows(a: Octets, b: Octets)
    requires Front(a).Some?
    ensures Front(a + b) == Front(a)
  {
    var (h, r) := ScanLen(a, 1, 1, 0);
    ScanStops(a, 1, 1, 0);
    ScanGrows(a, b, 1, 1, 0);
  }

  lemma {:induction false} DrainOne(buf: Octets)
    requires Front(buf).Some?
    ensures
      var (hdr, rem) := Front(buf).value;
      var (fs, rest) := Drain(buf[hdr + rem..]);
      Drain(buf) == ([Frame(buf[..hdr + rem], hdr)] + fs, rest)
  {
  }

  lemma {:induction false} DrainNone(buf: Octets)
    requires Front(buf).None?
    ensures Drain(buf) == ([], buf)
  {
  }

  /** Parsing what has arrived and then the rest is parsing everything at once. */
  lemma {:induction false} DrainConcat(a: Octets, b: Octets)
    ensures
      var (fs, rest) := Drain(a);
      var (gs, last) := Drain(rest + b);
      Drain(a + b) == (fs + gs, last)
    decreases |a|
  {
    hide Drain, Front;
    if Front(a).None? {
      DrainNone(a);
      assert [] + Drain(a + b).0 == Drain(a + b).0;
    } else {
      var (hdr, rem) := Front(a).value;
      var n := hdr + rem;
      DrainOne(a);
      FrontGrows(a, b);
      DrainOne(a + b);
      assert (a + b)[n..] == a[n..] + b;
      assert (a + b)[..n] == a[..n];
      DrainConcat(a[n..], b);
      var (fs, rest) := Drain(a[n..]);
      var gs := Drain(rest + b).0;
      assert [Frame(a[..n], hdr)] + (fs + gs) == ([Frame(a[..n], hdr)] + fs) + gs;
    }
  }

  /** A chain of segments goes into the buffer; one that does not fit discards everything. */
  function Append(buf: Octets, segs: seq<Octets>): Octets
    decreases |segs|
  {
    if segs == [] then buf
    else Append(if |buf| + |segs[0]| <= RX_SIZE then buf + segs[0] else [], segs[1..])
  }

  /**
   A segment that does not fit empties the buffer and is lost itself; what follows is taken
   as on a new connection.
   */
  lemma {:induction false} OverflowForgets(buf: Octets, before: seq<Octets>, seg: Octets, after: seq<Octets>)
    requires |Append(buf, before)| + |seg| > RX_SIZE
    ensures Append(buf, before + [seg] + after) == Append([], after)
    decreases |before|
  {
    var all := before + [seg] + after;
    if before == [] {
      assert all[0] == seg && all[1..] == after;
    } else {
      assert all[0] == before[0] && all[1..] == before[1..] + [seg] + after;
      OverflowForgets(if |buf| + |before[0]| <= RX_SIZE then buf + before[0] else [], before[1..], seg, after);
    }
  }

  /** Whatever the bytes, a length field has at most four, and a fifth is never read as one. */
  lemma {:induction false} LengthFieldEnds(buf: Octets)
    requires |buf| >= 2
    ensures
      var hdr := ScanLen(buf, 1, 1, 0).0;
      && 2 <= hdr <= 5
      && (forall i :: 1 <= i < hdr - 1 ==> buf[i] >= 128)
      && (hdr < 5 && hdr < |buf| ==> buf[hdr - 1] < 128)
  {
    ScanField(buf, 1, 1, 0);
  }

  /** What the first three digits of a length field come to. */
  function ThreeDigitsAt(buf: Octets): nat
    requires |buf| > 3
  {
    var d1: nat, d2: nat, d3: nat := buf[1] % 128, buf[2] % 128, buf[3] % 128;
    d1 + 128 * (d2 + 128 * d3)
  }

  /**
   A length field that goes on for all its four bytes is taken as it is: the packet is dispatched once the
   bytes of its first three digits are there, the fourth having lost its weight in 16 bits.
   */
  lemma {:induction false} EndlessLength(buf: Octets)
    requires |buf| > 5 && forall i :: 1 <= i < 5 ==> buf[i] >= 128
    ensures Front(buf) == if |buf| < 5 + ThreeDigitsAt(buf) then None else Some((5, ThreeDigitsAt(buf)))
  {
    var d1: nat, d2: nat, d3: nat := buf[1] % 128, buf[2] % 128, buf[3] % 128;
    var r1 := d1;
    var r2 := r1 + d2 * 128;
    var r3 := r2 + d3 * 16384;
    assert ScanLen(buf, 1, 1, 0) == ScanLen(buf, 2, 128, r1);
    assert ScanLen(buf, 2, 128, r1) == ScanLen(buf, 3, 16384, r2);
    assert ScanLen(buf, 3, 16384, r2) == ScanLen(buf, 4, 0, r3);
    assert ScanLen(buf, 4, 0, r3) == ScanLen(buf, 5, 0, r3);
    assert ScanLen(buf, 5, 0, r3) == (5, r3);
  }

  lemma {:induction false} ScanField(buf: Octets, idx: nat, mult: nat, rem: nat)
    requires 1 <= idx <= |buf| && idx <= 5
    ensures
      var hdr := ScanLen(buf, idx, mult, rem).0;
      && idx <= hdr <= 5
      && (forall i :: idx <= i < hdr - 1 ==> buf[i] >= 128)
      && (idx < hdr < 5 && hdr < |buf| ==> buf[hdr - 1] < 128)
      && (hdr == idx ==> idx == |buf| || idx == 5)
    decreases |buf| - idx
  {
    if idx < |buf| && idx <= 4 && buf[idx] >= 128 {
      ScanField(buf, idx + 1, mult * 128 % 0x1_0000, rem + buf[idx] % 128 * mult);
    }
  }

  function Join(segs: seq<Octets>): Octets
    decreases |segs|
  {
    if segs == [] then [] else segs[0] + Join(segs[1..])
  }

  /** One delivery: what is dispatched, and what stays in the buffer. */
  function Receive(buf: Octets, segs: seq<Octets>): (seq<Frame>, Octets) {
    Drain(Append(buf, segs))
  }

  function ReceiveAll(buf: Octets, deliveries: seq<seq<Octets>>): (seq<Frame>, Octets)
    decreases |deliveries|
  {
    if deliveries == [] then ([], buf)
    else
      var (fs, rest) := Receive(buf, deliveries[0]);
      var (gs, last) := ReceiveAll(rest, deliveries[1..]);
      (fs + gs, last)
  }

  function Stream(deliveries: seq<seq<Octets>>): Octets
    decreases |deliveries|
  {
    if deliveries == [] then [] else Join(deliveries[0]) + Stream(deliveries[1..])
  }

  /** Leftover bytes and new bytes always fit the buffer together. */
  ghost predicate NeverOverflows(buf: Octets, deliveries: seq<seq<Octets>>)
    decreases |deliveries|
  {
    deliveries != [] ==>
      && |buf| + |Join(deliveries[0])| <= RX_SIZE
      && NeverOverflows(Receive(buf, deliveries[0]).1, deliveries[1..])
  }

  lemma {:induction false} AppendFits(buf: Octets, segs: seq<Octets>)
    requires |buf| + |Join(segs)| <= RX_SIZE
    ensures Append(buf, segs) == buf + Join(segs)
    decreases |segs|
  {
    if segs == [] {
      assert buf + [] == buf;
    } else {
      AppendFits(buf + segs[0], segs[1..]);
      assert buf + segs[0] + Join(segs[1..]) == buf + (segs[0] + Join(segs[1..]));
    }
  }

  /**
   For any byte stream, well-formed or not, and any way of cutting it into deliveries and
   segments that never overflows the buffer: the packets dispatched and the bytes left over are
   those of one pass over the whole stream.
   */
  lemma {:induction false} SegmentationIndependent(buf: Octets, deliveries: seq<seq<Octets>>)
    requires Front(buf).None? && NeverOverflows(buf, deliveries)
    ensures ReceiveAll(buf, deliveries) == Drain(buf + Stream(deliveries))
    decreases |deliveries|
  {
    if deliveries == [] {
      assert buf + [] == buf;
    } else {
      var d := Join(deliveries[0]);
      var s := Stream(deliveries[1..]);
      AppendFits(buf, deliveries[0]);
      var (fs, rest) := Drain(buf + d);
      DrainLeavesNoPacket(buf + d);
      SegmentationIndependent(rest, deliveries[1..]);
      DrainConcat(buf + d, s);
      assert buf + d + s == buf + (d + s);
    }
  }

  lemma {:induction false} DrainLeavesNoPacket(buf: Octets)
    ensures Front(Drain(buf).1).None?
    decreases |buf|
  {
    match Front(buf) {
      case None =>
      case Some((hdr, rem)) => DrainLeavesNoPacket(buf[hdr + rem..]);
    }
  }

  // ---------------------------------------------------------------------------
  // Well-formed packets
  // ---------------------------------------------------------------------------

  /** A control packet: first byte and everything after the length field. */
  datatype Packet = Packet(first: octet, body: Octets)
  {
    function Wire(): (s: Octets) { [first] + EncodeLen(|body|) + body }
    function AsFrame(): Frame { Frame(Wire(), 1 + |EncodeLen(|body|)|) }
  }

  /** The first length the 16-bit multiplier of the scan gets wrong. */
  const LEN_LIMIT: nat := 128 * 128 * 128

  lemma {:induction false} ScanMore(buf: Octets, idx: nat, mult: nat, rem: nat, d: nat)
    requires 1 <= idx < |buf| && idx <= 4 && d < 128 && buf[idx] == d + 128
    ensures ScanLen(buf, idx, mult, rem) == ScanLen(buf, idx + 1, mult * 128 % 0x1_0000, rem + d * mult)
  {
  }

  lemma {:induction false} ScanLast(buf: Octets, idx: nat, mult: nat, rem: nat, d: nat)
    requires 1 <= idx < |buf| && idx <= 4 && d < 128 && buf[idx] == d
    ensures ScanLen(buf, idx, mult, rem) == (idx + 1, rem + d * mult)
  {
  }

  lemma {:induction false} ScanTwo(b: Octets, d0: nat, d1: nat)
    requires |b| > 2 && d0 < 128 && d1 < 128 && b[1] == d0 + 128 && b[2] == d1
    ensures ScanLen(b, 1, 1, 0) == (3, d0 + d1 * 128)
  {
    hide ScanLen;
    ScanMore(b, 1, 1, 0, d0);
    ScanLast(b, 2, 128, d0, d1);
  }

  lemma {:induction false} ScanThree(b: Octets, d0: nat, d1: nat, d2: nat)
    requires |b| > 3 && d0 < 128 && d1 < 128 && d2 < 128
    requires b[1] == d0 + 128 && b[2] == d1 + 128 && b[3] == d2
    ensures ScanLen(b, 1, 1, 0) == (4, d0 + d1 * 128 + d2 * 16384)
  {
    hide ScanLen;
    ScanMore(b, 1, 1, 0, d0);
    ScanMore(b, 2, 128, d0, d1);
    ScanLast(b, 3, 16384, d0 + d1 * 128, d2);
  }

  /** The fourth digit is lost: its multiplier has wrapped to zero. */
  lemma {:induction false} ScanFour(b: Octets, d0: nat, d1: nat, d2: nat, d3: nat)
    requires |b| > 4 && d0 < 128 && d1 < 128 && d2 < 128 && d3 < 128
    requires b[1] == d0 + 128 && b[2] == d1 + 128 && b[3] == d2 + 128 && b[4] == d3
    ensures ScanLen(b, 1, 1, 0) == (5, d0 + d1 * 128 + d2 * 16384)
  {
    hide ScanLen;
    ScanMore(b, 1, 1, 0, d0);
    ScanMore(b, 2, 128, d0, d1);
    ScanMore(b, 3, 16384, d0 + d1 * 128, d2);
    ScanLast(b, 4, 0, d0 + d1 * 128 + d2 * 16384, d3);
  }

  /** The lowest base-128 digit, and the number without it. */
  function Low7(n: nat): (d: nat)
    ensures d < 128
  {
    n % 128
  }

  function High7(n: nat): nat { n / 128 }

  lemma {:induction false} Split7(n: nat)
    ensures n == Low7(n) + 128 * High7(n)
    ensures n < 128 ==> Low7(n) == n && High7(n) == 0
  {
  }

  lemma {:induction false} EncodeOne(n: nat)
    ensures EncodeLen(n) == if n < 128 then [n] else [Low7(n) + 128] + EncodeLen(High7(n))
  {
  }

  /** The encoding of n, written out. */
  lemma {:induction false} Digits(n: nat)
    requires n < 128 * LEN_LIMIT
    ensures
      var n1 := High7(n);
      var n2 := High7(n1);
      EncodeLen(n) == if n < 128 then [n] else if n1 < 128 then [Low7(n) + 128, n1]
        else if n2 < 128 then [Low7(n) + 128, Low7(n1) + 128, n2]
        else [Low7(n) + 128, Low7(n1) + 128, Low7(n2) + 128, High7(n2)]
    ensures High7(High7(High7(n))) < 128
    ensures High7(High7(n)) < 128 <==> n < LEN_LIMIT
  {
    hide EncodeLen, Low7, High7;
    var n1 := High7(n);
    var n2 := High7(n1);
    var n3 := High7(n2);
    Split7(n);
    Split7(n1);
    Split7(n2);
    EncodeOne(n);
    EncodeOne(n1);
    EncodeOne(n2);
    EncodeOne(n3);
  }

  lemma {:induction false} LenShape(n: nat)
    requires n < 128 * LEN_LIMIT
    ensures n < LEN_LIMIT ==> |EncodeLen(n)| <= 3
    ensures n >= LEN_LIMIT ==> |EncodeLen(n)| == 4
    ensures EncodeLen(n)[|EncodeLen(n)| - 1] < 128
  {
    hide EncodeLen, Low7, High7;
    Digits(n);
    Split7(n);
    Split7(High7(n));
  }

  /** What the scan makes of an encoded length followed by anything. */
  lemma {:induction false} ScanEncoded(n: nat, first: octet, rest: Octets)
    requires n < 128 * LEN_LIMIT
    ensures
      var e := EncodeLen(n);
      ScanLen([first] + e + rest, 1, 1, 0) == (1 + |e|, n % LEN_LIMIT)
  {
    hide ScanLen, EncodeLen, Low7, High7;
    var n1 := High7(n);
    var n2 := High7(n1);
    var e := EncodeLen(n);
    var b := [first] + e + rest;
    Digits(n);
    ThreeDigits(n);
    Inside([first], e, rest);
    if n < 128 {
      ScanLast(b, 1, 1, 0, n);
    } else if n1 < 128 {
      ScanTwo(b, Low7(n), n1);
    } else if n2 < 128 {
      ScanThree(b, Low7(n), Low7(n1), n2);
    } else {
      ScanFour(b, Low7(n), Low7(n1), Low7(n2), High7(n2));
    }
  }

  lemma {:induction false} Inside(a: Octets, e: Octets, c: Octets)
    ensures forall i :: |a| <= i < |a| + |e| ==> (a + e + c)[i] == e[i - |a|]
  {
  }

  lemma {:induction false} ThreeDigits(n: nat)
    ensures n % LEN_LIMIT == Low7(n) + Low7(High7(n)) * 128 + Low7(High7(High7(n))) * 16384
    ensures n < 128 ==> n % LEN_LIMIT == n
    ensures High7(n) < 128 ==> n % LEN_LIMIT == Low7(n) + High7(n) * 128
    ensures High7(High7(n)) < 128 ==> n % LEN_LIMIT == Low7(n) + Low7(High7(n)) * 128 + High7(High7(n)) * 16384
  {
    hide Low7, High7;
    var n1 := High7(n);
    var n2 := High7(n1);
    Split7(n);
    Split7(n1);
    Split7(n2);
    Remainder(High7(n2), Low7(n) + Low7(n1) * 128 + Low7(n2) * 16384);
  }

  lemma {:induction false} Remainder(q: nat, r: nat)
    requires r < LEN_LIMIT
    ensures (r + LEN_LIMIT * q) % LEN_LIMIT == r
  {
  }

  /** The exact range of lengths the parser reads back as they were written. */
  lemma {:induction false} LengthExact(n: nat, first: octet, rest: Octets)
    requires n < 128 * LEN_LIMIT
    ensures ScanLen([first] + EncodeLen(n) + rest, 1, 1, 0).1 == n <==> n < LEN_LIMIT
  {
    hide ScanLen, EncodeLen;
    ScanEncoded(n, first, rest);
  }

  lemma {:induction false} FrontOfPacket(p: Packet, rest: Octets)
    requires |p.body| < LEN_LIMIT
    ensures Front(p.Wire() + rest) == Some((1 + |EncodeLen(|p.body|)|, |p.body|))
  {
    hide ScanLen, EncodeLen;
    var e := EncodeLen(|p.body|);
    assert p.Wire() + rest == [p.first] + e + (p.body + rest);
    ScanEncoded(|p.body|, p.first, p.body + rest);
    LenShape(|p.body|);
    var b := p.Wire() + rest;
    assert b[|e|] == e[|e| - 1];
  }

  /** An incomplete packet is never dispatched. */
  lemma {:induction false} FrontOfPrefix(p: Packet, k: nat)
    requires |p.body| < LEN_LIMIT && k < |p.Wire()|
    ensures Front(p.Wire()[..k]).None?
  {
    var w := p.Wire();
    var a := w[..k];
    if Front(a).Some? {
      FrontGrows(a, w[k..]);
      assert a + w[k..] == w == w + [];
      FrontOfPacket(p, []);
    }
  }

  function Wires(ps: seq<Packet>): Octets
    decreases |ps|
  {
    if ps == [] then [] else ps[0].Wire() + Wires(ps[1..])
  }

  function Frames(ps: seq<Packet>): (fs: seq<Frame>)
    ensures |fs| == |ps|
  {
    seq(|ps|, i requires 0 <= i < |ps| => ps[i].AsFrame())
  }

  lemma {:induction false} DrainPacket(p: Packet, rest: Octets)
    requires |p.body| < LEN_LIMIT
    ensures Drain(p.Wire() + rest) == ([p.AsFrame()] + Drain(rest).0, Drain(rest).1)
  {
    hide Front, EncodeLen;
    FrontOfPacket(p, rest);
    var w := p.Wire();
    assert (w + rest)[..|w|] == w && (w + rest)[|w|..] == rest;
  }

  lemma {:induction false} Regroup(a: Octets, b: Octets, c: Octets)
    ensures a + b + c == a + (b + c)
  {
  }

  lemma {:induction false} DrainPackets(ps: seq<Packet>, tail: Octets)
    requires forall p :: p in ps ==> |p.body| < LEN_LIMIT
    requires Front(tail).None?
    ensures Drain(Wires(ps) + tail) == (Frames(ps), tail)
    decreases |ps|
  {
    if ps == [] {
      assert [] + tail == tail;
    } else {
      hide *;
      var p := ps[0];
      assert p in ps;
      WiresSplit(ps, tail);
      DrainPacket(p, Wires(ps[1..]) + tail);
      DrainPackets(ps[1..], tail);
      FramesSplit(ps);
    }
  }

  lemma {:induction false} WiresSplit(ps: seq<Packet>, tail: Octets)
    requires ps != []
    ensures Wires(ps) + tail == ps[0].Wire() + (Wires(ps[1..]) + tail)
  {
    assert Wires(ps) == ps[0].Wire() + Wires(ps[1..]);
    hide *;
    Regroup(ps[0].Wire(), Wires(ps[1..]), tail);
  }

  lemma {:induction false} FramesSplit(ps: seq<Packet>)
    requires ps != []
    ensures Frames(ps) == [ps[0].AsFrame()] + Frames(ps[1..])
  {
  }

  /**
   Framing.  A broker sends the packets ps and the first k bytes of one more; however TCP cuts
   the stream, the receiver dispatches exactly ps, in order, and keeps exactly the k bytes.
   */
  lemma {:induction false} FramingIsExact(ps: seq<Packet>, next: Packet, k: nat, deliveries: seq<seq<Octets>>)
    requires (forall p :: p in ps ==> |p.body| < LEN_LIMIT) && |next.body| < LEN_LIMIT && k < |next.Wire()|
    requires Stream(deliveries) == Wires(ps) + next.Wire()[..k]
    requires NeverOverflows([], deliveries)
    ensures ReceiveAll([], deliveries) == (Frames(ps), next.Wire()[..k])
  {
    FrontOfPrefix(next, k);
    SegmentationIndependent([], deliveries);
    DrainPackets(ps, next.Wire()[..k]);
    assert [] + Stream(deliveries) == Stream(deliveries);
  }

  // ---------------------------------------------------------------------------
  // When the buffer suffices
  // ---------------------------------------------------------------------------

  /** Cutting a stream of packets of at most limit bytes anywhere leaves less than one packet over. */
  lemma {:induction false} CutLeavesPart(ps: seq<Packet>, k: nat, limit: nat)
    requires forall p :: p in ps ==> |p.body| < LEN_LIMIT && |p.Wire()| <= limit
    requires k <= |Wires(ps)| && limit > 0
    ensures |Drain(Wires(ps)[..k]).1| < limit
    decreases |ps|
  {
    if ps == [] {
      DrainNone([]);
    } else {
      hide Front, EncodeLen, Drain;
      var p := ps[0];
      assert p in ps;
      var w, rest := p.Wire(), Wires(ps[1..]);
      assert Wires(ps) == w + rest;
      hide Wires;
      CutTwo(w, rest, k);
      if k < |w| {
        FrontOfPrefix(p, k);
        DrainNone(w[..k]);
      } else {
        DrainPacket(p, rest[..k - |w|]);
        CutLeavesPart(ps[1..], k - |w|, limit);
      }
    }
  }

  lemma {:induction false} CutTwo(a: Octets, b: Octets, k: nat)
    requires k <= |a + b|
    ensures (a + b)[..k] == if k < |a| then a[..k] else a + b[..k - |a|]
  {
  }

  /** The bytes done and those still to be delivered are a cut stream of such packets. */
  lemma {:induction false} PacedFits(ps: seq<Packet>, done: Octets, deliveries: seq<seq<Octets>>, limit: nat)
    requires forall p :: p in ps ==> |p.body| < LEN_LIMIT && |p.Wire()| <= limit
    requires 0 < limit && done + Stream(deliveries) <= Wires(ps)
    requires forall d :: d in deliveries ==> |Join(d)| + limit <= RX_SIZE + 1
    ensures NeverOverflows(Drain(done).1, deliveries)
    decreases |deliveries|
  {
    if deliveries != [] {
      hide Front, EncodeLen, Drain, Wires, Append, Receive, Join;
      var d, s := Join(deliveries[0]), Stream(deliveries[1..]);
      assert deliveries[0] in deliveries;
      assert Stream(deliveries) == d + s;
      hide Stream;
      PrefixCut(done, d, s, Wires(ps));
      CutLeavesPart(ps, |done|, limit);
      NextRest(done, deliveries[0]);
      PacedFits(ps, done + d, deliveries[1..], limit);
    }
  }

  lemma {:induction false} PrefixCut(a: Octets, b: Octets, c: Octets, w: Octets)
    requires a + (b + c) <= w
    ensures a + b + c <= w && |a| <= |w| && a == w[..|a|]
  {
    assert a + b + c == a + (b + c);
    assert (a + (b + c))[..|a|] == a;
  }

  lemma {:induction false} NextRest(done: Octets, segs: seq<Octets>)
    requires |Drain(done).1| + |Join(segs)| <= RX_SIZE
    ensures Receive(Drain(done).1, segs).1 == Drain(done + Join(segs)).1
  {
    hide Drain, Append, Join;
    AppendFits(Drain(done).1, segs);
    DrainConcat(done, Join(segs));
  }

  /**
   A condition the sender can meet: when no packet is longer than limit bytes and no delivery
   brings more than 513 - limit, the 512-byte buffer never overflows.
   */
  lemma {:induction false} PacedNeverOverflows(ps: seq<Packet>, deliveries: seq<seq<Octets>>, limit: nat)
    requires forall p :: p in ps ==> |p.body| < LEN_LIMIT && |p.Wire()| <= limit
    requires 0 < limit && Stream(deliveries) <= Wires(ps)
    requires forall d :: d in deliveries ==> |Join(d)| + limit <= RX_SIZE + 1
    ensures NeverOverflows([], deliveries)
  {
    DrainNone([]);
    assert [] + Stream(deliveries) == Stream(deliveries);
    PacedFits(ps, [], deliveries, limit);
  }
}
