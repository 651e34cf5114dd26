/**
 The chunk protocol of the firmware upload, as a function of one request on the receiver's
 variables (lost at a reset) and the non-volatile memory (kept).  Class OtaReceiver runs it
 step by step; the lemmas about it are in OtaStaging, OtaCommit and OtaEndToEnd.
 */
module OtaUpload {
  import opened Common
  import opened Crc32
  import opened Nvm

  /** The receiver's variables; align is the used part of the four-byte alignment buffer. */
  datatype Ram = Ram(
    writeAddr: nat,
    size: nat,
    align: seq<byte>,
    lastErased: nat,
    abort: bool,
    nextSeq: int
  )

  /** All variables start at zero. */
  const POWER_UP := Ram(0, 0, [], 0, false, 0)

  /** What the client declares on its last chunk. */
  datatype Totals = Totals(len: nat, crc: Word)

  datatype Request =
    | Malformed // seq or data is missing
    | Chunk(seqNum: int, last: bool, data: string, totals: Option<Totals>)

  datatype Reply = IndexPage | ToolsPage | UpdateOk | BusFault

  datatype Outcome = Outcome(ram: Ram, ops: seq<Op>, reply: Reply)

  // ---------------------------------------------------------------------------
  // Hexadecimal payload
  // ---------------------------------------------------------------------------

  function HexNibble(c: char): byte {
    if '0' <= c <= '9' then ByteOf(c as int - '0' as int)
    else if 'a' <= c <= 'f' then ByteOf(c as int - 'a' as int + 10)
    else if 'A' <= c <= 'F' then ByteOf(c as int - 'A' as int + 10)
    else 0
  }

  function HexByte(hi: char, lo: char): byte {
    (HexNibble(hi) << 4) | HexNibble(lo)
  }

  /** Pairs of digits; a trailing odd digit is dropped. */
  function DecodeHex(s: string): (d: seq<byte>)
    ensures |d| == |s| / 2
  {
    if |s| < 2 then [] else [HexByte(s[0], s[1])] + DecodeHex(s[2..])
  }

  /** The digits a client may use for one half of a byte. */
  predicate DigitFor(c: char, n: byte) {
    match c
    case '0' => n == 0 case '1' => n == 1 case '2' => n == 2 case '3' => n == 3
    case '4' => n == 4 case '5' => n == 5 case '6' => n == 6 case '7' => n == 7
    case '8' => n == 8 case '9' => n == 9
    case 'a' => n == 10 case 'b' => n == 11 case 'c' => n == 12
    case 'd' => n == 13 case 'e' => n == 14 case 'f' => n == 15
    case 'A' => n == 10 case 'B' => n == 11 case 'C' => n == 12
    case 'D' => n == 13 case 'E' => n == 14 case 'F' => n == 15
    case _ => false
  }

  /** s spells out the bytes d, high half first, in digits of either case. */
  predicate Spells(s: string, d: seq<byte>)
    decreases |d|
  {
    if d == [] then s == ""
    else |s| >= 2 && DigitFor(s[0], d[0] >> 4) && DigitFor(s[1], d[0] & 0xF) && Spells(s[2..], d[1..])
  }

  lemma {:induction false} NibbleOfDigit(c: char, n: byte)
    requires DigitFor(c, n)
    ensures HexNibble(c) == n
  {
    hide ByteOf;
    BytesTo3();
    BytesTo7();
    BytesTo11();
    BytesTo15();
  }

  lemma {:induction false} BytesTo3()
    ensures ByteOf(0) == 0 && ByteOf(1) == 1 && ByteOf(2) == 2 && ByteOf(3) == 3
  {
    hide ByteOf;
    SmallByte(0, false, false, false, false);
    SmallByte(1, true, false, false, false);
    SmallByte(2, false, true, false, false);
    SmallByte(3, true, true, false, false);
  }

  lemma {:induction false} BytesTo7()
    ensures ByteOf(4) == 4 && ByteOf(5) == 5 && ByteOf(6) == 6 && ByteOf(7) == 7
  {
    hide ByteOf;
    SmallByte(4, false, false, true, false);
    SmallByte(5, true, false, true, false);
    SmallByte(6, false, true, true, false);
    SmallByte(7, true, true, true, false);
  }

  lemma {:induction false} BytesTo11()
    ensures ByteOf(8) == 8 && ByteOf(9) == 9 && ByteOf(10) == 10 && ByteOf(11) == 11
  {
    hide ByteOf;
    SmallByte(8, false, false, false, true);
    SmallByte(9, true, false, false, true);
    SmallByte(10, false, true, false, true);
    SmallByte(11, true, true, false, true);
  }

  lemma {:induction false} BytesTo15()
    ensures ByteOf(12) == 12 && ByteOf(13) == 13 && ByteOf(14) == 14 && ByteOf(15) == 15
  {
    hide ByteOf;
    SmallByte(12, false, false, true, true);
    SmallByte(13, true, false, true, true);
    SmallByte(14, false, true, true, true);
    SmallByte(15, true, true, true, true);
  }

  lemma {:induction false} Halves(b: byte)
    ensures ((b >> 4) << 4) | (b & 0xF) == b
  {
  }

  lemma {:induction false} HexByteSpelled(hi: char, lo: char, b: byte)
    requires DigitFor(hi, b >> 4) && DigitFor(lo, b & 0xF)
    ensures HexByte(hi, lo) == b
  {
    hide HexNibble, DigitFor;
    NibbleOfDigit(hi, b >> 4);
    NibbleOfDigit(lo, b & 0xF);
    Halves(b);
  }

  /** Whatever the mix of upper and lower case, the receiver gets the bytes the client spelled. */
  lemma {:induction false} DecodeSpelled(s: string, d: seq<byte>)
    requires Spells(s, d)
    ensures DecodeHex(s) == d
    decreases |d|
  {
    hide HexByte, DigitFor;
    if d != [] {
      HexByteSpelled(s[0], s[1], d[0]);
      DecodeSpelled(s[2..], d[1..]);
    }
  }

  /** What one character says about half a byte: a digit its value, anything else 0. */
  ghost predicate HalfOf(c: char, n: byte) {
    DigitFor(c, n) || (n == 0 && forall k: byte :: !DigitFor(c, k))
  }

  lemma {:induction false} NibbleExact(c: char)
    ensures HalfOf(c, HexNibble(c)) && HexNibble(c) < 16
  {
    hide ByteOf;
    BytesTo3();
    BytesTo7();
    BytesTo11();
    BytesTo15();
  }

  /** Every text decodes, digits or not: byte k comes from characters 2k and 2k + 1, and an odd last one is dropped. */
  lemma {:induction false} DecodeExact(s: string, k: nat)
    requires k < |s| / 2
    ensures HalfOf(s[2 * k], DecodeHex(s)[k] >> 4) && HalfOf(s[2 * k + 1], DecodeHex(s)[k] & 0xF)
  {
    DecodeAt(s, k);
    hide *;
    NibbleExact(s[2 * k]);
    NibbleExact(s[2 * k + 1]);
    Split(s[2 * k], s[2 * k + 1]);
  }

  lemma {:induction false} DecodeAt(s: string, k: nat)
    requires k < |s| / 2
    ensures DecodeHex(s)[k] == HexByte(s[2 * k], s[2 * k + 1])
    decreases |s|
  {
    hide HexByte;
    if k > 0 { DecodeAt(s[2..], k - 1); }
  }

  lemma {:induction false} Split(hi: char, lo: char)
    requires HexNibble(hi) < 16 && HexNibble(lo) < 16
    ensures HexByte(hi, lo) >> 4 == HexNibble(hi) && HexByte(hi, lo) & 0xF == HexNibble(lo)
  {
    hide HexNibble;
    TwoHalves(HexNibble(hi), HexNibble(lo));
  }

  lemma {:induction false} TwoHalves(hi: byte, lo: byte)
    requires hi < 16 && lo < 16
    ensures ((hi << 4) | lo) >> 4 == hi && ((hi << 4) | lo) & 0xF == lo
  {
  }

  // ---------------------------------------------------------------------------
  // One request
  // ---------------------------------------------------------------------------

  /** The page an address lies in. */
  function PageOf(addr: nat): (page: nat)
    ensures page % PAGE_SIZE == 0 && page <= addr < page + PAGE_SIZE
  {
    addr / PAGE_SIZE * PAGE_SIZE
  }

  /** There is only one page start within a page's length below an address. */
  lemma {:induction false} PageIs(page: nat, addr: nat)
    requires page % PAGE_SIZE == 0 && page <= addr < page + PAGE_SIZE
    ensures PageOf(addr) == page
  {
    AlignedGap(page, PageOf(addr));
    AlignedGap(PageOf(addr), page);
  }

  lemma {:induction false} AlignedGap(a: nat, b: nat)
    requires a % PAGE_SIZE == 0 && b % PAGE_SIZE == 0
    ensures a < b ==> a + PAGE_SIZE <= b
  {
    assert a == PAGE_SIZE * (a / PAGE_SIZE) && b == PAGE_SIZE * (b / PAGE_SIZE);
  }

  function Begun(): Ram {
    Ram(IMAGE_ADDR, 0, [], IMAGE_ADDR, false, 0)
  }

  const BEGIN_OPS: seq<Op> := [Erase(HEADER_ADDR), Erase(IMAGE_ADDR)]

  /** One decoded byte: every fourth one programs a word, erasing its page on first entry. */
  function PutByte(r: Ram, b: byte): (Ram, seq<Op>) {
    var align, size := r.align + [b], r.size + 1;
    if |align| != 4 then
      (r.(align := align, size := size), [])
    else if r.writeAddr >= IMAGE_ADDR + IMAGE_MAX_SIZE then
      (r.(align := [], size := size, abort := true), [])
    else
      var page := PageOf(r.writeAddr);
      var erase := if page > r.lastErased then [Erase(page)] else [];
      (r.(align := [], size := size, writeAddr := r.writeAddr + 4,
          lastErased := if page > r.lastErased then page else r.lastErased),
       erase + [Program(r.writeAddr, align)])
  }

  /** The decode loop; it stops as soon as a byte overflows the staging region. */
  function PutBytes(r: Ram, d: seq<byte>): (Ram, seq<Op>)
    decreases |d|
  {
    if d == [] || r.abort then (r, [])
    else
      var (r1, ops1) := PutByte(r, d[0]);
      var (r2, ops2) := PutBytes(r1, d[1..]);
      (r2, ops1 + ops2)
  }

  /** Pads a partial word with 0xFF and programs it, with no erase and no bounds check. */
  function Flush(r: Ram): (Ram, seq<Op>) {
    if r.align == [] then (r, [])
    else
      var pad := seq(if |r.align| < 4 then 4 - |r.align| else 0, _ => 0xFF as byte);
      (r.(align := [], writeAddr := r.writeAddr + 4), [Program(r.writeAddr, r.align + pad)])
  }

  function Header(size: nat, crc: Word): (h: seq<byte>)
    requires size < 0x1_0000_0000
    ensures |h| == HEADER_SIZE
  {
    WordBytes(HDR_MAGIC) + NatBytes(size) + WordBytes(crc) + WordBytes(0)
  }

  lemma {:induction false} FourParts(a: seq<byte>, b: seq<byte>, c: seq<byte>, d: seq<byte>)
    requires |a| == |b| == |c| == |d| == 4
    ensures var h := a + b + c + d; h[..4] == a && h[4..8] == b && h[8..12] == c && h[12..] == d
  {
  }

  /** In flash the header starts with "HATO", the mark with its least significant byte first, and ends in zeros. */
  lemma {:induction false} HeaderLayout(size: nat, crc: Word)
    requires size < 0x1_0000_0000
    ensures
      var h := Header(size, crc);
      && h[..4] == [0x48, 0x41, 0x54, 0x4F] && h[12..] == [0, 0, 0, 0]
      && BytesNat(h[4..8]) == size && BytesWord(h[8..12]) == crc
  {
    MarkBytes();
    hide WordBytes, NatBytes, BytesNat, BytesWord;
    NatBytesRoundTrip(size);
    WordBytesRoundTrip(crc);
    FourParts(WordBytes(HDR_MAGIC), NatBytes(size), WordBytes(crc), WordBytes(0));
  }

  lemma {:induction false} MarkBytes()
    ensures WordBytes(HDR_MAGIC) == [0x48, 0x41, 0x54, 0x4F] && WordBytes(0) == [0, 0, 0, 0]
  {
  }

  function Staged(m: Nvm, size: nat): (s: seq<byte>)
    requires size <= IMAGE_MAX_SIZE
    ensures |s| == size
  {
    m.flash[IMAGE_ADDR..IMAGE_ADDR + size]
  }

  /**
   The last chunk after its flush: the staged bytes are compared with what the client
   declared, and only then are the header and the pending flag written.  Checksumming past
   the end of flash is a bus fault, after which the processor hangs.
   */
  function Finish(r: Ram, m: Nvm, totals: Option<Totals>): (seq<Op>, Reply) {
    if totals.None? then ([], ToolsPage)
    else if r.size > IMAGE_MAX_SIZE then ([], BusFault)
    else
      var crc := Crc32.Crc32(Staged(m, r.size));
      if r.size != totals.value.len || crc != totals.value.crc then ([], ToolsPage)
      else ([Program(HEADER_ADDR, Header(r.size, crc)), SetFlag(PENDING_MAGIC, r.size)], UpdateOk)
  }

  /** What a last chunk does after its decode loop, on the memory m. */
  function Conclude(r: Ram, m: Nvm, totals: Option<Totals>): Outcome {
    var (r1, flush) := Flush(r);
    var (commit, reply) := Finish(r1, ApplyAll(m, flush), totals);
    Outcome(r1, flush + commit, reply)
  }

  /** A chunk with the expected number: m is the memory after any initial erases. */
  function ApplyChunk(r: Ram, m: Nvm, c: Request): Outcome
    requires c.Chunk?
  {
    var (r1, ops) := PutBytes(r, DecodeHex(c.data));
    if r1.abort then Outcome(r1, ops, ToolsPage)
    else
      var r2 := r1.(nextSeq := r1.nextSeq + 1);
      if !c.last then Outcome(r2, ops, ToolsPage)
      else
        var o := Conclude(r2, ApplyAll(m, ops), c.totals);
        o.(ops := ops + o.ops)
  }

  /** A chunk once any restart has been dealt with. */
  function Guarded(r: Ram, m: Nvm, c: Request): Outcome
    requires c.Chunk?
  {
    if r.abort then Outcome(r, [], ToolsPage)
    else if c.seqNum < r.nextSeq then Outcome(r, [], if c.last then UpdateOk else ToolsPage)
    else if c.seqNum > r.nextSeq then Outcome(r.(abort := true), [], ToolsPage)
    else ApplyChunk(r, m, c)
  }

  function Handle(r: Ram, m: Nvm, c: Request): Outcome {
    if c.Malformed? then Outcome(r, [], IndexPage)
    else if c.seqNum == 0 then
      var o := Guarded(Begun(), ApplyAll(m, BEGIN_OPS), c);
      o.(ops := BEGIN_OPS + o.ops)
    else Guarded(r, m, c)
  }

  /** Receiver and memory together. */
  datatype Sys = Sys(ram: Ram, nvm: Nvm)

  function Step(s: Sys, c: Request): Sys {
    var o := Handle(s.ram, s.nvm, c);
    Sys(o.ram, ApplyAll(s.nvm, o.ops))
  }

  function Run(s: Sys, reqs: seq<Request>): Sys
    decreases |reqs|
  {
    if reqs == [] then s else Run(Step(s, reqs[0]), reqs[1..])
  }
}
