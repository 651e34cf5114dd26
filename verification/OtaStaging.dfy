/**
 What the staging region holds.  An ideal receiver only keeps the next chunk number and the
 bytes accepted since chunk 0; the real one must earn those bytes on memory that can only
 clear bits, page by page.  The simulation below relates the two for every run.
 */
module OtaStaging {
  import opened Crc32
  import opened Nvm
  import opened OtaUpload

  datatype Ideal = Waiting | Receiving(next: int, bytes: seq<byte>) | Aborted

  /** The first byte count that no longer fits, counted in whole words. */
  const OVERFLOW: nat := IMAGE_MAX_SIZE + 4

  function IdealStep(i: Ideal, c: Request): Ideal {
    if c.Malformed? then i
    else
      match if c.seqNum == 0 then Receiving(0, []) else i
      case Aborted => Aborted
      case Waiting => if c.seqNum < 0 then Waiting else Aborted
      case Receiving(next, bytes) =>
        if c.seqNum < next then Receiving(next, bytes)
        else if c.seqNum > next || |bytes| + |DecodeHex(c.data)| >= OVERFLOW then Aborted
        else Receiving(next + 1, bytes + DecodeHex(c.data))
  }

  function IdealRun(i: Ideal, reqs: seq<Request>): Ideal
    decreases |reqs|
  {
    if reqs == [] then i else IdealRun(IdealStep(i, reqs[0]), reqs[1..])
  }

  /** The bytes that fill whole words. */
  function Whole(n: nat): (w: nat)
    ensures w <= n && w % 4 == 0 && n - w < 4
  {
    FourTimes(n / 4);
    4 * (n / 4)
  }

  lemma {:induction false} FourTimes(k: nat)
    ensures 4 * k % 4 == 0
  {
  }

  /** Receiver and memory hold exactly the bytes a, with erased cells ahead of the write address. */
  ghost predicate Staging(r: Ram, m: Nvm, a: seq<byte>) {
    var w := Whole(|a|);
    && !r.abort
    && w <= IMAGE_MAX_SIZE
    && r.size == |a|
    && r.align == a[w..]
    && r.writeAddr == IMAGE_ADDR + w
    && r.lastErased % PAGE_SIZE == 0
    && IMAGE_ADDR <= r.lastErased <= r.writeAddr <= r.lastErased + PAGE_SIZE
    && r.lastErased < FLASH_SIZE
    && (if w == 0 then r.lastErased == IMAGE_ADDR else r.lastErased < r.writeAddr)
    && (forall i :: 0 <= i < w ==> m.flash[IMAGE_ADDR + i] == a[i])
    && (forall i :: r.writeAddr <= i < r.lastErased + PAGE_SIZE ==> m.flash[i] == 0xFF)
  }

  lemma {:induction false} PutByteFits(r: Ram, m: Nvm, a: seq<byte>, b: byte)
    requires Staging(r, m, a) && |a| + 1 < OVERFLOW
    ensures Staging(PutByte(r, b).0, ApplyAll(m, PutByte(r, b).1), a + [b])
    ensures PutByte(r, b).0.nextSeq == r.nextSeq
  {
    if |a| % 4 == 3 {
      PutFourthByte(r, m, a, b);
    } else {
      assert Whole(|a| + 1) == Whole(|a|);
      assert r.align + [b] == (a + [b])[Whole(|a|)..];
    }
  }

  lemma {:induction false} WholeOfFourth(n: nat)
    requires n % 4 == 3
    ensures Whole(n) == n - 3 && Whole(n + 1) == n + 1
  {
  }

  lemma {:induction false} PutFourthByte(r: Ram, m: Nvm, a: seq<byte>, b: byte)
    requires Staging(r, m, a) && |a| + 1 < OVERFLOW && |a| % 4 == 3
    ensures Staging(PutByte(r, b).0, ApplyAll(m, PutByte(r, b).1), a + [b])
    ensures PutByte(r, b).0.nextSeq == r.nextSeq
  {
    BeforeFourth(r, m, a);
    hide Staging, Whole;
    var word := r.align + [b];
    FourthByte(r, b);
    hide ApplyAll, PageOf, PutByte, StoredAt, SameBelow, ErasedCells, PageStart, WordStart;
    var n := ApplyAll(m, PutByte(r, b).1);
    PutWord(r, m, word);
    WordStaged(m, n, a, b, word);
    AfterFourth(PutByte(r, b).0, n, a + [b]);
  }

  /** The byte that completes a word. */
  lemma {:induction false} FourthByte(r: Ram, b: byte)
    requires |r.align| == 3 && r.writeAddr < IMAGE_ADDR + IMAGE_MAX_SIZE
    ensures
      var page := PageOf(r.writeAddr);
      var (r', ops) := PutByte(r, b);
      && ops == (if page > r.lastErased then [Erase(page)] else []) + [Program(r.writeAddr, r.align + [b])]
      && r'.align == [] && r'.size == r.size + 1 && r'.writeAddr == r.writeAddr + 4 && r'.abort == r.abort
      && r'.lastErased == (if page > r.lastErased then page else r.lastErased) && r'.nextSeq == r.nextSeq
  {
    hide PageOf;
  }

  /** The receiver three bytes into a word. */
  lemma {:induction false} BeforeFourth(r: Ram, m: Nvm, a: seq<byte>)
    requires Staging(r, m, a) && |a| + 1 < OVERFLOW && |a| % 4 == 3
    ensures |a| + 1 <= IMAGE_MAX_SIZE && r.align == a[|a| - 3..] && r.size == |a| && !r.abort
    ensures r.writeAddr == IMAGE_ADDR + |a| - 3 && WordStart(r.writeAddr) && r.writeAddr + 4 <= FLASH_SIZE
    ensures PageStart(r.lastErased) && r.lastErased < FLASH_SIZE && WordStart(|a| + 1)
    ensures IMAGE_ADDR <= r.lastErased <= r.writeAddr <= r.lastErased + PAGE_SIZE
    ensures StoredAt(m, IMAGE_ADDR, a[..|a| - 3]) && ErasedCells(m, r.writeAddr, r.lastErased + PAGE_SIZE)
  {
    WholeOfFourth(|a|);
    hide Whole;
    WordAddr(|a| - 3);
    PageEnd(r.lastErased);
  }

  lemma {:induction false} WordAddr(w: nat)
    requires w % 4 == 0
    ensures (IMAGE_ADDR + w) % 4 == 0 && (w < IMAGE_MAX_SIZE ==> w + 4 <= IMAGE_MAX_SIZE)
  {
    assert w == 4 * (w / 4);
  }

  /** The receiver after a whole number of words. */
  lemma {:induction false} AfterFourth(r: Ram, m: Nvm, a: seq<byte>)
    requires WordStart(|a|) && 0 < |a| <= IMAGE_MAX_SIZE && r.align == [] && r.size == |a| && !r.abort
    requires r.writeAddr == IMAGE_ADDR + |a| && PageStart(r.lastErased) && r.lastErased < FLASH_SIZE
    requires IMAGE_ADDR <= r.lastErased < r.writeAddr <= r.lastErased + PAGE_SIZE
    requires StoredAt(m, IMAGE_ADDR, a) && ErasedCells(m, r.writeAddr, r.lastErased + PAGE_SIZE)
    ensures Staging(r, m, a)
  {
    assert Whole(|a|) == |a|;
    hide Whole;
    assert a[|a|..] == [];
  }

  ghost predicate SameBelow(m: Nvm, n: Nvm, hi: nat) {
    forall i :: 0 <= i < hi && i < FLASH_SIZE ==> n.flash[i] == m.flash[i]
  }

  /** The cells from addr on hold s. */
  ghost predicate StoredAt(n: Nvm, addr: nat, s: seq<byte>) {
    addr + |s| <= FLASH_SIZE && forall i :: 0 <= i < |s| ==> n.flash[addr + i] == s[i]
  }

  ghost predicate ErasedCells(n: Nvm, lo: nat, hi: nat) {
    hi <= FLASH_SIZE && forall i :: lo <= i < hi ==> n.flash[i] == 0xFF
  }

  /** The new word continues the staged bytes. */
  lemma {:induction false} WordStaged(m: Nvm, n: Nvm, a: seq<byte>, b: byte, word: seq<byte>)
    requires |a| >= 3 && |a| + 1 <= IMAGE_MAX_SIZE && word == a[|a| - 3..] + [b]
    requires StoredAt(m, IMAGE_ADDR, a[..|a| - 3])
    requires SameBelow(m, n, IMAGE_ADDR + |a| - 3) && StoredAt(n, IMAGE_ADDR + |a| - 3, word)
    ensures StoredAt(n, IMAGE_ADDR, a + [b])
  {
    forall i | 0 <= i < |a| + 1 ensures n.flash[IMAGE_ADDR + i] == (a + [b])[i] {
      if i >= |a| - 3 {
        var j := i - (|a| - 3);
        assert n.flash[IMAGE_ADDR + |a| - 3 + j] == word[j];
      } else {
        assert a[..|a| - 3][i] == a[i];
      }
    }
  }

  /** A write address within reach lies in the erased page or at the start of the next. */
  lemma {:induction false} WriteAddrPage(last: nat, addr: nat)
    requires last % PAGE_SIZE == 0 && last <= addr <= last + PAGE_SIZE && addr < FLASH_SIZE && addr % 4 == 0
    ensures PageOf(addr) == if addr < last + PAGE_SIZE then last else addr
    ensures PageOf(addr) < FLASH_SIZE && addr + 4 <= PageOf(addr) + PAGE_SIZE
  {
    if addr < last + PAGE_SIZE {
      PageIs(last, addr);
      WordInPage(last, addr);
    } else {
      PageIs(addr, addr);
    }
  }

  lemma {:induction false} WordInPage(page: nat, addr: nat)
    requires page % PAGE_SIZE == 0 && addr % 4 == 0 && page <= addr < page + PAGE_SIZE
    ensures addr + 4 <= page + PAGE_SIZE
  {
    assert page == 4 * (page / PAGE_SIZE * (PAGE_SIZE / 4));
  }

  predicate PageStart(addr: nat) { addr % PAGE_SIZE == 0 }

  predicate WordStart(addr: nat) { addr % 4 == 0 }

  /** Programming a word into cells known to be erased. */
  lemma {:induction false} PutWord(r: Ram, m: Nvm, word: seq<byte>)
    requires |word| == 4 && WordStart(r.writeAddr) && r.writeAddr < FLASH_SIZE
    requires PageStart(r.lastErased) && r.lastErased <= r.writeAddr <= r.lastErased + PAGE_SIZE
    requires r.lastErased < FLASH_SIZE
    requires ErasedCells(m, r.writeAddr, r.lastErased + PAGE_SIZE)
    ensures
      var page := PageOf(r.writeAddr);
      var erase := if page > r.lastErased then [Erase(page)] else [];
      var last := if page > r.lastErased then page else r.lastErased;
      var n := ApplyAll(m, erase + [Program(r.writeAddr, word)]);
      && PageStart(last) && last <= r.writeAddr && r.writeAddr + 4 <= last + PAGE_SIZE && last < FLASH_SIZE
      && n.flag == m.flag
      && SameBelow(m, n, r.writeAddr) && StoredAt(n, r.writeAddr, word)
      && ErasedCells(n, r.writeAddr + 4, last + PAGE_SIZE)
  {
    WriteAddrPage(r.lastErased, r.writeAddr);
    hide PageOf;
    var page := PageOf(r.writeAddr);
    var op := Program(r.writeAddr, word);
    if page > r.lastErased {
      PageEnd(page);
      var m1 := Apply(m, Erase(page));
      assert ApplyAll(m1, [op]) == Apply(m1, op);
      assert ([Erase(page)] + [op])[1..] == [op];
      ProgramWord(m1, r.writeAddr, word);
    } else {
      assert [] + [op] == [op];
      assert ApplyAll(m, [op]) == Apply(m, op);
      ProgramWord(m, r.writeAddr, word);
    }
  }

  /** Flash is a whole number of pages. */
  lemma {:induction false} PageEnd(page: nat)
    requires page % PAGE_SIZE == 0 && page < FLASH_SIZE
    ensures page + PAGE_SIZE <= FLASH_SIZE
  {
    AlignedGap(page, FLASH_SIZE);
  }

  lemma {:induction false} ProgramWord(m: Nvm, addr: nat, word: seq<byte>)
    requires |word| == 4 && addr + 4 <= FLASH_SIZE
    requires forall i :: addr <= i < addr + 4 ==> m.flash[i] == 0xFF
    ensures forall i :: 0 <= i < 4 ==> Apply(m, Program(addr, word)).flash[addr + i] == word[i]
  {
    forall i | 0 <= i < 4 ensures Apply(m, Program(addr, word)).flash[addr + i] == word[i] {
      ProgramErased(word[i]);
    }
  }

  lemma {:induction false} PutByteOverflows(r: Ram, m: Nvm, a: seq<byte>, b: byte)
    requires Staging(r, m, a) && |a| + 1 >= OVERFLOW
    ensures PutByte(r, b).0.abort && PutByte(r, b).1 == [] && PutByte(r, b).0.nextSeq == r.nextSeq
  {
  }

  lemma {:induction false} NotFull(r: Ram, m: Nvm, a: seq<byte>)
    requires Staging(r, m, a)
    ensures !r.abort && |a| < OVERFLOW
  {
  }

  lemma {:induction false} PutBytesMore(r: Ram, d: seq<byte>)
    requires d != [] && !r.abort
    ensures
      var (r1, ops1) := PutByte(r, d[0]);
      && PutBytes(r, d) == (PutBytes(r1, d[1..]).0, ops1 + PutBytes(r1, d[1..]).1)
      && (r1.abort ==> PutBytes(r, d) == (r1, ops1))
  {
    hide PutByte;
    var ops1 := PutByte(r, d[0]).1;
    assert ops1 + [] == ops1;
  }

  lemma {:induction false} PutBytesNone(r: Ram, m: Nvm, a: seq<byte>)
    ensures PutBytes(r, []) == (r, []) && ApplyAll(m, []) == m && a + [] == a
  {
  }

  lemma {:induction false} AppendOne(a: seq<byte>, d: seq<byte>)
    requires d != []
    ensures a + [d[0]] + d[1..] == a + d
  {
  }

  /** The decode loop stages every byte, or aborts exactly when the region overflows. */
  lemma {:induction false} PutBytesStages(r: Ram, m: Nvm, a: seq<byte>, d: seq<byte>)
    requires Staging(r, m, a)
    ensures PutBytes(r, d).0.nextSeq == r.nextSeq
    ensures PutBytes(r, d).0.abort <==> |a| + |d| >= OVERFLOW
    ensures |a| + |d| < OVERFLOW ==> Staging(PutBytes(r, d).0, ApplyAll(m, PutBytes(r, d).1), a + d)
    decreases |d|
  {
    NotFull(r, m, a);
    if d == [] {
      PutBytesNone(r, m, a);
    } else {
      PutBytesMore(r, d);
      hide *;
      var (r1, ops1) := PutByte(r, d[0]);
      var m1 := ApplyAll(m, ops1);
      if |a| + 1 < OVERFLOW {
        PutByteFits(r, m, a, d[0]);
        PutBytesStages(r1, m1, a + [d[0]], d[1..]);
        ApplyAllConcat(m, ops1, PutBytes(r1, d[1..]).1);
        AppendOne(a, d);
      } else {
        PutByteOverflows(r, m, a, d[0]);
      }
    }
  }

  lemma {:induction false} BeginStages(m: Nvm)
    ensures Staging(Begun(), ApplyAll(m, BEGIN_OPS), [])
    ensures forall i :: HEADER_ADDR <= i < IMAGE_ADDR ==> ApplyAll(m, BEGIN_OPS).flash[i] == 0xFF
    ensures forall i :: 0 <= i < HEADER_ADDR ==> ApplyAll(m, BEGIN_OPS).flash[i] == m.flash[i]
    ensures ApplyAll(m, BEGIN_OPS).flag == m.flag
  {
    var m1 := Apply(m, Erase(HEADER_ADDR));
    assert BEGIN_OPS[1..] == [Erase(IMAGE_ADDR)];
    assert ApplyAll(m1, [Erase(IMAGE_ADDR)]) == Apply(m1, Erase(IMAGE_ADDR));
  }

  // ---------------------------------------------------------------------------
  // The simulation
  // ---------------------------------------------------------------------------

  ghost predicate Simulates(s: Sys, i: Ideal) {
    match i
    case Waiting => !s.ram.abort && s.ram.nextSeq == 0
    case Aborted => s.ram.abort
    case Receiving(next, bytes) => next == s.ram.nextSeq && next >= 0 && Staging(s.ram, s.nvm, bytes)
  }

  lemma {:induction false} GuardedSimulates(r: Ram, m: Nvm, c: Request, next: int, bytes: seq<byte>)
    requires c.Chunk? && !c.last
    requires Simulates(Sys(r, m), Receiving(next, bytes))
    ensures
      var o := Guarded(r, m, c);
      var i := if c.seqNum < next then Receiving(next, bytes)
               else if c.seqNum > next || |bytes| + |DecodeHex(c.data)| >= OVERFLOW then Aborted
               else Receiving(next + 1, bytes + DecodeHex(c.data));
      Simulates(Sys(o.ram, ApplyAll(m, o.ops)), i)
  {
    if c.seqNum == next {
      PutBytesStages(r, m, bytes, DecodeHex(c.data));
    }
  }

  /** A chunk 0 starts over from any state. */
  lemma {:induction false} RestartSimulates(s: Sys, c: Request)
    requires c.Chunk? && c.seqNum == 0 && !c.last
    ensures Simulates(Step(s, c), IdealStep(Receiving(0, []), c))
  {
    BeginStages(s.nvm);
    hide Staging, ApplyAll, Guarded, DecodeHex;
    var m := ApplyAll(s.nvm, BEGIN_OPS);
    GuardedSimulates(Begun(), m, c, 0, []);
    ApplyAllConcat(s.nvm, BEGIN_OPS, Guarded(Begun(), m, c).ops);
  }

  lemma {:induction false} StepSimulates(s: Sys, i: Ideal, c: Request)
    requires Simulates(s, i)
    requires c.Chunk? ==> !c.last
    ensures Simulates(Step(s, c), IdealStep(i, c))
  {
    if c.Chunk? && c.seqNum == 0 {
      hide Simulates, Step;
      RestartSimulates(s, c);
    } else if c.Chunk? && i.Receiving? {
      hide Staging, ApplyAll, Guarded, DecodeHex;
      GuardedSimulates(s.ram, s.nvm, c, i.next, i.bytes);
    } else {
      IdleSimulates(s, i, c);
    }
  }

  lemma {:induction false} IdleSimulates(s: Sys, i: Ideal, c: Request)
    requires Simulates(s, i) && (c.Malformed? || (c.seqNum != 0 && !i.Receiving?))
    ensures Simulates(Step(s, c), IdealStep(i, c))
  {
    hide Staging, ApplyChunk, DecodeHex;
    assert ApplyAll(s.nvm, []) == s.nvm;
  }

  /**
   For every run of requests before the first last=1 chunk, in any order and with any gaps or
   repeats: the staged words followed by the alignment buffer are exactly the bytes of the
   chunks the ideal receiver accepted since the last chunk 0.
   */
  lemma {:induction false} RunSimulates(s: Sys, i: Ideal, reqs: seq<Request>)
    requires Simulates(s, i)
    requires forall c :: c in reqs && c.Chunk? ==> !c.last
    ensures Simulates(Run(s, reqs), IdealRun(i, reqs))
    decreases |reqs|
  {
    if reqs != [] {
      StepSimulates(s, i, reqs[0]);
      RunSimulates(Step(s, reqs[0]), IdealStep(i, reqs[0]), reqs[1..]);
    }
  }

  lemma {:induction false} PowerUpSimulates(m: Nvm, reqs: seq<Request>)
    requires forall c :: c in reqs && c.Chunk? ==> !c.last
    ensures Simulates(Run(Sys(POWER_UP, m), reqs), IdealRun(Waiting, reqs))
  {
    RunSimulates(Sys(POWER_UP, m), Waiting, reqs);
  }

  // ---------------------------------------------------------------------------
  // What staging leaves alone
  // ---------------------------------------------------------------------------

  /** The memory outside [lo, hi) and the flag are the same in m and n. */
  ghost predicate SameOutside(m: Nvm, n: Nvm, lo: int, hi: int) {
    && n.flag == m.flag && n.flagSize == m.flagSize
    && forall i :: 0 <= i < FLASH_SIZE && !(lo <= i < hi) ==> n.flash[i] == m.flash[i]
  }

  lemma {:induction false} PutByteFrame(r: Ram, m: Nvm, a: seq<byte>, b: byte)
    requires Staging(r, m, a)
    ensures r.lastErased <= PutByte(r, b).0.lastErased
    ensures SameOutside(m, ApplyAll(m, PutByte(r, b).1), IMAGE_ADDR, PutByte(r, b).0.lastErased + PAGE_SIZE)
  {
    if |a| % 4 == 3 && |a| + 1 < OVERFLOW {
      assert r.writeAddr < FLASH_SIZE;
      PutWord(r, m, r.align + [b]);
      var page := PageOf(r.writeAddr);
      var op := Program(r.writeAddr, r.align + [b]);
      if page > r.lastErased {
        var m1 := Apply(m, Erase(page));
        assert ([Erase(page)] + [op])[1..] == [op];
        assert ApplyAll(m1, [op]) == Apply(m1, op);
      } else {
        assert [] + [op] == [op];
        assert ApplyAll(m, [op]) == Apply(m, op);
      }
    }
  }

  lemma {:induction false} PutBytesFrame(r: Ram, m: Nvm, a: seq<byte>, d: seq<byte>)
    requires Staging(r, m, a)
    ensures r.lastErased <= PutBytes(r, d).0.lastErased
    ensures SameOutside(m, ApplyAll(m, PutBytes(r, d).1), IMAGE_ADDR, PutBytes(r, d).0.lastErased + PAGE_SIZE)
    decreases |d|
  {
    if d != [] {
      var (r1, ops1) := PutByte(r, d[0]);
      PutByteFrame(r, m, a, d[0]);
      ApplyAllConcat(m, ops1, PutBytes(r1, d[1..]).1);
      if |a| + 1 < OVERFLOW {
        PutByteFits(r, m, a, d[0]);
        PutBytesFrame(r1, ApplyAll(m, ops1), a + [d[0]], d[1..]);
      } else {
        PutByteOverflows(r, m, a, d[0]);
      }
    }
  }
}
