/**
 The last chunk.  Its final flush programs a padded word without erasing the page first, so
 an image that ends one to three bytes into a fresh page lands on whatever that page held.
 The condition under which the image is committed is exact.
 */
module OtaFlush {
  import opened Common
  import opened Crc32
  import CrcBurst
  import opened Nvm
  import opened OtaUpload
  import opened OtaStaging
  import opened OtaOrdering
  import opened OtaCommit

  /** The final word lies in a page the upload has erased. */
  predicate GoodLength(n: nat) {
    n < PAGE_SIZE || n % PAGE_SIZE !in {1, 2, 3}
  }

  /** The cells under the final partial word have no zero bit where the image has a one. */
  ghost predicate TailFits(m: Nvm, image: seq<byte>)
    requires |image| <= IMAGE_MAX_SIZE
  {
    forall i :: Whole(|image|) <= i < |image| ==> m.flash[IMAGE_ADDR + i] & image[i] == image[i]
  }

  /** The memory a complete and verified upload leaves behind. */
  ghost predicate Committed(m: Nvm, image: seq<byte>) {
    && |image| <= IMAGE_MAX_SIZE
    && m.flag == PENDING_MAGIC && m.flagSize == |image|
    && m.flash[HEADER_ADDR..HEADER_ADDR + HEADER_SIZE] == Header(|image|, Crc32.Crc32(image))
    && Staged(m, |image|) == image
  }

  /** What the flush leaves in the staging region. */
  lemma {:induction false} FlushStages(r: Ram, m: Nvm, a: seq<byte>)
    requires Staging(r, m, a) && |a| <= IMAGE_MAX_SIZE
    ensures
      var (r', ops) := Flush(r);
      var n := ApplyAll(m, ops);
      && r'.size == |a| && r'.nextSeq == r.nextSeq && !r'.abort
      && SameOutside(m, n, IMAGE_ADDR, FLASH_SIZE)
      && (forall i :: 0 <= i < Whole(|a|) ==> n.flash[IMAGE_ADDR + i] == a[i])
      && (forall i :: Whole(|a|) <= i < |a| ==> n.flash[IMAGE_ADDR + i] == m.flash[IMAGE_ADDR + i] & a[i])
  {
    var (r', ops) := Flush(r);
    if r.align != [] {
      assert ops[1..] == [];
      assert ApplyAll(m, ops) == Apply(m, ops[0]);
    }
  }

  /** The padding of the final word programs no cell: whatever lies behind the image stays as it was. */
  lemma {:induction false} FlushKeepsRest(r: Ram, m: Nvm, a: seq<byte>, i: nat)
    requires Staging(r, m, a) && IMAGE_ADDR + |a| <= i < FLASH_SIZE
    ensures ApplyAll(m, Flush(r).1).flash[i] == m.flash[i]
  {
    var ops := Flush(r).1;
    if r.align != [] {
      assert ops[1..] == [];
      assert ApplyAll(m, ops) == Apply(m, ops[0]);
      AllOnesKeep(m.flash[i]);
    }
  }

  lemma {:induction false} AllOnesKeep(b: byte) ensures b & 0xFF == b {}

  /** Where the final partial word of n bytes lies. */
  lemma {:induction false} TailInErasedPage(n: nat, lastErased: nat)
    requires n % 4 != 0 && lastErased % PAGE_SIZE == 0
    requires IMAGE_ADDR <= lastErased <= IMAGE_ADDR + Whole(n) <= lastErased + PAGE_SIZE
    requires if Whole(n) == 0 then lastErased == IMAGE_ADDR else lastErased < IMAGE_ADDR + Whole(n)
    ensures GoodLength(n) ==> IMAGE_ADDR + Whole(n) + 4 <= lastErased + PAGE_SIZE
    ensures !GoodLength(n) ==> IMAGE_ADDR + Whole(n) == lastErased + PAGE_SIZE
  {
    var rest := n % PAGE_SIZE;
    var page := n - rest;
    var k := lastErased - IMAGE_ADDR;
    PageParts(n);
    WholeShift(page, rest);
    Aligned(lastErased);
    hide Whole;
    AlignedGap(k, page);
    AlignedGap(page, k);
    WholeInPage(rest);
  }

  lemma {:induction false} PageParts(n: nat)
    ensures (n - n % PAGE_SIZE) % PAGE_SIZE == 0 && (n < PAGE_SIZE ==> n % PAGE_SIZE == n)
    ensures n % 4 != 0 ==> n % PAGE_SIZE % 4 != 0
  {
    var q, r := n / PAGE_SIZE, n % PAGE_SIZE;
    assert n - r == PAGE_SIZE * q;
    assert n == 4 * (PAGE_SIZE / 4 * q) + r;
  }

  lemma {:induction false} WholeShift(page: nat, rest: nat)
    requires page % PAGE_SIZE == 0
    ensures Whole(page + rest) == page + Whole(rest)
  {
    var k := page / PAGE_SIZE * (PAGE_SIZE / 4);
    assert page == 4 * k;
    assert (4 * k + rest) / 4 == k + rest / 4;
  }

  lemma {:induction false} WholeInPage(rest: nat)
    requires rest < PAGE_SIZE
    ensures Whole(rest) + 4 <= PAGE_SIZE && (rest < 4 <==> Whole(rest) == 0)
  {
  }

  lemma {:induction false} Aligned(addr: nat)
    requires addr % PAGE_SIZE == 0 && IMAGE_ADDR <= addr
    ensures (addr - IMAGE_ADDR) % PAGE_SIZE == 0
  {
    assert addr - IMAGE_ADDR == PAGE_SIZE * (addr / PAGE_SIZE - 33);
  }

  /** Exactly when the flush turns the staging region into the bytes received. */
  lemma {:induction false} FlushExact(r: Ram, m: Nvm, a: seq<byte>)
    requires Staging(r, m, a) && |a| <= IMAGE_MAX_SIZE
    ensures Staged(ApplyAll(m, Flush(r).1), |a|) == a <==> GoodLength(|a|) || TailFits(m, a)
  {
    var n := ApplyAll(m, Flush(r).1);
    var w := Whole(|a|);
    FlushStages(r, m, a);
    if GoodLength(|a|) && |a| > w {
      TailInErasedPage(|a|, r.lastErased);
      assert r.writeAddr + 4 <= r.lastErased + PAGE_SIZE;
      forall i | w <= i < |a| ensures m.flash[IMAGE_ADDR + i] & a[i] == a[i] {
        assert m.flash[IMAGE_ADDR + i] == 0xFF;
        ProgramErased(a[i]);
      }
      assert TailFits(m, a);
    }
    var s := Staged(n, |a|);
    assert forall i :: 0 <= i < |a| ==> s[i] == n.flash[IMAGE_ADDR + i];
    if TailFits(m, a) {
      assert s == a;
    }
  }

  /** The staged bytes differ from the received ones in at most the three bytes of the final word. */
  lemma {:induction false} WrongTailIsNoticed(m: Nvm, a: seq<byte>)
    requires |a| <= IMAGE_MAX_SIZE
    requires forall i :: 0 <= i < Whole(|a|) ==> m.flash[IMAGE_ADDR + i] == a[i]
    requires Staged(m, |a|) != a
    ensures Crc32.Crc32(Staged(m, |a|)) != Crc32.Crc32(a)
  {
    hide Crc32.Crc32;
    CrcBurst.DamageInRange(Staged(m, |a|), a, Whole(|a|));
  }

  /** The end of a last chunk that completes the image a. */
  lemma {:induction false} ConcludeExact(r: Ram, m: Nvm, a: seq<byte>)
    requires Staging(r, m, a) && |a| <= IMAGE_MAX_SIZE && HeaderErased(m)
    ensures
      var o := Conclude(r, m, Some(Totals(|a|, Crc32.Crc32(a))));
      var k := ApplyAll(m, o.ops);
      && o.ram.nextSeq == r.nextSeq && !o.ram.abort
      && (forall i :: 0 <= i < HEADER_ADDR ==> k.flash[i] == m.flash[i])
      && if GoodLength(|a|) || TailFits(m, a) then Committed(k, a) && o.reply == UpdateOk
         else k.flag == m.flag && o.reply == ToolsPage
  {
    var (r', ops) := Flush(r);
    FlushStages(r, m, a);
    FlushExact(r, m, a);
    hide Flush, Staging, TailFits, GoodLength, Crc32.Crc32, Finish, Committed;
    var n := ApplyAll(m, ops);
    ApplyAllConcat(m, ops, Finish(r', n, Some(Totals(|a|, Crc32.Crc32(a)))).0);
    hide ApplyAll;
    FinishExact(r', n, a);
  }

  lemma {:induction false} FinishOf(r: Ram, n: Nvm, t: Totals)
    requires r.size == t.len <= IMAGE_MAX_SIZE && Crc32.Crc32(Staged(n, t.len)) == t.crc
    ensures Finish(r, n, Some(t)) ==
      ([Program(HEADER_ADDR, Header(t.len, t.crc)), SetFlag(PENDING_MAGIC, t.len)], UpdateOk)
  {
    hide Crc32.Crc32, Header;
  }

  /** The check after the flush, on whatever the flush left behind. */
  lemma {:induction false} FinishExact(r: Ram, n: Nvm, a: seq<byte>)
    requires r.size == |a| <= IMAGE_MAX_SIZE && HeaderErased(n)
    requires forall i :: 0 <= i < Whole(|a|) ==> n.flash[IMAGE_ADDR + i] == a[i]
    ensures
      var (commit, reply) := Finish(r, n, Some(Totals(|a|, Crc32.Crc32(a))));
      var k := ApplyAll(n, commit);
      && (forall i :: 0 <= i < HEADER_ADDR ==> k.flash[i] == n.flash[i])
      && if Staged(n, |a|) == a then Committed(k, a) && reply == UpdateOk
         else k.flag == n.flag && reply == ToolsPage
  {
    var t := Totals(|a|, Crc32.Crc32(a));
    if Staged(n, |a|) == a {
      hide Crc32.Crc32, Header, ApplyAll, Whole, HeaderErased;
      FinishOf(r, n, t);
      hide Finish;
      CommitSafe(n, t, n);
      CommitKeepsImage(n, t);
    } else {
      WrongTailIsNoticed(n, a);
      hide Crc32.Crc32, Whole;
      assert ApplyAll(n, []) == n;
    }
  }

  lemma {:induction false} CommitKeepsImage(m: Nvm, t: Totals)
    requires t.len <= IMAGE_MAX_SIZE
    ensures
      var k := ApplyAll(m, [Program(HEADER_ADDR, Header(t.len, t.crc)), SetFlag(PENDING_MAGIC, t.len)]);
      && Staged(k, t.len) == Staged(m, t.len) && k.flagSize == t.len
      && forall i :: 0 <= i < HEADER_ADDR ==> k.flash[i] == m.flash[i]
  {
    WriteElsewhere(m, Header(t.len, t.crc), t.len);
  }

  lemma {:induction false} WriteElsewhere(m: Nvm, h: seq<byte>, len: nat)
    requires |h| == HEADER_SIZE && len <= IMAGE_MAX_SIZE
    ensures
      var k := ApplyAll(m, [Program(HEADER_ADDR, h), SetFlag(PENDING_MAGIC, len)]);
      && Staged(k, len) == Staged(m, len) && k.flagSize == len
      && forall i :: 0 <= i < HEADER_ADDR ==> k.flash[i] == m.flash[i]
  {
    ApplyTwo(m, Program(HEADER_ADDR, h), SetFlag(PENDING_MAGIC, len));
    SameRange(m, Apply(m, Program(HEADER_ADDR, h)), IMAGE_ADDR, IMAGE_ADDR + len);
  }

  /** In the family of bad lengths the upload really can be refused: one zero cell is enough. */
  lemma {:induction false} StaleCellRefusesImage(m: Nvm, image: seq<byte>)
    requires |image| <= IMAGE_MAX_SIZE && !GoodLength(|image|)
    requires var w := Whole(|image|); image[w] != 0 && m.flash[IMAGE_ADDR + w] == 0
    ensures !TailFits(m, image)
  {
    var w := Whole(|image|);
    ZeroCell(image[w]);
    assert Whole(|image|) <= w < |image|;
  }

  lemma {:induction false} ZeroCell(b: byte) ensures 0 & b == 0 {}

  /** The receiver after the flush of the image a. */
  ghost predicate Flushed(r: Ram, a: seq<byte>) {
    && r.size == |a| && r.align == [] && !r.abort && r.lastErased % PAGE_SIZE == 0
    && IMAGE_ADDR + |a| <= r.writeAddr
    && (!GoodLength(|a|) ==>
      r.lastErased + PAGE_SIZE == IMAGE_ADDR + Whole(|a|) && r.writeAddr == IMAGE_ADDR + Whole(|a|) + 4)
  }

  /** A flush leaves the image endangered if and only if its length is bad. */
  lemma {:induction false} EndangeredExact(r: Ram, m: Nvm, a: seq<byte>)
    requires Staging(r, m, a) && |a| <= IMAGE_MAX_SIZE
    ensures Flushed(Flush(r).0, a)
    ensures Endangered(Flush(r).0, Totals(|a|, Crc32.Crc32(a))) <==> !GoodLength(|a|)
  {
    PageAfterFlush(|a|, r.lastErased);
    FlushedRam(r, m, a);
    hide Crc32.Crc32, PageOf, Whole, GoodLength, Flush, Staging, FlushedAddr;
  }

  lemma {:induction false} FlushedRam(r: Ram, m: Nvm, a: seq<byte>)
    requires Staging(r, m, a)
    ensures Flush(r).0 == r.(align := [], writeAddr := FlushedAddr(|a|), size := |a|) && !r.abort
    ensures |a| != Whole(|a|) ==> FlushedAddr(|a|) == IMAGE_ADDR + Whole(|a|) + 4
  {
    hide Whole;
    assert |r.align| == |a| - Whole(|a|);
  }

  /** The write address after the flush of n bytes. */
  function FlushedAddr(n: nat): nat {
    IMAGE_ADDR + Whole(n) + (if n == Whole(n) then 0 else 4)
  }

  lemma {:induction false} PageAfterFlush(n: nat, last: nat)
    requires last % PAGE_SIZE == 0
    requires IMAGE_ADDR <= last <= IMAGE_ADDR + Whole(n) <= last + PAGE_SIZE
    requires if Whole(n) == 0 then last == IMAGE_ADDR else last < IMAGE_ADDR + Whole(n)
    ensures last < PageOf(FlushedAddr(n)) < IMAGE_ADDR + n <==> !GoodLength(n)
    ensures !GoodLength(n) ==> n != Whole(n) && last + PAGE_SIZE == IMAGE_ADDR + Whole(n)
    ensures IMAGE_ADDR + n <= FlushedAddr(n)
  {
    if n == Whole(n) {
      MultipleOfFour(n);
      AlignedGap(last, PageOf(FlushedAddr(n)));
    } else {
      TailInErasedPage(n, last);
      hide Whole;
      if GoodLength(n) {
        AlignedGap(last, PageOf(FlushedAddr(n)));
      } else {
        PageIs(last + PAGE_SIZE, FlushedAddr(n));
      }
    }
  }

  lemma {:induction false} MultipleOfFour(n: nat)
    requires n % 4 == 0
    ensures GoodLength(n)
  {
    assert n % PAGE_SIZE % 4 == n % 4 by { assert n == PAGE_SIZE * (n / PAGE_SIZE) + n % PAGE_SIZE; }
  }
}
