/**
 The update protocol from the first chunk to the new firmware.
 */
module OtaEndToEnd {
  import opened Common
  import opened Crc32
  import opened Nvm
  import opened OtaUpload
  import opened OtaStaging
  import opened OtaOrdering
  import opened OtaCommit
  import opened OtaFlush
  import opened OtaBoot

  // ---------------------------------------------------------------------------
  // What a client sends
  // ---------------------------------------------------------------------------

  /** The bytes carried by the first p chunks. */
  function Prefix(cs: seq<Request>, p: nat): seq<byte>
    requires p <= |cs| && forall c :: c in cs ==> c.Chunk?
  {
    if p == 0 then [] else Prefix(cs, p - 1) + DecodeHex(cs[p - 1].data)
  }

  /** cs is a split of the image into numbered chunks, the last one carrying the totals. */
  ghost predicate Splits(cs: seq<Request>, image: seq<byte>) {
    && cs != []
    && (forall c :: c in cs ==> c.Chunk?)
    && (forall i :: 0 <= i < |cs| ==> cs[i].seqNum == i && (cs[i].last <==> i == |cs| - 1))
    && Prefix(cs, |cs|) == image
    && cs[|cs| - 1].totals == Some(Totals(|image|, Crc32.Crc32(image)))
  }

  /**
   Deliveries of chunk numbers when p chunks have been applied: each one is the next chunk or a
   repeat of an earlier one, except that chunk 0 is repeated only while it is the latest.
   */
  predicate InOrder(p: nat, order: seq<nat>, n: nat): (ok: bool)
    ensures ok ==> forall k :: 0 <= k < |order| ==> order[k] < n
    decreases |order|
  {
    if order == [] then p == n
    else
      var j := order[0];
      && j <= p && j < n && (j == 0 ==> p <= 1)
      && InOrder(if j == p then p + 1 else p, order[1..], n)
  }

  function Deliver(cs: seq<Request>, order: seq<nat>): seq<Request>
    requires forall k :: 0 <= k < |order| ==> order[k] < |cs|
  {
    seq(|order|, k requires 0 <= k < |order| => cs[order[k]])
  }

  lemma {:induction false} PrefixGrows(cs: seq<Request>, p: nat, q: nat)
    requires p <= q <= |cs| && forall c :: c in cs ==> c.Chunk?
    ensures |Prefix(cs, p)| <= |Prefix(cs, q)|
  {
    if p < q { PrefixGrows(cs, p, q - 1); }
  }

  // ---------------------------------------------------------------------------
  // The upload
  // ---------------------------------------------------------------------------

  /** The receiver after p of the n chunks, wherever it started from. */
  ghost predicate Progress(s: Sys, m0: Nvm, cs: seq<Request>, image: seq<byte>, p: nat)
    requires Splits(cs, image)
  {
    && p <= |cs|
    && (p > 0 ==> s.ram.nextSeq == p && !s.ram.abort)
    && (0 < p < |cs| ==> Staging(s.ram, s.nvm, Prefix(cs, p)) && HeaderErased(s.nvm))
    && (p == |cs| ==> Committed(s.nvm, image))
    && (forall i :: 0 <= i < HEADER_ADDR ==> s.nvm.flash[i] == m0.flash[i])
  }

  /** A last chunk that completes the image, on a receiver that holds the bytes before it. */
  lemma {:induction false} LastChunk(r: Ram, m: Nvm, a: seq<byte>, c: Request)
    requires Staging(r, m, a) && HeaderErased(m) && c.Chunk? && c.last
    requires
      var image := a + DecodeHex(c.data);
      |image| <= IMAGE_MAX_SIZE && c.totals == Some(Totals(|image|, Crc32.Crc32(image)))
    ensures
      var image := a + DecodeHex(c.data);
      var o := ApplyChunk(r, m, c);
      var k := ApplyAll(m, o.ops);
      && o.ram.nextSeq == r.nextSeq + 1 && !o.ram.abort
      && (forall i :: 0 <= i < HEADER_ADDR ==> k.flash[i] == m.flash[i])
      && if GoodLength(|image|) || TailFits(m, image) then Committed(k, image) && o.reply == UpdateOk
         else k.flag == m.flag && o.reply == ToolsPage
  {
    hide Staging, PutBytes, Conclude, ApplyAll, Committed, TailFits, GoodLength, Crc32.Crc32, HeaderErased, DecodeHex;
    var image := a + DecodeHex(c.data);
    var (r1, ops) := PutBytes(r, DecodeHex(c.data));
    var m1 := ApplyAll(m, ops);
    var r2 := r1.(nextSeq := r1.nextSeq + 1);
    DecodedChunk(r, m, a, c);
    ConcludeExact(r2, m1, image);
    ApplyAllConcat(m, ops, Conclude(r2, m1, c.totals).ops);
  }

  lemma {:induction false} DecodedChunk(r: Ram, m: Nvm, a: seq<byte>, c: Request)
    requires Staging(r, m, a) && HeaderErased(m) && c.Chunk?
    requires |a| + |DecodeHex(c.data)| <= IMAGE_MAX_SIZE
    ensures
      var image := a + DecodeHex(c.data);
      var (r1, ops1) := PutBytes(r, DecodeHex(c.data));
      var m1 := ApplyAll(m, ops1);
      && !r1.abort && r1.nextSeq == r.nextSeq
      && Staging(r1.(nextSeq := r1.nextSeq + 1), m1, image) && HeaderErased(m1) && m1.flag == m.flag
      && (forall i :: 0 <= i < HEADER_ADDR ==> m1.flash[i] == m.flash[i])
      && (!GoodLength(|image|) ==> (TailFits(m1, image) <==> TailFits(m, image)))
  {
    var d := DecodeHex(c.data);
    var (r1, ops1) := PutBytes(r, d);
    PutBytesStages(r, m, a, d);
    PutBytesFrame(r, m, a, d);
    if !GoodLength(|a + d|) { TailUntouched(r1, m, ApplyAll(m, ops1), a + d); }
  }

  /** In a page the upload never erased, the cells are still those from before the chunk. */
  lemma {:induction false} TailUntouched(r: Ram, m: Nvm, n: Nvm, image: seq<byte>)
    requires Staging(r, n, image) && |image| <= IMAGE_MAX_SIZE && !GoodLength(|image|)
    requires SameOutside(m, n, IMAGE_ADDR, r.lastErased + PAGE_SIZE)
    ensures TailFits(n, image) <==> TailFits(m, image)
  {
    TailInErasedPage(|image|, r.lastErased);
    forall i | r.writeAddr <= i < FLASH_SIZE ensures n.flash[i] == m.flash[i] {
    }
  }

  /** What a split says about its chunk p. */
  lemma {:induction false} ChunkOf(cs: seq<Request>, image: seq<byte>, p: nat)
    requires Splits(cs, image) && p < |cs|
    ensures
      var c := cs[p];
      && c.Chunk? && c.seqNum == p && (c.last <==> p + 1 == |cs|)
      && Prefix(cs, p) + DecodeHex(c.data) == Prefix(cs, p + 1) && |Prefix(cs, p + 1)| <= |image|
      && (c.last ==> Prefix(cs, p + 1) == image && c.totals == Some(Totals(|image|, Crc32.Crc32(image))))
  {
    hide DecodeHex, Crc32.Crc32;
    PrefixGrows(cs, p + 1, |cs|);
  }

  /** The next chunk, on a receiver that holds the bytes of the chunks before it. */
  lemma {:induction false} NextChunk(e: Sys, m0: Nvm, cs: seq<Request>, image: seq<byte>, p: nat)
    requires Splits(cs, image) && p < |cs|
    requires 0 < |image| <= IMAGE_MAX_SIZE && GoodLength(|image|)
    requires e.ram.nextSeq == p && Staging(e.ram, e.nvm, Prefix(cs, p)) && HeaderErased(e.nvm)
    requires forall i :: 0 <= i < HEADER_ADDR ==> e.nvm.flash[i] == m0.flash[i]
    ensures
      var o := ApplyChunk(e.ram, e.nvm, cs[p]);
      Progress(Sys(o.ram, ApplyAll(e.nvm, o.ops)), m0, cs, image, p + 1)
  {
    ChunkOf(cs, image, p);
    hide ApplyChunk, ApplyAll, Staging, HeaderErased, Committed, TailFits, Crc32.Crc32, DecodeHex, Prefix, GoodLength;
    var c := cs[p];
    if c.last {
      LastChunk(e.ram, e.nvm, Prefix(cs, p), c);
    } else {
      MiddleChunk(e.ram, e.nvm, Prefix(cs, p), c);
    }
  }

  lemma {:induction false} MiddleChunk(r: Ram, m: Nvm, a: seq<byte>, c: Request)
    requires Staging(r, m, a) && HeaderErased(m) && c.Chunk? && !c.last
    requires |a| + |DecodeHex(c.data)| <= IMAGE_MAX_SIZE
    ensures
      var o := ApplyChunk(r, m, c);
      var k := ApplyAll(m, o.ops);
      && o.ram.nextSeq == r.nextSeq + 1 && !o.ram.abort
      && Staging(o.ram, k, a + DecodeHex(c.data)) && HeaderErased(k)
      && (forall i :: 0 <= i < HEADER_ADDR ==> k.flash[i] == m.flash[i])
  {
    hide PutBytes, Conclude, ApplyAll;
    DecodedChunk(r, m, a, c);
  }

  /** A chunk 0, the first one or a repeat of it: the upload starts over. */
  lemma {:induction false} DeliverFirst(s: Sys, m0: Nvm, cs: seq<Request>, image: seq<byte>)
    requires Splits(cs, image)
    requires forall i :: 0 <= i < HEADER_ADDR ==> s.nvm.flash[i] == m0.flash[i]
    requires 0 < |image| <= IMAGE_MAX_SIZE && GoodLength(|image|)
    ensures Progress(Step(s, cs[0]), m0, cs, image, 1)
  {
    BeginStages(s.nvm);
    ChunkOf(cs, image, 0);
    assert Prefix(cs, 0) == [];
    hide ApplyChunk, ApplyAll, Staging, Splits, Prefix, Progress, DecodeHex, Crc32.Crc32, Step, Handle;
    AppliedStep(s, cs[0]);
    NextChunk(Sys(Begun(), ApplyAll(s.nvm, BEGIN_OPS)), m0, cs, image, 0);
  }

  lemma {:induction false} DeliverOne(s: Sys, m0: Nvm, cs: seq<Request>, image: seq<byte>, p: nat, j: nat)
    requires Splits(cs, image) && Progress(s, m0, cs, image, p)
    requires 0 < |image| <= IMAGE_MAX_SIZE && GoodLength(|image|)
    requires j <= p && j < |cs| && (j == 0 ==> p <= 1)
    ensures Progress(Step(s, cs[j]), m0, cs, image, if j == p then p + 1 else p)
  {
    ChunkOf(cs, image, j);
    if j == 0 {
      hide Progress, Step;
      DeliverFirst(s, m0, cs, image);
    } else if j == p {
      hide ApplyChunk, ApplyAll, Staging, Prefix, DecodeHex, Crc32.Crc32, Step, Handle, Committed;
      AppliedStep(s, cs[j]);
      NextChunk(s, m0, cs, image, p);
    } else {
      NotApplied(s, cs[j]);
    }
  }

  lemma {:induction false} DeliverAll(s: Sys, m0: Nvm, cs: seq<Request>, image: seq<byte>, p: nat, order: seq<nat>)
    requires Splits(cs, image) && Progress(s, m0, cs, image, p)
    requires 0 < |image| <= IMAGE_MAX_SIZE && GoodLength(|image|)
    requires InOrder(p, order, |cs|)
    ensures Progress(Run(s, Deliver(cs, order)), m0, cs, image, |cs|)
    decreases |order|
  {
    hide Progress, Splits, Step;
    if order != [] {
      var q := if order[0] == p then p + 1 else p;
      DeliverOne(s, m0, cs, image, p, order[0]);
      assert Deliver(cs, order)[1..] == Deliver(cs, order[1..]);
      DeliverAll(Step(s, cs[order[0]]), m0, cs, image, q, order[1..]);
    }
  }

  /**
   A complete upload, with any split into chunks and any schedule of repeats, started from any
   receiver state and any memory contents, commits exactly the image and leaves the running
   firmware alone.
   */
  lemma {:induction false} UploadCommits(s: Sys, cs: seq<Request>, image: seq<byte>, order: seq<nat>)
    requires Splits(cs, image) && 0 < |image| <= IMAGE_MAX_SIZE && GoodLength(|image|)
    requires InOrder(0, order, |cs|)
    ensures Committed(Run(s, Deliver(cs, order)).nvm, image)
    ensures App(Run(s, Deliver(cs, order)).nvm, APP_SIZE) == App(s.nvm, APP_SIZE)
  {
    NoProgress(s, cs, image);
    hide Progress, Splits, InOrder, Run, Deliver, GoodLength;
    DeliverAll(s, s.nvm, cs, image, 0, order);
    AllDelivered(Run(s, Deliver(cs, order)), s.nvm, cs, image);
  }

  lemma {:induction false} NoProgress(s: Sys, cs: seq<Request>, image: seq<byte>)
    requires Splits(cs, image)
    ensures Progress(s, s.nvm, cs, image, 0)
  {
  }

  lemma {:induction false} AllDelivered(s: Sys, m0: Nvm, cs: seq<Request>, image: seq<byte>)
    requires Splits(cs, image) && Progress(s, m0, cs, image, |cs|)
    ensures Committed(s.nvm, image) && App(s.nvm, APP_SIZE) == App(m0, APP_SIZE)
  {
    hide Splits, Committed;
    SameRange(m0, s.nvm, APP_ADDR, APP_ADDR + APP_SIZE);
  }

  /**
   The exact condition for the last chunk.  With every byte received and the right totals, the
   image is committed if and only if its length is good or the cells under its final word
   happen to hold no zero bit that the image needs as a one.
   */
  lemma {:induction false} LastChunkExact(s: Sys, a: seq<byte>, c: Request)
    requires Staging(s.ram, s.nvm, a) && HeaderErased(s.nvm) && s.nvm.flag != PENDING_MAGIC
    requires c.Chunk? && c.last && c.seqNum == s.ram.nextSeq != 0
    requires
      var image := a + DecodeHex(c.data);
      |image| <= IMAGE_MAX_SIZE && c.totals == Some(Totals(|image|, Crc32.Crc32(image)))
    ensures
      var image := a + DecodeHex(c.data);
      Committed(Step(s, c).nvm, image) <==> GoodLength(|image|) || TailFits(s.nvm, image)
  {
    AppliedStep(s, c);
    LastChunk(s.ram, s.nvm, a, c);
  }

  // ---------------------------------------------------------------------------
  // From upload to new firmware
  // ---------------------------------------------------------------------------

  /** A committed image passes the boot checks. */
  lemma {:induction false} CommittedIsValidated(m: Nvm, image: seq<byte>)
    requires Committed(m, image) && image != []
    ensures HeaderMagic(m) == HDR_MAGIC && HeaderLen(m) == |image| && HeaderCrc(m) == Crc32.Crc32(image)
    ensures Validated(m)
  {
    hide Crc32.Crc32, Header, HeaderMagic, HeaderLen, HeaderCrc, Decide;
    HeaderReadsBack(m, Totals(|image|, Crc32.Crc32(image)));
    PassesChecks(m, image);
  }

  lemma {:induction false} PassesChecks(m: Nvm, image: seq<byte>)
    requires m.flag == PENDING_MAGIC && 0 < |image| <= IMAGE_MAX_SIZE && Staged(m, |image|) == image
    requires HeaderMagic(m) == HDR_MAGIC && HeaderLen(m) == |image| && HeaderCrc(m) == Crc32.Crc32(image)
    ensures Validated(m)
  {
    hide Crc32.Crc32, HeaderMagic, HeaderLen, HeaderCrc;
  }

  /** The boot code reads back what the commit wrote. */
  lemma {:induction false} HeaderReadsBack(m: Nvm, t: Totals)
    requires Declared(m, t)
    ensures HeaderMagic(m) == HDR_MAGIC && HeaderLen(m) == t.len && HeaderCrc(m) == t.crc
  {
    HeaderFields(m, t.len, t.crc);
    hide WordBytes, BytesWord, NatBytes, BytesNat, Header;
    WordBytesRoundTrip(HDR_MAGIC);
    NatBytesRoundTrip(t.len);
    WordBytesRoundTrip(t.crc);
  }

  lemma {:induction false} HeaderFields(m: Nvm, len: nat, crc: Word)
    requires len < 0x1_0000_0000
    requires m.flash[HEADER_ADDR..HEADER_ADDR + HEADER_SIZE] == Header(len, crc)
    ensures m.flash[HEADER_ADDR..HEADER_ADDR + 4] == WordBytes(HDR_MAGIC)
    ensures m.flash[HEADER_ADDR + 4..HEADER_ADDR + 8] == NatBytes(len)
    ensures m.flash[HEADER_ADDR + 8..HEADER_ADDR + 12] == WordBytes(crc)
  {
    hide WordBytes, NatBytes;
    FourParts(WordBytes(HDR_MAGIC), NatBytes(len), WordBytes(crc), WordBytes(0));
    SubSlice(m.flash, HEADER_ADDR, HEADER_SIZE, 0, 4);
    SubSlice(m.flash, HEADER_ADDR, HEADER_SIZE, 4, 8);
    SubSlice(m.flash, HEADER_ADDR, HEADER_SIZE, 8, 12);
  }

  /**
   End to end.  After a complete upload, power fails any number of times while the copy runs;
   the first copy that is not interrupted leaves the application slot starting with exactly
   the image, and the boot after it clears the flag and touches nothing else.
   */
  lemma {:induction false} EndToEnd(s: Sys, cs: seq<Request>, image: seq<byte>, order: seq<nat>, ms: seq<Nvm>)
    requires Splits(cs, image) && 0 < |image| <= IMAGE_MAX_SIZE && GoodLength(|image|)
    requires InOrder(0, order, |cs|)
    requires Boots(ms) && ms[0] == Run(s, Deliver(cs, order)).nvm
    requires forall k :: 0 <= k < |ms| ==> Decide(ms[k]).Install?
    ensures
      var done := Boot(ms[|ms| - 1]);
      && App(done, |image|) == image
      && Decide(done) == AlreadyApplied
      && Boot(done).flag != PENDING_MAGIC
      && Boot(done).flash == done.flash
  {
    NeverRejected(s, cs, image, order, ms, |ms| - 1);
    InstallThenClear(ms[|ms| - 1]);
  }

  /**
   The same without power losses, and exact: two boots after a complete upload the flag is clear,
   and the slot starts with the image unless the old firmware only had its checksum.
   */
  lemma {:induction false} UpdateExact(s: Sys, cs: seq<Request>, image: seq<byte>, order: seq<nat>)
    requires Splits(cs, image) && 0 < |image| <= IMAGE_MAX_SIZE && GoodLength(|image|)
    requires InOrder(0, order, |cs|)
    ensures
      var done := Boot(Boot(Run(s, Deliver(cs, order)).nvm));
      var before := App(s.nvm, |image|);
      && done.flag != PENDING_MAGIC
      && (App(done, |image|) == image <==> before == image || Crc32.Crc32(before) != Crc32.Crc32(image))
  {
    var m := Run(s, Deliver(cs, order)).nvm;
    UploadCommits(s, cs, image, order);
    CommittedIsValidated(m, image);
    AppPrefix(m, s.nvm, |image|);
    BootsOnce(m, image);
  }

  lemma {:induction false} AppPrefix(m: Nvm, n: Nvm, size: nat)
    requires size <= APP_SIZE && App(m, APP_SIZE) == App(n, APP_SIZE)
    ensures App(m, size) == App(n, size)
  {
    assert App(m, size) == App(m, APP_SIZE)[..size];
    assert App(n, size) == App(n, APP_SIZE)[..size];
  }

  lemma {:induction false} BootsOnce(m: Nvm, image: seq<byte>)
    requires Committed(m, image) && Validated(m)
    requires HeaderLen(m) == |image| && HeaderCrc(m) == Crc32.Crc32(image)
    ensures
      var done := Boot(Boot(m));
      && done.flag != PENDING_MAGIC
      && App(done, |image|) ==
        if Crc32.Crc32(App(m, |image|)) != Crc32.Crc32(image) then image else App(m, |image|)
  {
    if Decide(m).Install? {
      InstallThenClear(m);
    } else {
      ClearClears(m);
      assert Decide(Boot(m)) == NotPending;
    }
  }

  /** Whatever happens in between, no boot after a complete upload ever rejects the image. */
  lemma {:induction false} NeverRejected(s: Sys, cs: seq<Request>, image: seq<byte>, order: seq<nat>,
        ms: seq<Nvm>, k: nat)
    requires Splits(cs, image) && 0 < |image| <= IMAGE_MAX_SIZE && GoodLength(|image|)
    requires InOrder(0, order, |cs|)
    requires Boots(ms) && ms[0] == Run(s, Deliver(cs, order)).nvm
    requires k < |ms| && forall j :: 0 <= j <= k ==> ms[j].flag == PENDING_MAGIC
    ensures Decide(ms[k]) == AlreadyApplied || Decide(ms[k]) == Install(|image|)
    ensures Staged(ms[k], |image|) == image
  {
    UploadCommits(s, cs, image, order);
    CommittedIsValidated(ms[0], image);
    RetrySafety(ms, k);
    StillStaged(ms[0], ms[k], image);
  }

  lemma {:induction false} StillStaged(m: Nvm, n: Nvm, image: seq<byte>)
    requires |image| <= IMAGE_MAX_SIZE && HeaderLen(m) == |image| && Staged(m, |image|) == image
    requires SameUpdate(m, n) && Validated(n)
    ensures Decide(n) == AlreadyApplied || Decide(n) == Install(|image|)
    ensures Staged(n, |image|) == image
  {
    DecideFrame(m, n);
  }
}
