/**
 What the client is told.  The success page is sent for a commit, but also for any last chunk whose
 number has gone by, whatever became of that chunk the first time.
 */
module OtaReplies {
  import opened Common
  import opened Crc32
  import opened Nvm
  import opened OtaUpload
  import opened OtaStaging
  import opened OtaOrdering
  import opened OtaCommit
  import opened OtaFlush
  import opened OtaEndToEnd
  import opened OtaLate

  function ReplyTo(s: Sys, c: Request): Reply { Handle(s.ram, s.nvm, c).reply }

  /** A last chunk whose number the receiver is past. */
  predicate Resent(s: Sys, c: Request) {
    c.Chunk? && c.last && !Restarts(c) && !s.ram.abort && c.seqNum < s.ram.nextSeq
  }

  lemma {:induction false} AppliedReply(s: Sys, c: Request)
    requires Applied(s, c)
    ensures ReplyTo(s, c) == ApplyChunk(Entry(s, c).ram, Entry(s, c).nvm, c).reply
  {
    hide ApplyChunk;
  }

  lemma {:induction false} NotAppliedReply(s: Sys, c: Request)
    requires !Applied(s, c)
    ensures ReplyTo(s, c) == UpdateOk <==> Resent(s, c)
  {
  }

  lemma {:induction false} NoFlagAbove(ops: seq<Op>, lo: int)
    requires OnlyAbove(ops, lo)
    ensures !EndsInFlag(ops)
  {
    if ops != [] { assert ops[|ops| - 1] in ops; }
  }

  lemma {:induction false} FlagAtEnd(a: seq<Op>, b: seq<Op>)
    requires !EndsInFlag(a)
    ensures EndsInFlag(a + b) <==> EndsInFlag(b)
  {
    EndOfTwo(a, b);
    if b == [] {
      assert a + b == a;
    } else {
      assert (a + b)[|a + b| - 1] == b[|b| - 1];
    }
  }

  lemma {:induction false} ConcludeReply(r: Ram, m: Nvm, totals: Option<Totals>)
    ensures Conclude(r, m, totals).reply == UpdateOk <==> EndsInFlag(Conclude(r, m, totals).ops)
  {
    hide Crc32.Crc32, Header, Staged;
    var (r1, flush) := Flush(r);
    assert !EndsInFlag(flush);
    var (commit, reply) := Finish(r1, ApplyAll(m, flush), totals);
    FlagAtEnd(flush, commit);
  }

  /** The operations of the decode loop, and then of the conclusion of a last chunk. */
  lemma {:induction false} ChunkParts(r: Ram, m: Nvm, c: Request)
    requires c.Chunk?
    ensures
      var (r1, ops) := PutBytes(r, DecodeHex(c.data));
      var o := ApplyChunk(r, m, c);
      if r1.abort || !c.last then o.ops == ops && o.reply == ToolsPage
      else
        var e := Conclude(r1.(nextSeq := r1.nextSeq + 1), ApplyAll(m, ops), c.totals);
        o.ops == ops + e.ops && o.reply == e.reply
  {
    hide PutBytes, DecodeHex, Conclude, ApplyAll;
  }

  lemma {:induction false} ChunkReply(r: Ram, m: Nvm, c: Request)
    requires c.Chunk? && Ahead(r, IMAGE_ADDR)
    ensures ApplyChunk(r, m, c).reply == UpdateOk <==> EndsInFlag(ApplyChunk(r, m, c).ops)
  {
    hide *;
    var (r1, ops) := PutBytes(r, DecodeHex(c.data));
    PutBytesAhead(r, DecodeHex(c.data), IMAGE_ADDR);
    NoFlagAbove(ops, IMAGE_ADDR);
    ChunkParts(r, m, c);
    if !r1.abort && c.last {
      var r2, m1 := r1.(nextSeq := r1.nextSeq + 1), ApplyAll(m, ops);
      ConcludeReply(r2, m1, c.totals);
      FlagAtEnd(ops, Conclude(r2, m1, c.totals).ops);
    }
  }

  /** The success page is sent exactly for a commit and for a last chunk sent again. */
  lemma {:induction false} UpdateOkExact(s: Sys, c: Request)
    requires Bounded(s.ram)
    ensures ReplyTo(s, c) == UpdateOk <==> Commits(s, c) || Resent(s, c)
  {
    hide ApplyChunk;
    if Applied(s, c) {
      AppliedReply(s, c);
      AppliedStep(s, c);
      EntryAhead(s, c);
      var o := ApplyChunk(Entry(s, c).ram, Entry(s, c).nvm, c);
      ChunkReply(Entry(s, c).ram, Entry(s, c).nvm, c);
      BeginsNoFlag(if c.seqNum == 0 then BEGIN_OPS else [], o.ops);
      hide Handle, Entry;
    } else {
      NotAppliedReply(s, c);
      NotApplied(s, c);
    }
  }

  /** The index page answers exactly the requests that lack a parameter. */
  lemma {:induction false} IndexPageExact(s: Sys, c: Request)
    ensures ReplyTo(s, c) == IndexPage <==> c.Malformed?
  {
    if c.Chunk? {
      NoIndexPage(Entry(s, c).ram, Entry(s, c).nvm, c);
      hide ApplyChunk;
    }
  }

  lemma {:induction false} NoIndexPage(r: Ram, m: Nvm, c: Request)
    requires c.Chunk?
    ensures ApplyChunk(r, m, c).reply != IndexPage
  {
    hide PutBytes, DecodeHex, ApplyAll, Crc32.Crc32, Header, Staged;
  }

  /**
   The checksum runs past the end of flash exactly when a last chunk with totals brings the bytes received to
   more than the staging region holds, without the one word too many that aborts.
   */
  lemma {:induction false} BusFaultExact(s: Sys, a: seq<byte>, c: Request)
    requires Staging(s.ram, s.nvm, a) && c.Chunk? && c.seqNum == s.ram.nextSeq > 0
    ensures ReplyTo(s, c) == BusFault <==>
      c.last && c.totals.Some? && IMAGE_MAX_SIZE < |a| + |DecodeHex(c.data)| < OVERFLOW
  {
    var d := DecodeHex(c.data);
    PutBytesStages(s.ram, s.nvm, a, d);
    AppliedReply(s, c);
    NotFull(s.ram, s.nvm, a);
    if |a| + |d| < OVERFLOW { SizeOf(PutBytes(s.ram, d).0, ApplyAll(s.nvm, PutBytes(s.ram, d).1), a + d); }
    hide PutBytes, DecodeHex, ApplyAll, Crc32.Crc32, Header, Staged, Staging;
  }

  lemma {:induction false} SizeOf(r: Ram, m: Nvm, a: seq<byte>)
    requires Staging(r, m, a)
    ensures r.size == |a|
  {
  }

  /**
   Over every run from power-up with the flag clear: a client that reads the success page finds an
   update pending if and only if this request committed it or an earlier one had.
   */
  lemma {:induction false} OkMeansPendingExact(m: Nvm, reqs: seq<Request>, c: Request)
    requires m.flag != PENDING_MAGIC
    requires ReplyTo(Run(Sys(POWER_UP, m), reqs), c) == UpdateOk
    ensures
      var s := Run(Sys(POWER_UP, m), reqs);
      Step(s, c).nvm.flag == PENDING_MAGIC <==> Commits(s, c) || !PhaseRun(Open, Sys(POWER_UP, m), reqs).Open?
  {
    hide Handle, Step, Commits, HeaderErased, Holds, HoldsBlank, HeaderIs;
    var s, p := Run(Sys(POWER_UP, m), reqs), PhaseRun(Open, Sys(POWER_UP, m), reqs);
    PowerUpOpen(m);
    RunSafe(Sys(POWER_UP, m), Open, reqs);
    UpdateOkExact(s, c);
    if Commits(s, c) {
      CommitSets(s, c);
    } else {
      ResentChangesNothing(s, c);
    }
  }

  lemma {:induction false} CommitSets(s: Sys, c: Request)
    requires Bounded(s.ram) && Commits(s, c)
    ensures Step(s, c).nvm.flag == PENDING_MAGIC
  {
    if !Applied(s, c) {
      NotApplied(s, c);
    } else {
      AppliedStep(s, c);
      EntryAhead(s, c);
      var e := Entry(s, c);
      var o := ApplyChunk(e.ram, e.nvm, c);
      BeginsNoFlag(if c.seqNum == 0 then BEGIN_OPS else [], o.ops);
      hide Handle, Entry, Step, ApplyChunk;
      ChunkCommits(e.ram, e.nvm, c);
    }
  }

  lemma {:induction false} ChunkCommits(r: Ram, m: Nvm, c: Request)
    requires c.Chunk? && Ahead(r, IMAGE_ADDR) && r.nextSeq >= 0 && r.size <= r.writeAddr - IMAGE_ADDR + |r.align|
    requires EndsInFlag(ApplyChunk(r, m, c).ops)
    ensures ApplyAll(m, ApplyChunk(r, m, c).ops).flag == PENDING_MAGIC
  {
    var o := ApplyChunk(r, m, c);
    ApplyChunkShape(r, m, c, IMAGE_ADDR);
    hide ApplyChunk, OnlyAbove, ApplyAll, CommitOps, EndsInFlag, Ahead;
    var ops, commit :| o.ops == ops + commit && OnlyAbove(ops, IMAGE_ADDR)
      && (commit == [] || CommitOps(o.ram, ApplyAll(m, ops), c, commit));
    NoFlagAbove(ops, IMAGE_ADDR);
    assert commit == [] ==> ops + commit == ops;
    ApplyAllConcat(m, ops, commit);
    CommitRaises(ApplyAll(m, ops), o.ram, c, commit);
  }

  lemma {:induction false} CommitRaises(m: Nvm, r: Ram, c: Request, commit: seq<Op>)
    requires c.Chunk? && CommitOps(r, m, c, commit)
    ensures ApplyAll(m, commit).flag == PENDING_MAGIC
  {
    hide ApplyAll, Header, Crc32.Crc32;
    assert commit == [commit[0], commit[1]];
    ApplyTwo(m, commit[0], commit[1]);
  }

  lemma {:induction false} ResentChangesNothing(s: Sys, c: Request)
    requires Resent(s, c)
    ensures Step(s, c) == s
  {
  }

  /**
   Whatever last chunk the receiver refuses in its turn, for its totals, its length or a stale cell: sent
   again it is answered with the success page exactly when it has not overflowed the region.
   */
  lemma {:induction false} RefusalForgotten(s: Sys, c: Request)
    requires Bounded(s.ram) && Applied(s, c) && !Restarts(c) && c.last && !Commits(s, c)
    ensures ReplyTo(s, c) != UpdateOk
    ensures ReplyTo(Step(s, c), c) == UpdateOk <==> !Step(s, c).ram.abort
    ensures Step(Step(s, c), c) == Step(s, c)
  {
    UpdateOkExact(s, c);
    AppliedStep(s, c);
    EntryAhead(s, c);
    var e := Entry(s, c);
    hide ApplyChunk, Handle, Commits;
    ApplyChunkShape(e.ram, e.nvm, c, IMAGE_ADDR);
    SecondTime(Step(s, c), c);
  }

  lemma {:induction false} SecondTime(s: Sys, c: Request)
    requires c.Chunk? && c.last && !Restarts(c) && (s.ram.abort || s.ram.nextSeq == c.seqNum + 1)
    ensures ReplyTo(s, c) == UpdateOk <==> !s.ram.abort
    ensures Step(s, c) == s
  {
  }

  // ---------------------------------------------------------------------------
  // Two runs from power-up
  // ---------------------------------------------------------------------------

  /** A last chunk without totals is refused; sent again it is answered with the success page. */
  lemma {:induction false} RefusedThenOk(m: Nvm)
    requires m.flag != PENDING_MAGIC
    ensures
      var c0, c1 := Chunk(0, false, "", None), Chunk(1, true, "", None);
      var s1 := Step(Sys(POWER_UP, m), c0);
      var s2 := Step(s1, c1);
      && ReplyTo(s1, c1) == ToolsPage && ReplyTo(s2, c1) == UpdateOk
      && Step(s2, c1).nvm.flag != PENDING_MAGIC
  {
    var c0, c1 := Chunk(0, false, "", None), Chunk(1, true, "", None);
    var m0 := ApplyAll(m, BEGIN_OPS);
    BeginErases(m);
    EmptyChunk(Begun(), m0, c0);
    AppliedStep(Sys(POWER_UP, m), c0);
    var s1 := Step(Sys(POWER_UP, m), c0);
    EmptyChunk(s1.ram, m0, c1);
    AppliedStep(s1, c1);
    AppliedReply(s1, c1);
    hide Step, ApplyChunk, ApplyAll;
    var s2 := Step(s1, c1);
    hide Handle;
    assert Resent(s2, c1);
    NotAppliedReply(s2, c1);
    NotApplied(s2, c1);
  }

  /** An empty chunk on an empty alignment buffer only counts, and without totals nothing is committed. */
  lemma {:induction false} EmptyChunk(r: Ram, m: Nvm, c: Request)
    requires c.Chunk? && c.data == "" && c.totals.None? && !r.abort && r.align == []
    ensures ApplyChunk(r, m, c) == Outcome(r.(nextSeq := r.nextSeq + 1), [], ToolsPage)
  {
    assert DecodeHex("") == [];
    assert PutBytes(r, []) == (r, []);
    hide PutBytes, DecodeHex, ApplyAll;
    var none: seq<Op> := [];
    assert none + none == none;
  }

  /** 16384 zero bytes and one byte more. */
  function PageAndOne(b: byte): seq<byte> { Zeros(PAGE_SIZE) + [b] }

  /**
   An upload that is refused although every byte and both totals are right: one byte 0xFF past a page
   of zeros, over a cell that holds 0 from an earlier update.  The retry is told that all is well.
   */
  lemma {:induction false} StaleCellRun(m: Nvm)
    requires m.flag != PENDING_MAGIC && m.flash[IMAGE_ADDR + PAGE_SIZE] == 0
    ensures
      var image := PageAndOne(0xFF);
      var c0 := Chunk(0, false, ZeroDigits(PAGE_SIZE), None);
      var c1 := Chunk(1, true, "FF", Some(Declares(image)));
      var s1 := Step(Sys(POWER_UP, m), c0);
      && ReplyTo(s1, c1) == ToolsPage && Step(s1, c1).nvm.flag != PENDING_MAGIC
      && ReplyTo(Step(s1, c1), c1) == UpdateOk && Step(Step(s1, c1), c1) == Step(s1, c1)
  {
    hide Step, DecodeHex, ZeroDigits, Crc32.Crc32, Staging, HeaderErased, ApplyChunk, Handle;
    var image := PageAndOne(0xFF);
    var c0 := Chunk(0, false, ZeroDigits(PAGE_SIZE), None);
    var c1 := Chunk(1, true, "FF", Some(Declares(image)));
    ZerosDecode(PAGE_SIZE);
    LastByte();
    var s := FirstChunk(m, Zeros(PAGE_SIZE), c0);
    FirstPageOnly(m, Zeros(PAGE_SIZE), c0);
    StagingBounded(s.ram, s.nvm, Zeros(PAGE_SIZE));
    assert !GoodLength(PAGE_SIZE + 1) && Whole(PAGE_SIZE + 1) == PAGE_SIZE;
    StaleCellRefusesImage(s.nvm, image);
    AppliedStep(s, c1);
    AppliedReply(s, c1);
    LastChunk(s.ram, s.nvm, Zeros(PAGE_SIZE), c1);
    SecondTime(Step(s, c1), c1);
  }

  lemma {:induction false} LastByte()
    ensures DecodeHex("FF") == [0xFF]
  {
    assert DigitFor('F', (0xFF as byte) >> 4) && DigitFor('F', (0xFF as byte) & 0xF) by { HighHalf(); }
    var d: seq<byte> := [0xFF];
    assert Spells("FF"[2..], d[1..]);
    DecodeSpelled("FF", d);
  }

  lemma {:induction false} HighHalf()
    ensures (0xFF as byte) >> 4 == 15 && (0xFF as byte) & 0xF == 15
  {
  }

  /** A first chunk of one page leaves the cell behind that page alone. */
  lemma {:induction false} FirstPageOnly(m: Nvm, a: seq<byte>, c: Request)
    requires Restarts(c) && !c.last && DecodeHex(c.data) == a && |a| == PAGE_SIZE
    ensures Step(Sys(POWER_UP, m), c).nvm.flash[IMAGE_ADDR + PAGE_SIZE] == m.flash[IMAGE_ADDR + PAGE_SIZE]
  {
    hide PutBytes, Staging;
    var m0 := ApplyAll(m, BEGIN_OPS);
    var (r1, ops) := PutBytes(Begun(), a);
    BeginStages(m);
    BeginElsewhere(m, IMAGE_ADDR + PAGE_SIZE);
    PutBytesStages(Begun(), m0, [], a);
    PutBytesFrame(Begun(), m0, [], a);
    assert [] + a == a;
    OnePage(r1, ApplyAll(m0, ops), a);
    AppliedStep(Sys(POWER_UP, m), c);
  }

  lemma {:induction false} BeginElsewhere(m: Nvm, i: nat)
    requires IMAGE_ADDR + PAGE_SIZE <= i < FLASH_SIZE
    ensures ApplyAll(m, BEGIN_OPS).flash[i] == m.flash[i]
  {
    ApplyTwo(m, Erase(HEADER_ADDR), Erase(IMAGE_ADDR));
    Untouched(m, Erase(HEADER_ADDR), i);
    Untouched(Apply(m, Erase(HEADER_ADDR)), Erase(IMAGE_ADDR), i);
  }

  lemma {:induction false} OnePage(r: Ram, m: Nvm, a: seq<byte>)
    requires Staging(r, m, a) && |a| == PAGE_SIZE
    ensures r.lastErased == IMAGE_ADDR
  {
    assert Whole(PAGE_SIZE) == PAGE_SIZE;
    AlignedGap(IMAGE_ADDR, r.lastErased);
  }
}
