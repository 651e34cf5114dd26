/**
 Delivery order.  However requests are lost, repeated or reordered, the receiver keeps away
 from the application slot, applies every chunk number at most once per upload, and changes
 nothing at all once it has aborted.
 */
module OtaOrdering {
  import opened Common
  import opened Crc32
  import opened Nvm
  import opened OtaUpload

  // ---------------------------------------------------------------------------
  // Which cells a request can touch
  // ---------------------------------------------------------------------------

  /** No operation sets the flag or works on a cell below lo. */
  ghost predicate OnlyAbove(ops: seq<Op>, lo: int) {
    forall op :: op in ops ==> !op.SetFlag? && forall i :: op.Touches(i) ==> lo <= i
  }

  lemma {:induction false} CrashOnlyAbove(m: Nvm, ops: seq<Op>, lo: int, n: Nvm)
    requires OnlyAbove(ops, lo) && CrashState(m, ops, n)
    ensures n.flag == m.flag && n.flagSize == m.flagSize
    ensures forall i :: 0 <= i < FLASH_SIZE && i < lo ==> n.flash[i] == m.flash[i]
    decreases |ops|
  {
    if ops != [] {
      var op := ops[0];
      assert op in ops;
      forall i | 0 <= i < FLASH_SIZE && i < lo ensures Apply(m, op).flash[i] == m.flash[i] && !op.Touches(i) {
        Untouched(m, op, i);
      }
      if !Torn(m, op, n) {
        CrashOnlyAbove(Apply(m, op), ops[1..], lo, n);
      }
    }
  }

  lemma {:induction false} OnlyAboveConcat(a: seq<Op>, b: seq<Op>, lo: int)
    requires OnlyAbove(a, lo) && OnlyAbove(b, lo)
    ensures OnlyAbove(a + b, lo)
  {
  }

  lemma {:induction false} RunOnlyAbove(m: Nvm, ops: seq<Op>, lo: int)
    requires OnlyAbove(ops, lo)
    ensures ApplyAll(m, ops).flag == m.flag && ApplyAll(m, ops).flagSize == m.flagSize
    ensures forall i :: 0 <= i < FLASH_SIZE && i < lo ==> ApplyAll(m, ops).flash[i] == m.flash[i]
  {
    CompletedIsCrashState(m, ops);
    CrashOnlyAbove(m, ops, lo, ApplyAll(m, ops));
  }

  /** Everything the receiver may still write or erase lies at or above lo. */
  ghost predicate Ahead(r: Ram, lo: int) {
    && r.lastErased % PAGE_SIZE == 0 && lo <= r.writeAddr && |r.align| < 4
    && (r.lastErased < PageOf(r.writeAddr) ==> lo <= PageOf(r.writeAddr))
  }

  lemma {:induction false} PutByteAhead(r: Ram, b: byte, lo: int)
    requires Ahead(r, lo)
    ensures Ahead(PutByte(r, b).0, lo) && OnlyAbove(PutByte(r, b).1, lo)
    ensures r.lastErased <= PutByte(r, b).0.lastErased
    ensures r.writeAddr <= PutByte(r, b).0.writeAddr
    ensures PutByte(r, b).0.nextSeq == r.nextSeq
    ensures
      var r' := PutByte(r, b).0;
      r'.abort || r'.size - r.size <= r'.writeAddr + |r'.align| - r.writeAddr - |r.align|
  {
    if |r.align| == 3 && r.writeAddr < IMAGE_ADDR + IMAGE_MAX_SIZE {
      var page := PageOf(r.writeAddr);
      if page > r.lastErased {
        AlignedGap(r.lastErased, page);
      }
    }
  }

  lemma {:induction false} PutBytesAhead(r: Ram, d: seq<byte>, lo: int)
    requires Ahead(r, lo)
    ensures Ahead(PutBytes(r, d).0, lo) && OnlyAbove(PutBytes(r, d).1, lo)
    ensures r.lastErased <= PutBytes(r, d).0.lastErased
    ensures r.writeAddr <= PutBytes(r, d).0.writeAddr
    ensures PutBytes(r, d).0.nextSeq == r.nextSeq
    ensures
      var r' := PutBytes(r, d).0;
      r'.abort || r'.size - r.size <= r'.writeAddr + |r'.align| - r.writeAddr - |r.align|
    decreases |d|
  {
    if d != [] && !r.abort {
      PutByteAhead(r, d[0], lo);
      PutBytesAhead(PutByte(r, d[0]).0, d[1..], lo);
    }
  }

  /** Between requests: once a chunk has been applied, the receiver is past the header page. */
  ghost predicate Bounded(r: Ram) {
    && r.nextSeq >= 0
    && (r.nextSeq > 0 && !r.abort ==> Ahead(r, IMAGE_ADDR) && r.size <= r.writeAddr - IMAGE_ADDR + |r.align|)
  }

  /** The chunk gets past every guard. */
  predicate Applied(s: Sys, c: Request) {
    c.Chunk? && (c.seqNum == 0 || (!s.ram.abort && c.seqNum == s.ram.nextSeq))
  }

  /** What is written when the staged bytes match the declared totals. */
  ghost predicate CommitOps(r: Ram, m: Nvm, c: Request, commit: seq<Op>)
    requires c.Chunk?
  {
    && c.last && c.totals.Some? && !r.abort && r.nextSeq > 0
    && r.size == c.totals.value.len <= IMAGE_MAX_SIZE
    && r.align == []
    && Crc32.Crc32(Staged(m, r.size)) == c.totals.value.crc
    && commit == [Program(HEADER_ADDR, Header(c.totals.value.len, c.totals.value.crc)), SetFlag(PENDING_MAGIC, r.size)]
  }

  /** The operations of a chunk: first some that stay above lo, then possibly a commit. */
  ghost predicate StagesThenCommits(o: Outcome, m: Nvm, c: Request, lo: int)
    requires c.Chunk?
  {
    exists ops, commit :: o.ops == ops + commit && OnlyAbove(ops, lo)
      && (commit == [] || CommitOps(o.ram, ApplyAll(m, ops), c, commit))
  }

  lemma {:induction false} Prepend(first: seq<Op>, o: Outcome, m: Nvm, c: Request, lo: int)
    requires c.Chunk? && OnlyAbove(first, lo) && StagesThenCommits(o, ApplyAll(m, first), c, lo)
    ensures StagesThenCommits(o.(ops := first + o.ops), m, c, lo)
  {
    hide CommitOps, OnlyAbove, ApplyAll;
    var ops, commit :| o.ops == ops + commit && OnlyAbove(ops, lo)
      && (commit == [] || CommitOps(o.ram, ApplyAll(ApplyAll(m, first), ops), c, commit));
    ApplyAllConcat(m, first, ops);
    assert first + (ops + commit) == (first + ops) + commit;
    OnlyAboveConcat(first, ops, lo);
  }

  lemma {:induction false} NoCommit(o: Outcome, m: Nvm, c: Request, lo: int)
    requires c.Chunk? && OnlyAbove(o.ops, lo)
    ensures StagesThenCommits(o, m, c, lo)
  {
    assert o.ops == o.ops + [];
  }

  /** The flush works at the write address only, even where it needed an erase. */
  lemma {:induction false} ConcludeStages(r: Ram, m: Nvm, c: Request, lo: int)
    requires c.Chunk? && c.last && |r.align| < 4 && r.nextSeq > 0 && !r.abort
    requires IMAGE_ADDR <= lo <= r.writeAddr && r.size <= r.writeAddr - IMAGE_ADDR + |r.align|
    ensures StagesThenCommits(Conclude(r, m, c.totals), m, c, lo)
  {
    var (r1, flush) := Flush(r);
    var (commit, reply) := Finish(r1, ApplyAll(m, flush), c.totals);
    assert OnlyAbove(flush, lo);
    assert Conclude(r, m, c.totals).ops == flush + commit;
  }

  lemma {:induction false} FlushAhead(r: Ram, lo: int)
    requires Ahead(r, lo)
    ensures
      var r1 := Flush(r).0;
      && Ahead(r1, lo) && r1.nextSeq == r.nextSeq && r1.abort == r.abort && r1.lastErased == r.lastErased
      && r1.size == r.size && r1.writeAddr + |r1.align| >= r.writeAddr + |r.align|
  {
    PageRises(r.writeAddr, r.writeAddr + 4);
    hide PageOf;
  }

  /** A later address lies in the same page, or in one that starts behind the earlier address. */
  lemma {:induction false} PageRises(a: nat, b: nat)
    requires a <= b
    ensures PageOf(b) == PageOf(a) || a < PageOf(b)
  {
    AlignedGap(PageOf(a), PageOf(b));
    AlignedGap(PageOf(b), PageOf(a));
  }

  lemma {:induction false} ConcludeShape(r: Ram, m: Nvm, c: Request, lo: int)
    requires c.Chunk? && c.last && Ahead(r, lo) && r.nextSeq > 0 && !r.abort
    requires lo >= IMAGE_ADDR && r.size <= r.writeAddr - IMAGE_ADDR + |r.align|
    ensures
      var o := Conclude(r, m, c.totals);
      && o.ram.nextSeq == r.nextSeq && !o.ram.abort && o.ram.lastErased == r.lastErased
      && Ahead(o.ram, lo) && o.ram.size <= o.ram.writeAddr - IMAGE_ADDR + |o.ram.align|
      && StagesThenCommits(o, m, c, lo)
  {
    ConcludeStages(r, m, c, lo);
    FlushAhead(r, lo);
  }

  lemma {:induction false} ApplyChunkShape(r: Ram, m: Nvm, c: Request, lo: int)
    requires c.Chunk? && Ahead(r, lo) && r.nextSeq >= 0 && r.size <= r.writeAddr - IMAGE_ADDR + |r.align|
    requires lo >= IMAGE_ADDR
    ensures
      var o := ApplyChunk(r, m, c);
      && o.ram.nextSeq >= r.nextSeq
      && (o.ram.abort || o.ram.nextSeq == r.nextSeq + 1)
      && Ahead(o.ram, lo) && r.lastErased <= o.ram.lastErased
      && (!o.ram.abort ==> o.ram.size <= o.ram.writeAddr - IMAGE_ADDR + |o.ram.align|)
      && StagesThenCommits(o, m, c, lo)
  {
    var (r1, ops) := PutBytes(r, DecodeHex(c.data));
    PutBytesAhead(r, DecodeHex(c.data), lo);
    if r1.abort || !c.last {
      NoCommit(ApplyChunk(r, m, c), m, c, lo);
    } else {
      var m1 := ApplyAll(m, ops);
      var r2 := r1.(nextSeq := r1.nextSeq + 1);
      ConcludeShape(r2, m1, c, lo);
      Prepend(ops, Conclude(r2, m1, c.totals), m, c, lo);
    }
  }

  // ---------------------------------------------------------------------------
  // The first word after a flush
  // ---------------------------------------------------------------------------

  /** Too few bytes for a word only fill the alignment buffer. */
  lemma {:induction false} NoWord(r: Ram, d: seq<byte>)
    requires !r.abort && |r.align| + |d| < 4
    ensures PutBytes(r, d) == (r.(align := r.align + d, size := r.size + |d|), [])
    decreases |d|
  {
    if d == [] {
      assert r.align + [] == r.align;
    } else {
      var r1 := r.(align := r.align + [d[0]], size := r.size + 1);
      assert PutByte(r, d[0]) == (r1, []);
      NoWord(r1, d[1..]);
      assert r1.align + d[1..] == r.align + d;
      assert PutBytes(r, d).0 == PutBytes(r1, d[1..]).0;
      assert PutBytes(r1, d[1..]).0 == r.(align := r.align + d, size := r.size + |d|);
      assert PutBytes(r, d).1 == [] + PutBytes(r1, d[1..]).1;
      assert PutBytes(r, d).1 == [];
    }
  }

  /** Enough bytes for one word, in a page not erased yet: the erase comes first. */
  lemma {:induction false} FirstWord(r: Ram, d: seq<byte>, lo: int) returns (rest: seq<Op>)
    requires !r.abort && |r.align| < 4 <= |r.align| + |d| && lo <= r.writeAddr < IMAGE_ADDR + IMAGE_MAX_SIZE
    requires r.lastErased % PAGE_SIZE == 0 && r.lastErased < PageOf(r.writeAddr)
    ensures PutBytes(r, d).1 == [Erase(PageOf(r.writeAddr))] + rest && OnlyAbove(rest, lo)
    ensures Ahead(PutBytes(r, d).0, lo) && PutBytes(r, d).0.size >= r.size + 4 - |r.align|
    decreases |d|
  {
    var (r1, ops1) := PutByte(r, d[0]);
    if |r.align| == 3 {
      var word := Program(r.writeAddr, r.align + [d[0]]);
      WordAhead(r, d[0], lo);
      PutBytesAhead(r1, d[1..], lo);
      PutBytesSize(r1, d[1..]);
      var more := PutBytes(r1, d[1..]).1;
      rest := [word] + more;
      assert ops1 == [Erase(PageOf(r.writeAddr))] + [word];
      assert ops1 + more == [Erase(PageOf(r.writeAddr))] + rest;
    } else {
      rest := FirstWord(r1, d[1..], lo);
      assert [] + PutBytes(r1, d[1..]).1 == PutBytes(r1, d[1..]).1;
    }
  }

  lemma {:induction false} PutBytesSize(r: Ram, d: seq<byte>)
    ensures PutBytes(r, d).0.size >= r.size
    decreases |d|
  {
    if d != [] && !r.abort { PutBytesSize(PutByte(r, d[0]).0, d[1..]); }
  }

  /** Once a word has gone into its page, whatever was below it is out of reach. */
  lemma {:induction false} WordAhead(r: Ram, b: byte, lo: int)
    requires |r.align| == 3 && lo <= r.writeAddr < IMAGE_ADDR + IMAGE_MAX_SIZE
    requires r.lastErased % PAGE_SIZE == 0 && r.lastErased < PageOf(r.writeAddr)
    ensures Ahead(PutByte(r, b).0, lo)
  {
  }

  predicate EndsInFlag(ops: seq<Op>) {
    ops != [] && ops[|ops| - 1].SetFlag?
  }

  lemma {:induction false} CommitEnds(r: Ram, m: Nvm, c: Request, commit: seq<Op>)
    requires c.Chunk? && CommitOps(r, m, c, commit)
    ensures EndsInFlag(commit)
  {
  }

  lemma {:induction false} EndOfTwo(a: seq<Op>, b: seq<Op>)
    ensures EndsInFlag(b) ==> EndsInFlag(a + b)
  {
    assert b != [] ==> (a + b)[|a + b| - 1] == b[|b| - 1];
  }

  /** A chunk that does not commit leaves everything below lo alone. */
  lemma {:induction false} StagesOnly(o: Outcome, m: Nvm, c: Request, lo: int)
    requires c.Chunk? && StagesThenCommits(o, m, c, lo) && !EndsInFlag(o.ops)
    ensures OnlyAbove(o.ops, lo)
  {
    hide CommitOps, OnlyAbove, ApplyAll, EndsInFlag;
    var ops, commit :| o.ops == ops + commit && OnlyAbove(ops, lo)
      && (commit == [] || CommitOps(o.ram, ApplyAll(m, ops), c, commit));
    if commit != [] {
      CommitEnds(o.ram, ApplyAll(m, ops), c, commit);
      EndOfTwo(ops, commit);
    }
    assert ops + [] == ops;
  }

  /** A chunk too short for a word, without a commit. */
  lemma {:induction false} ShortChunk(r: Ram, m: Nvm, c: Request, lo: int)
    requires c.Chunk? && !r.abort && |r.align| + |DecodeHex(c.data)| < 4 && r.nextSeq >= 0
    requires IMAGE_ADDR <= lo <= r.writeAddr && r.size <= r.writeAddr - IMAGE_ADDR + |r.align|
    requires !EndsInFlag(ApplyChunk(r, m, c).ops)
    ensures OnlyAbove(ApplyChunk(r, m, c).ops, lo) && lo <= ApplyChunk(r, m, c).ram.writeAddr
    ensures !c.last ==>
      var d := DecodeHex(c.data);
      ApplyChunk(r, m, c).ram == r.(align := r.align + d, size := r.size + |d|, nextSeq := r.nextSeq + 1)
  {
    NoWord(r, DecodeHex(c.data));
    if c.last {
      var r1 := PutBytes(r, DecodeHex(c.data)).0.(nextSeq := r.nextSeq + 1);
      var o := Conclude(r1, m, c.totals);
      assert [] + o.ops == o.ops;
      ConcludeStages(r1, m, c, lo);
      StagesOnly(o, m, c, lo);
    }
  }

  /** A chunk that completes a word in a page not erased yet, without a commit. */
  lemma {:induction false} LateChunk(r: Ram, m: Nvm, c: Request, lo: int) returns (rest: seq<Op>)
    requires c.Chunk? && !r.abort && |r.align| < 4 <= |r.align| + |DecodeHex(c.data)| && r.nextSeq >= 0
    requires IMAGE_ADDR <= lo <= r.writeAddr < IMAGE_ADDR + IMAGE_MAX_SIZE
    requires r.size <= r.writeAddr - IMAGE_ADDR + |r.align|
    requires r.lastErased % PAGE_SIZE == 0 && r.lastErased < PageOf(r.writeAddr)
    requires !EndsInFlag(ApplyChunk(r, m, c).ops)
    ensures ApplyChunk(r, m, c).ops == [Erase(PageOf(r.writeAddr))] + rest && OnlyAbove(rest, lo)
    ensures Ahead(ApplyChunk(r, m, c).ram, lo) && ApplyChunk(r, m, c).ram.size >= r.size + 4 - |r.align|
  {
    hide PutBytes, PageOf, Ahead, OnlyAbove, Flush, Finish, EndsInFlag, Crc32.Crc32, DecodeHex, Conclude;
    var d := DecodeHex(c.data);
    var (r1, ops) := PutBytes(r, d);
    var r2 := r1.(nextSeq := r1.nextSeq + 1);
    rest := FirstWord(r, d, lo);
    AheadAgain(r1, r2, lo);
    if !r1.abort && c.last {
      AheadSelf(r);
      PutBytesAhead(r, d, PageOf(r.writeAddr));
      var m1 := ApplyAll(m, ops);
      var o := Conclude(r2, m1, c.totals);
      EndOfTwo(ops, o.ops);
      ConcludeOnly(r2, m1, c, lo);
      assert [Erase(PageOf(r.writeAddr))] + rest + o.ops == [Erase(PageOf(r.writeAddr))] + (rest + o.ops);
      OnlyAboveConcat(rest, o.ops, lo);
      rest := rest + o.ops;
    }
  }

  lemma {:induction false} AheadAgain(r: Ram, r': Ram, lo: int)
    requires Ahead(r, lo) && r' == r.(nextSeq := r'.nextSeq)
    ensures Ahead(r', lo) && |r'.align| < 4
  {
  }

  lemma {:induction false} ConcludeOnly(r: Ram, m: Nvm, c: Request, lo: int)
    requires c.Chunk? && c.last && Ahead(r, lo) && r.nextSeq > 0 && !r.abort
    requires lo >= IMAGE_ADDR && r.size <= r.writeAddr - IMAGE_ADDR + |r.align|
    requires !EndsInFlag(Conclude(r, m, c.totals).ops)
    ensures
      var o := Conclude(r, m, c.totals);
      OnlyAbove(o.ops, lo) && Ahead(o.ram, lo) && o.ram.size == r.size
  {
    hide EndsInFlag, OnlyAbove, Finish, StagesThenCommits;
    ConcludeShape(r, m, c, lo);
    StagesOnly(Conclude(r, m, c.totals), m, c, lo);
    FlushAhead(r, lo);
  }

  lemma {:induction false} AheadSelf(r: Ram)
    requires r.lastErased % PAGE_SIZE == 0 && |r.align| < 4 && r.lastErased < PageOf(r.writeAddr)
    ensures Ahead(r, PageOf(r.writeAddr))
  {
  }

  // ---------------------------------------------------------------------------
  // Runs
  // ---------------------------------------------------------------------------

  /** A request that is not applied changes no memory; at most it raises the abort flag. */
  lemma {:induction false} NotApplied(s: Sys, c: Request)
    requires !Applied(s, c)
    ensures Handle(s.ram, s.nvm, c).ops == []
    ensures Step(s, c).nvm == s.nvm
    ensures Step(s, c).ram == s.ram || Step(s, c).ram == s.ram.(abort := true)
  {
  }

  /** The state an applied chunk starts from: a chunk 0 restarts the upload first. */
  function Entry(s: Sys, c: Request): Sys
    requires c.Chunk?
  {
    if c.seqNum == 0 then Sys(Begun(), ApplyAll(s.nvm, BEGIN_OPS)) else s
  }

  lemma {:induction false} AppliedStep(s: Sys, c: Request)
    requires Applied(s, c)
    ensures
      var e := Entry(s, c);
      var o := ApplyChunk(e.ram, e.nvm, c);
      && Handle(s.ram, s.nvm, c).ops == (if c.seqNum == 0 then BEGIN_OPS else []) + o.ops
      && Step(s, c) == Sys(o.ram, ApplyAll(e.nvm, o.ops))
  {
    var e := Entry(s, c);
    var o := ApplyChunk(e.ram, e.nvm, c);
    if c.seqNum == 0 {
      ApplyAllConcat(s.nvm, BEGIN_OPS, o.ops);
    } else {
      assert [] + o.ops == o.ops;
    }
  }

  lemma {:induction false} EntryAhead(s: Sys, c: Request)
    requires Bounded(s.ram) && Applied(s, c)
    ensures Ahead(Entry(s, c).ram, IMAGE_ADDR) && Entry(s, c).ram.nextSeq >= 0
    ensures Entry(s, c).ram.size <= Entry(s, c).ram.writeAddr - IMAGE_ADDR + |Entry(s, c).ram.align|
  {
  }

  /** No operation works below the header. */
  ghost predicate AboveHeader(ops: seq<Op>) {
    forall op, i :: op in ops && op.Touches(i) ==> HEADER_ADDR <= i
  }

  lemma {:induction false} StagesAboveHeader(o: Outcome, m: Nvm, c: Request)
    requires c.Chunk? && StagesThenCommits(o, m, c, IMAGE_ADDR)
    ensures AboveHeader(o.ops)
  {
    hide ApplyAll, Crc32.Crc32, Header;
    var ops, commit :| o.ops == ops + commit && OnlyAbove(ops, IMAGE_ADDR)
      && (commit == [] || CommitOps(o.ram, ApplyAll(m, ops), c, commit));
  }

  lemma {:induction false} BeginAboveHeader(begin: seq<Op>, ops: seq<Op>)
    requires AboveHeader(ops) && (begin == BEGIN_OPS || begin == [])
    ensures AboveHeader(begin + ops)
  {
  }

  lemma {:induction false} StepBounded(s: Sys, c: Request)
    requires Bounded(s.ram)
    ensures Bounded(Step(s, c).ram) && AboveHeader(Handle(s.ram, s.nvm, c).ops)
  {
    if Applied(s, c) {
      AppliedStep(s, c);
      EntryAhead(s, c);
      hide ApplyChunk, Handle, Step, AboveHeader, StagesThenCommits, Ahead, ApplyAll;
      var e := Entry(s, c);
      ApplyChunkShape(e.ram, e.nvm, c, IMAGE_ADDR);
      StagesAboveHeader(ApplyChunk(e.ram, e.nvm, c), e.nvm, c);
      BeginAboveHeader(if c.seqNum == 0 then BEGIN_OPS else [], ApplyChunk(e.ram, e.nvm, c).ops);
    } else {
      NotApplied(s, c);
    }
  }

  lemma {:induction false} RunBounded(s: Sys, reqs: seq<Request>)
    requires Bounded(s.ram)
    ensures Bounded(Run(s, reqs).ram)
    decreases |reqs|
  {
    if reqs != [] {
      StepBounded(s, reqs[0]);
      RunBounded(Step(s, reqs[0]), reqs[1..]);
    }
  }

  /** After any requests from power-up, no operation of the next one touches the application slot. */
  lemma {:induction false} NeverTouchesApp(m: Nvm, reqs: seq<Request>, c: Request, op: Op, i: int)
    requires var s := Run(Sys(POWER_UP, m), reqs); op in Handle(s.ram, s.nvm, c).ops
    requires op.Touches(i)
    ensures !(APP_ADDR <= i < APP_ADDR + APP_SIZE)
  {
    RunBounded(Sys(POWER_UP, m), reqs);
    StepBounded(Run(Sys(POWER_UP, m), reqs), c);
  }

  predicate Restarts(c: Request) {
    c.Chunk? && c.seqNum == 0
  }

  /** Once aborted, nothing changes until the next chunk 0. */
  lemma {:induction false} AbortIsSticky(s: Sys, reqs: seq<Request>)
    requires s.ram.abort
    requires forall c :: c in reqs ==> !Restarts(c)
    ensures Run(s, reqs) == s
    decreases |reqs|
  {
    if reqs != [] {
      assert reqs[0] in reqs;
      NotApplied(s, reqs[0]);
      AbortIsSticky(s, reqs[1..]);
    }
  }

  /** Without a chunk 0 the expected number never goes back. */
  lemma {:induction false} NextSeqGrows(s: Sys, reqs: seq<Request>)
    requires Bounded(s.ram)
    requires forall c :: c in reqs ==> !Restarts(c)
    ensures Run(s, reqs).ram.nextSeq >= s.ram.nextSeq
    ensures s.ram.abort ==> Run(s, reqs).ram.abort
    decreases |reqs|
  {
    if reqs != [] {
      var c := reqs[0];
      assert c in reqs;
      if Applied(s, c) {
        AppliedStep(s, c);
        EntryAhead(s, c);
        ApplyChunkShape(s.ram, s.nvm, c, IMAGE_ADDR);
      }
      StepBounded(s, c);
      NextSeqGrows(Step(s, c), reqs[1..]);
    }
  }

  /**
   Exactly-once: of two applied chunks of one upload the later one has the greater number, so
   no number is applied twice between two restarts.
   */
  lemma {:induction false} AppliedAtMostOnce(m: Nvm, before: seq<Request>, c: Request,
        between: seq<Request>, d: Request)
    requires
      var s := Run(Sys(POWER_UP, m), before);
      Applied(s, c) && Applied(Run(Step(s, c), between), d)
    requires !Restarts(d) && forall e :: e in between ==> !Restarts(e)
    ensures c.seqNum < d.seqNum
  {
    var s := Run(Sys(POWER_UP, m), before);
    RunBounded(Sys(POWER_UP, m), before);
    AppliedStep(s, c);
    EntryAhead(s, c);
    ApplyChunkShape(Entry(s, c).ram, Entry(s, c).nvm, c, IMAGE_ADDR);
    StepBounded(s, c);
    NextSeqGrows(Step(s, c), between);
  }
}
