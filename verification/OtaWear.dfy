/**
 How the staging flash is used.  Between a chunk 0 and the first last=1 chunk every word is
 programmed once, into a page that has been erased exactly once before.
 */
module OtaWear {
  import opened Crc32
  import opened Nvm
  import opened OtaUpload
  import opened OtaStaging
  import opened OtaOrdering

  /**
   The programming at j went into a page erased before, at i, and no other operation of the
   log has worked on the same cells.
   */
  ghost predicate WrittenOnce(log: seq<Op>, j: nat)
    requires j < |log| && log[j].Program?
  {
    exists i :: 0 <= i < j && log[i] == Erase(PageOf(log[j].addr)) && OnlyThese(log, i, j)
  }

  ghost predicate OnlyThese(log: seq<Op>, i: nat, j: nat)
    requires j < |log|
  {
    forall k, c :: 0 <= k < |log| && k != i && k != j && log[j].Touches(c) ==> !log[k].Touches(c)
  }

  ghost predicate AllWrittenOnce(log: seq<Op>) {
    forall j :: 0 <= j < |log| && log[j].Program? ==> WrittenOnce(log, j)
  }

  /** Page p was erased last, by operation e; everything else lies below hi. */
  ghost predicate Frontier(log: seq<Op>, hi: nat, p: nat, e: nat) {
    && e < |log| && log[e] == Erase(p)
    && (forall k, c :: 0 <= k < |log| && k != e && log[k].Touches(c) ==> c < hi)
    && AllWrittenOnce(log)
  }

  lemma {:induction false} StillWrittenOnce(log: seq<Op>, hi: nat, e: nat, op: Op)
    requires e < |log| && log[e].Erase?
    requires forall k, c :: 0 <= k < |log| && k != e && log[k].Touches(c) ==> c < hi
    requires forall c :: op.Touches(c) ==> hi <= c
    requires AllWrittenOnce(log)
    ensures forall j :: 0 <= j < |log| && log[j].Program? ==> WrittenOnce(log + [op], j)
  {
    var log' := log + [op];
    forall j | 0 <= j < |log| && log[j].Program? ensures WrittenOnce(log', j) {
      var i :| 0 <= i < j && log[i] == Erase(PageOf(log[j].addr)) && OnlyThese(log, i, j);
      assert log'[i] == log[i];
      forall k, c | 0 <= k < |log'| && k != i && k != j && log'[j].Touches(c) ensures !log'[k].Touches(c) {
        assert log[j].Touches(c) && c < hi;
        if k < |log| { assert !log[k].Touches(c); }
      }
      assert OnlyThese(log', i, j);
    }
  }

  lemma {:induction false} EraseNext(log: seq<Op>, hi: nat, p: nat, e: nat)
    requires Frontier(log, hi, p, e) && hi == p + PAGE_SIZE
    ensures Frontier(log + [Erase(hi)], hi, hi, |log|)
  {
    StillWrittenOnce(log, hi, e, Erase(hi));
  }

  lemma {:induction false} ProgramNext(log: seq<Op>, hi: nat, p: nat, e: nat, word: seq<byte>)
    requires Frontier(log, hi, p, e) && |word| == 4 && PageOf(hi) == p
    ensures Frontier(log + [Program(hi, word)], hi + 4, p, e)
  {
    var op := Program(hi, word);
    var log' := log + [op];
    StillWrittenOnce(log, hi, e, op);
    forall k, c | 0 <= k < |log'| && k != e && k != |log| && log'[|log|].Touches(c) ensures !log'[k].Touches(c) {
      assert hi <= c && log'[k] == log[k];
    }
    assert OnlyThese(log', e, |log|);
    assert log'[e] == Erase(PageOf(hi));
    assert WrittenOnce(log', |log|);
  }

  lemma {:induction false} PutByteFrontier(r: Ram, m: Nvm, a: seq<byte>, b: byte, log: seq<Op>, e: nat)
    returns (e': nat)
    requires Staging(r, m, a) && Frontier(log, r.writeAddr, r.lastErased, e)
    ensures var (r', ops) := PutByte(r, b); Frontier(log + ops, r'.writeAddr, r'.lastErased, e')
  {
    e' := e;
    var word := r.align + [b];
    if |word| == 4 && r.writeAddr < IMAGE_ADDR + IMAGE_MAX_SIZE {
      var page := PageOf(r.writeAddr);
      if page > r.lastErased {
        assert page == r.writeAddr == r.lastErased + PAGE_SIZE;
        EraseNext(log, r.writeAddr, r.lastErased, e);
        e' := |log|;
        ProgramNext(log + [Erase(page)], r.writeAddr, page, e', word);
        assert log + [Erase(page)] + [Program(r.writeAddr, word)] ==
          log + ([Erase(page)] + [Program(r.writeAddr, word)]);
      } else {
        assert page == r.lastErased;
        ProgramNext(log, r.writeAddr, page, e, word);
        assert [] + [Program(r.writeAddr, word)] == [Program(r.writeAddr, word)];
      }
    } else {
      assert log + [] == log;
    }
  }

  lemma {:induction false} PutBytesFrontier(r: Ram, m: Nvm, a: seq<byte>, d: seq<byte>, log: seq<Op>, e: nat)
    returns (e': nat)
    requires Staging(r, m, a) && Frontier(log, r.writeAddr, r.lastErased, e)
    ensures var (r', ops) := PutBytes(r, d); Frontier(log + ops, r'.writeAddr, r'.lastErased, e')
    decreases |d|
  {
    hide PutByte, Frontier;
    e' := e;
    if d == [] {
      assert log + [] == log;
    } else {
      var (r1, ops1) := PutByte(r, d[0]);
      e' := PutByteFrontier(r, m, a, d[0], log, e);
      if |a| + 1 < OVERFLOW {
        PutByteFits(r, m, a, d[0]);
        e' := PutBytesFrontier(r1, ApplyAll(m, ops1), a + [d[0]], d[1..], log + ops1, e');
      } else {
        PutByteOverflows(r, m, a, d[0]);
      }
      var ops2 := PutBytes(r1, d[1..]).1;
      assert log + ops1 + ops2 == log + (ops1 + ops2);
    }
  }

  /** The operations of a run of requests, in order. */
  function Log(s: Sys, reqs: seq<Request>): seq<Op>
    decreases |reqs|
  {
    if reqs == [] then [] else Handle(s.ram, s.nvm, reqs[0]).ops + Log(Step(s, reqs[0]), reqs[1..])
  }

  /** One more request of the upload under way. */
  lemma {:induction false} StepFrontier(s: Sys, i: Ideal, c: Request, log: seq<Op>, e: nat) returns (e': nat)
    requires Simulates(s, i) && !i.Waiting? && !Restarts(c) && (c.Chunk? ==> !c.last)
    requires Frontier(log, s.ram.writeAddr, s.ram.lastErased, e)
    ensures
      var s' := Step(s, c);
      Frontier(log + Handle(s.ram, s.nvm, c).ops, s'.ram.writeAddr, s'.ram.lastErased, e')
    ensures Simulates(Step(s, c), IdealStep(i, c)) && !IdealStep(i, c).Waiting?
  {
    e' := e;
    StepSimulates(s, i, c);
    hide Staging, Frontier, PutBytes, DecodeHex, ApplyAll;
    if Applied(s, c) {
      e' := PutBytesFrontier(s.ram, s.nvm, i.bytes, DecodeHex(c.data), log, e);
      AppliedStep(s, c);
      assert [] + ApplyChunk(s.ram, s.nvm, c).ops == ApplyChunk(s.ram, s.nvm, c).ops;
    } else {
      NotApplied(s, c);
      assert log + [] == log;
    }
  }

  lemma {:induction false} Regroup(a: seq<Op>, b: seq<Op>, c: seq<Op>)
    ensures a + b + c == a + (b + c)
  {
  }

  lemma {:induction false} RunFrontier(s: Sys, i: Ideal, reqs: seq<Request>, log: seq<Op>, e: nat)
    requires Simulates(s, i) && !i.Waiting?
    requires forall c :: c in reqs ==> !Restarts(c) && (c.Chunk? ==> !c.last)
    requires Frontier(log, s.ram.writeAddr, s.ram.lastErased, e)
    ensures AllWrittenOnce(log + Log(s, reqs))
    decreases |reqs|
  {
    if reqs == [] {
      assert log + [] == log;
    } else {
      hide Simulates, Step, Handle, IdealStep, Frontier, AllWrittenOnce, Restarts;
      var c := reqs[0];
      assert c in reqs;
      var ops, more := Handle(s.ram, s.nvm, c).ops, Log(Step(s, c), reqs[1..]);
      assert Log(s, reqs) == ops + more;
      hide Log;
      var e' := StepFrontier(s, i, c, log, e);
      RunFrontier(Step(s, c), IdealStep(i, c), reqs[1..], log + ops, e');
      Regroup(log, ops, more);
    }
  }

  /** A chunk 0: header page and first image page are erased, then the words go in. */
  lemma {:induction false} FirstFrontier(s: Sys, first: Request) returns (e: nat)
    requires Restarts(first) && !first.last
    ensures Frontier(Handle(s.ram, s.nvm, first).ops, Step(s, first).ram.writeAddr, Step(s, first).ram.lastErased, e)
  {
    BeginStages(s.nvm);
    BeginFrontier();
    AppliedStep(s, first);
    hide Staging, Frontier, PutBytes, DecodeHex, ApplyAll, Handle, Step, Begun, BEGIN_OPS, PageOf, Conclude;
    e := PutBytesFrontier(Begun(), ApplyAll(s.nvm, BEGIN_OPS), [], DecodeHex(first.data), BEGIN_OPS, 1);
  }

  lemma {:induction false} BeginFrontier()
    ensures Frontier(BEGIN_OPS, Begun().writeAddr, Begun().lastErased, 1)
  {
  }

  /**
   From any state, a chunk 0 and any requests after it up to the next chunk 0 or the first
   last=1 chunk: every programmed word went once into a page erased exactly once.
   */
  lemma {:induction false} EveryWordWrittenOnce(s: Sys, first: Request, reqs: seq<Request>)
    requires Restarts(first) && !first.last
    requires forall c :: c in reqs ==> !Restarts(c) && (c.Chunk? ==> !c.last)
    ensures AllWrittenOnce(Log(s, [first] + reqs))
  {
    var i := IdealStep(Receiving(0, []), first);
    assert !i.Waiting?;
    var e := FirstFrontier(s, first);
    RestartSimulates(s, first);
    hide Simulates, Step, Handle, IdealStep, Frontier, AllWrittenOnce, Restarts;
    RunFrontier(Step(s, first), i, reqs, Handle(s.ram, s.nvm, first).ops, e);
    assert ([first] + reqs)[1..] == reqs;
  }
}
