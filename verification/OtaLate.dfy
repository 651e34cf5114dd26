/**
 Chunks that arrive after the commit.  A flush may have left the end of the image in a page that
 was never erased; the next word the client sends erases that page.  What this does to a committed
 update is exact, at every crash point and over every run.
 */
module OtaLate {
  import opened Common
  import opened Crc32
  import CrcBurst
  import opened Nvm
  import opened OtaUpload
  import opened OtaStaging
  import opened OtaOrdering
  import opened OtaCommit
  import opened OtaFlush
  import opened OtaBoot
  import opened OtaEndToEnd

  // ---------------------------------------------------------------------------
  // One chunk
  // ---------------------------------------------------------------------------

  /** One changed byte of the staged image is enough for the checksum to fail. */
  lemma {:induction false} OneByteOff(m: Nvm, n: Nvm, t: Totals, image: seq<byte>, k: nat)
    requires Holds(m, t, image) && k < t.len && n.flash[IMAGE_ADDR + k] != m.flash[IMAGE_ADDR + k]
    requires forall i :: 0 <= i < FLASH_SIZE && i != IMAGE_ADDR + k ==> n.flash[i] == m.flash[i]
    ensures !HeaderMatches(n, t)
  {
    OneByteApart(m, n, t.len, k);
    hide Crc32.Crc32, Declared;
    CrcBurst.DamageInRange(image, Staged(n, t.len), k);
  }

  lemma {:induction false} OneByteApart(m: Nvm, n: Nvm, len: nat, k: nat)
    requires k < len <= IMAGE_MAX_SIZE && n.flash[IMAGE_ADDR + k] != m.flash[IMAGE_ADDR + k]
    requires forall i :: 0 <= i < FLASH_SIZE && i != IMAGE_ADDR + k ==> n.flash[i] == m.flash[i]
    ensures Staged(m, len) != Staged(n, len)
    ensures forall i :: 0 <= i < len && i != k ==> Staged(m, len)[i] == Staged(n, len)[i]
  {
    assert Staged(m, len)[k] == m.flash[IMAGE_ADDR + k];
  }

  lemma {:induction false} TornErase(m: Nvm, ops: seq<Op>, t: Totals, image: seq<byte>, from: nat) returns (n: Nvm)
    requires Holds(m, t, image) && ops != [] && ops[0] == Erase(from)
    requires IMAGE_ADDR <= from < IMAGE_ADDR + t.len
    ensures CrashState(m, ops, n) && n.flag == m.flag && !HeaderMatches(n, t)
  {
    hide Crc32.Crc32, Header;
    var other: byte := if m.flash[from] == 0 then 1 else 0;
    n := m.(flash := m.flash[from := other]);
    assert Torn(m, Erase(from), n);
    OneByteOff(m, n, t, image, from - IMAGE_ADDR);
  }

  /**
   A chunk after the commit that neither restarts the upload nor commits again: the header matches
   the staged bytes at every crash point inside it if and only if it is not late.
   */
  lemma {:induction false} CrashExact(s: Sys, c: Request, t: Totals, image: seq<byte>)
    requires Inv(s, Armed(t, image)) && Applied(s, c) && !Ends(s, c)
    ensures (forall n :: CrashState(s.nvm, Handle(s.ram, s.nvm, c).ops, n) ==> HeaderMatches(n, t))
      <==> !Late(s.ram, t, c)
  {
    hide Handle, Step, CrashState;
    if Late(s.ram, t, c) {
      LateStep(s, c, t, image);
      EntryAhead(s, c);
      var n := TornErase(s.nvm, Handle(s.ram, s.nvm, c).ops, t, image, PageOf(s.ram.writeAddr));
    } else {
      ArmedStep(s, c, t, image);
    }
  }

  /** Once the end is blanked, the header matches if and only if the image's end was blank anyway. */
  lemma {:induction false} BlankedExact(m: Nvm, t: Totals, image: seq<byte>, from: nat)
    requires HoldsBlank(m, t, image, from) && |image| <= from - IMAGE_ADDR + 4
    ensures HeaderMatches(m, t) <==> forall i :: from - IMAGE_ADDR <= i < |image| ==> image[i] == 0xFF
  {
    hide Crc32.Crc32, Declared;
    var k := from - IMAGE_ADDR;
    var b := Blank(image, k);
    if image != b {
      CrcBurst.DamageInRange(image, b, k);
      var i :| 0 <= i < |image| && image[i] != b[i];
      assert image[i] != 0xFF;
    } else {
      assert forall i :: k <= i < |image| ==> b[i] == 0xFF;
    }
  }

  /** A header that no longer matches costs the update: the next boot rejects it and clears the flag. */
  lemma {:induction false} MismatchIsRejected(m: Nvm, t: Totals)
    requires m.flag == PENDING_MAGIC && Declared(m, t) && 0 < t.len && !HeaderMatches(m, t)
    ensures Decide(m) == Reject && Boot(m).flag != PENDING_MAGIC && Boot(m).flash == m.flash
  {
    HeaderReadsBack(m, t);
    hide Crc32.Crc32, Header, HeaderMagic, HeaderLen, HeaderCrc, ApplyAll;
    ClearClears(m);
  }

  // ---------------------------------------------------------------------------
  // Every run after the commit
  // ---------------------------------------------------------------------------

  function Declares(image: seq<byte>): Totals { Totals(|image|, Crc32.Crc32(image)) }

  /** The receiver is one flushed word into a page it has not erased, and has filled no word since. */
  predicate Behind(r: Ram, image: seq<byte>) {
    var page := IMAGE_ADDR + Whole(|image|);
    && r.size == |image| + |r.align| && |r.align| < 4 && r.writeAddr == page + 4
    && r.lastErased + PAGE_SIZE == page && page % PAGE_SIZE == 0
  }

  lemma {:induction false} BehindIsEndangered(r: Ram, image: seq<byte>)
    requires Behind(r, image) && !GoodLength(|image|)
    ensures Endangered(r, Declares(image)) && PageOf(r.writeAddr) == IMAGE_ADDR + Whole(|image|)
    ensures IMAGE_ADDR + |image| <= r.writeAddr
  {
    PageOfStart(IMAGE_ADDR + Whole(|image|));
    BadLengthHasTail(|image|);
  }

  /** Where receiver and phase stand while the client goes on after committing the image. */
  ghost predicate Tracks(s: Sys, p: Phase, image: seq<byte>) {
    var page := IMAGE_ADDR + Whole(|image|);
    match p
    case Armed(t, im) =>
      && t == Declares(image) && im == image
      && (if GoodLength(|image|) then s.ram.abort || !Endangered(s.ram, t) else Behind(s.ram, image))
    case Blanked(t, im, from) =>
      t == Declares(image) && im == image && from == page && !GoodLength(|image|) && s.ram.size >= |image| + 4
    case _ => false
  }

  lemma {:induction false} PageOfStart(page: nat)
    requires page % PAGE_SIZE == 0
    ensures PageOf(page + 4) == page
  {
  }

  /** A chunk that neither restarts the upload nor can commit again: a last chunk below next is a resend. */
  predicate GoesOn(c: Request, next: int) {
    !Restarts(c) && (c.Chunk? && c.last ==> c.seqNum < next)
  }

  /** After a phase with a header, only a late word changes anything. */
  lemma {:induction false} PhaseGoesOn(p: Phase, s: Sys, c: Request)
    requires Applied(s, c) && !Ends(s, c)
    ensures p.Blanked? || (p.Armed? && !Late(s.ram, p.totals, c)) ==> PhaseStep(p, s, c) == p
    ensures p.Armed? && Late(s.ram, p.totals, c) ==>
      PhaseStep(p, s, c) == Blanked(p.totals, p.image, PageOf(s.ram.writeAddr))
  {
    hide Commits, Late, PageOf;
  }

  lemma {:induction false} MiddleEndsNothing(s: Sys, c: Request)
    requires Bounded(s.ram) && GoesOn(c, s.ram.nextSeq)
    ensures !Ends(s, c)
    ensures Applied(s, c) ==> !c.last
  {
    if Applied(s, c) {
      var ops := PutBytes(s.ram, DecodeHex(c.data)).1;
      AppliedStep(s, c);
      EntryAhead(s, c);
      PutBytesAhead(s.ram, DecodeHex(c.data), IMAGE_ADDR);
      assert ApplyChunk(s.ram, s.nvm, c).ops == ops;
      assert [] + ops == ops;
      if ops != [] { assert ops[|ops| - 1] in ops; }
    }
  }

  lemma {:induction false} TrackStep(s: Sys, p: Phase, image: seq<byte>, c: Request)
    requires Inv(s, p) && Tracks(s, p, image) && GoesOn(c, s.ram.nextSeq)
    ensures Tracks(Step(s, c), PhaseStep(p, s, c), image)
  {
    if !Applied(s, c) {
      TrackSame(s, p, image, c);
    } else {
      MiddleEndsNothing(s, c);
      BoundedOf(s, p);
      EntryAhead(s, c);
      assert !Restarts(c) && !c.last;
      hide *;
      if p.Blanked? {
        TrackBlanked(s, p, image, c);
      } else if GoodLength(|image|) {
        TrackGood(s, p, image, c);
      } else {
        IsArmed(s, p, image);
        TrackBad(s, p, image, c);
      }
    }
  }

  lemma {:induction false} BoundedOf(s: Sys, p: Phase)
    requires Inv(s, p)
    ensures Bounded(s.ram)
  {
  }

  lemma {:induction false} TrackSame(s: Sys, p: Phase, image: seq<byte>, c: Request)
    requires Tracks(s, p, image) && !Applied(s, c)
    ensures Tracks(Step(s, c), PhaseStep(p, s, c), image)
  {
    NotApplied(s, c);
    hide Step, Applied, Whole, GoodLength, Crc32.Crc32, Endangered;
  }

  lemma {:induction false} IsArmed(s: Sys, p: Phase, image: seq<byte>)
    requires Tracks(s, p, image) && !p.Blanked?
    ensures p.Armed?
  {
  }

  lemma {:induction false} TrackBlanked(s: Sys, p: Phase, image: seq<byte>, c: Request)
    requires p.Blanked? && Tracks(s, p, image) && Applied(s, c) && !Restarts(c) && !c.last && !Ends(s, c)
    ensures Tracks(Step(s, c), PhaseStep(p, s, c), image)
  {
    PhaseGoesOn(p, s, c);
    hide Crc32.Crc32, GoodLength, Whole, PutBytes, DecodeHex, ApplyAll, Ends, Step, PhaseStep;
    AppliedStep(s, c);
    PutBytesSize(s.ram, DecodeHex(c.data));
  }

  lemma {:induction false} TrackGood(s: Sys, p: Phase, image: seq<byte>, c: Request)
    requires Inv(s, p) && !p.Blanked? && Tracks(s, p, image) && GoodLength(|image|)
    requires Applied(s, c) && !Restarts(c) && !c.last && !Ends(s, c)
    ensures Tracks(Step(s, c), PhaseStep(p, s, c), image)
  {
    EntryAhead(s, c);
    AppliedStep(s, c);
    hide Crc32.Crc32, GoodLength, Whole, ApplyChunk, DecodeHex, ApplyAll;
    PhaseGoesOn(p, s, c);
    hide Ends, Step, PageOf, StagesThenCommits, Declared, PhaseStep;
    ApplyChunkShape(s.ram, s.nvm, c, IMAGE_ADDR + |image|);
  }

  lemma {:induction false} TrackBad(s: Sys, p: Phase, image: seq<byte>, c: Request)
    requires Inv(s, p) && p.Armed? && Tracks(s, p, image) && !GoodLength(|image|)
    requires Applied(s, c) && !Restarts(c) && !c.last && !Ends(s, c)
    ensures Tracks(Step(s, c), PhaseStep(p, s, c), image)
  {
    var t := Declares(image);
    AppliedStep(s, c);
    EntryAhead(s, c);
    BehindIsEndangered(s.ram, image);
    PhaseGoesOn(p, s, c);
    hide Step, PageOf, Whole, GoodLength, Ends, Crc32.Crc32, Inv, PhaseStep;
    if Late(s.ram, t, c) {
      LateStep(s, c, t, image);
    } else {
      NothingWritten(s, c, image);
    }
  }

  lemma {:induction false} NothingWritten(s: Sys, c: Request, image: seq<byte>)
    requires Behind(s.ram, image) && !s.ram.abort && c.Chunk? && !c.last
    requires |s.ram.align| + |DecodeHex(c.data)| < 4
    ensures Behind(ApplyChunk(s.ram, s.nvm, c).ram, image)
  {
    NoWord(s.ram, DecodeHex(c.data));
  }

  lemma {:induction false} BadLengthHasTail(n: nat)
    requires !GoodLength(n)
    ensures Whole(n) < n
  {
    if n % 4 == 0 { MultipleOfFour(n); }
  }

  lemma {:induction false} TrackRun(s: Sys, p: Phase, image: seq<byte>, reqs: seq<Request>, next: int)
    requires Inv(s, p) && Tracks(s, p, image) && next <= s.ram.nextSeq
    requires forall c :: c in reqs ==> GoesOn(c, next)
    ensures Inv(Run(s, reqs), PhaseRun(p, s, reqs)) && Tracks(Run(s, reqs), PhaseRun(p, s, reqs), image)
    decreases |reqs|
  {
    hide Inv, Tracks, Step, PhaseStep;
    if reqs != [] {
      assert reqs[0] in reqs;
      StepSafe(s, p, reqs[0]);
      TrackStep(s, p, image, reqs[0]);
      BoundedOf(s, p);
      StepGrows(s, reqs[0]);
      TrackRun(Step(s, reqs[0]), PhaseStep(p, s, reqs[0]), image, reqs[1..], next);
    }
  }

  // ---------------------------------------------------------------------------
  // What the requests bring
  // ---------------------------------------------------------------------------

  /** The bytes in the chunks that arrive in order, from number next up to the first gap. */
  function Brought(next: int, reqs: seq<Request>): nat
    decreases |reqs|
  {
    if reqs == [] then 0
    else if reqs[0].Malformed? || reqs[0].seqNum < next then Brought(next, reqs[1..])
    else if reqs[0].seqNum > next then 0
    else |DecodeHex(reqs[0].data)| + Brought(next + 1, reqs[1..])
  }

  lemma {:induction false} SizeGrows(s: Sys, reqs: seq<Request>, next: int)
    requires Bounded(s.ram) && next <= s.ram.nextSeq && forall c :: c in reqs ==> GoesOn(c, next)
    ensures Run(s, reqs).ram.size >= s.ram.size
    decreases |reqs|
  {
    if reqs != [] {
      var c := reqs[0];
      assert c in reqs;
      SizeGrowsOnce(s, c);
      StepBounded(s, c);
      StepGrows(s, c);
      hide Step, GoesOn, Bounded;
      SizeGrows(Step(s, c), reqs[1..], next);
    }
  }

  lemma {:induction false} SizeGrowsOnce(s: Sys, c: Request)
    requires Bounded(s.ram) && GoesOn(c, s.ram.nextSeq)
    ensures Step(s, c).ram.size >= s.ram.size
  {
    if Applied(s, c) {
      AppliedStep(s, c);
      PutBytesSize(s.ram, DecodeHex(c.data));
    } else {
      NotApplied(s, c);
    }
  }

  /** The next chunk in order, short of a word: it is only buffered. */
  lemma {:induction false} BehindShort(s: Sys, c: Request, image: seq<byte>)
    requires Behind(s.ram, image) && Applied(s, c) && !s.ram.abort && GoesOn(c, s.ram.nextSeq)
    requires |s.ram.align| + |DecodeHex(c.data)| < 4
    ensures
      var r := Step(s, c).ram;
      && Behind(r, image) && !r.abort && r.nextSeq == s.ram.nextSeq + 1
      && |r.align| == |s.ram.align| + |DecodeHex(c.data)|
  {
    AppliedStep(s, c);
    NoWord(s.ram, DecodeHex(c.data));
  }

  /** The next chunk in order, with enough for a word. */
  lemma {:induction false} BehindLong(s: Sys, c: Request, image: seq<byte>)
    requires Behind(s.ram, image) && Applied(s, c) && !s.ram.abort && GoesOn(c, s.ram.nextSeq)
    requires !GoodLength(|image|) && |image| <= IMAGE_MAX_SIZE
    requires |s.ram.align| + |DecodeHex(c.data)| >= 4
    ensures Step(s, c).ram.size >= |image| + 4
  {
    AppliedStep(s, c);
    BehindInside(s.ram, image);
    hide PageOf, GoodLength, Ahead, DecodeHex, Behind, PutBytes, Applied, GoesOn;
    var rest := FirstWord(s.ram, DecodeHex(c.data), IMAGE_ADDR + |image|);
  }

  lemma {:induction false} BehindInside(r: Ram, image: seq<byte>)
    requires Behind(r, image) && !GoodLength(|image|) && |image| <= IMAGE_MAX_SIZE
    ensures |r.align| < 4 && IMAGE_ADDR + |image| <= r.writeAddr < IMAGE_ADDR + IMAGE_MAX_SIZE
    ensures r.lastErased % PAGE_SIZE == 0 && r.lastErased < PageOf(r.writeAddr) && r.size == |image| + |r.align|
  {
    BehindIsEndangered(r, image);
    PageBelow(r.writeAddr, IMAGE_ADDR + |image|);
    AlignedBelow(r.lastErased);
    hide PageOf, Whole, GoodLength, Crc32.Crc32;
  }

  lemma {:induction false} AlignedBelow(a: int)
    requires (a + PAGE_SIZE) % PAGE_SIZE == 0
    ensures a % PAGE_SIZE == 0
  {
  }

  predicate Skipped(s: Sys, c: Request) {
    if c.Malformed? || c.seqNum < s.ram.nextSeq then Step(s, c) == s
    else Step(s, c).ram == s.ram.(abort := true)
  }

  /** A request that is not the next chunk: a gap aborts, anything else changes nothing. */
  lemma {:induction false} NotNext(s: Sys, c: Request)
    requires !s.ram.abort && !Restarts(c) && !Applied(s, c)
    ensures Skipped(s, c)
  {
    NotApplied(s, c);
  }

  /** How far the receiver's count gets can be told from the requests. */
  lemma {:induction false} SizeExact(s: Sys, image: seq<byte>, reqs: seq<Request>, next: int)
    requires Bounded(s.ram) && Behind(s.ram, image) && !s.ram.abort && next <= s.ram.nextSeq
    requires !GoodLength(|image|) && |image| <= IMAGE_MAX_SIZE
    requires forall c :: c in reqs ==> GoesOn(c, next)
    ensures Run(s, reqs).ram.size < |image| + 4 <==> |s.ram.align| + Brought(s.ram.nextSeq, reqs) < 4
    decreases |reqs|, 0
  {
    if reqs != [] {
      var c, rest := reqs[0], reqs[1..];
      RestGoesOn(reqs, next, s.ram.nextSeq);
      StepBounded(s, c);
      assert Run(s, reqs) == Run(Step(s, c), rest);
      BroughtMore(s.ram.nextSeq, reqs);
      NextOrNot(s, c);
      assert |s.ram.align| < 4;
      hide *;
      if !Applied(s, c) {
        NotNext(s, c);
        SizeNotNext(s, image, c, rest, next);
      } else if |s.ram.align| + |DecodeHex(c.data)| < 4 {
        BehindShort(s, c, image);
        SizeExact(Step(s, c), image, rest, next);
      } else {
        BehindLong(s, c, image);
        StepGrows(s, c);
        SizeGrows(Step(s, c), rest, next);
      }
    }
  }

  lemma {:induction false} SizeNotNext(s: Sys, image: seq<byte>, c: Request, rest: seq<Request>, next: int)
    requires Bounded(s.ram) && Behind(s.ram, image) && !s.ram.abort && next <= s.ram.nextSeq
    requires !GoodLength(|image|) && |image| <= IMAGE_MAX_SIZE
    requires forall e :: e in rest ==> GoesOn(e, next) && !Restarts(e)
    requires Skipped(s, c)
    ensures Run(Step(s, c), rest).ram.size < |image| + 4 <==>
      |s.ram.align| + (if c.Malformed? || c.seqNum < s.ram.nextSeq then Brought(s.ram.nextSeq, rest) else 0) < 4
    decreases |rest|, 1
  {
    if c.Malformed? || c.seqNum < s.ram.nextSeq {
      SizeExact(s, image, rest, next);
    } else {
      AbortIsSticky(Step(s, c), rest);
    }
  }

  lemma {:induction false} RestGoesOn(reqs: seq<Request>, next: int, now: int)
    requires reqs != [] && next <= now && forall c :: c in reqs ==> GoesOn(c, next)
    ensures GoesOn(reqs[0], now) && !Restarts(reqs[0])
    ensures forall e :: e in reqs[1..] ==> GoesOn(e, next) && !Restarts(e)
  {
    assert reqs[0] in reqs;
    forall e | e in reqs[1..] ensures GoesOn(e, next) && !Restarts(e) { assert e in reqs; }
  }

  lemma {:induction false} NextOrNot(s: Sys, c: Request)
    requires !s.ram.abort && !Restarts(c)
    ensures Applied(s, c) <==> c.Chunk? && c.seqNum == s.ram.nextSeq
  {
  }

  lemma {:induction false} StepGrows(s: Sys, c: Request)
    requires Bounded(s.ram) && !Restarts(c)
    ensures Step(s, c).ram.nextSeq >= s.ram.nextSeq
  {
    NextSeqGrows(s, [c]);
    assert Run(s, [c]) == Run(Step(s, c), []);
  }

  lemma {:induction false} BroughtMore(next: int, reqs: seq<Request>)
    requires reqs != []
    ensures Brought(next, reqs) ==
      if reqs[0].Malformed? || reqs[0].seqNum < next then Brought(next, reqs[1..])
      else if reqs[0].seqNum > next then 0
      else |DecodeHex(reqs[0].data)| + Brought(next + 1, reqs[1..])
  {
  }

  /** A last chunk that completes and commits an image. */
  ghost predicate CompletesImage(s: Sys, a: seq<byte>, c: Request) {
    && Staging(s.ram, s.nvm, a) && HeaderErased(s.nvm) && s.nvm.flag != PENDING_MAGIC
    && c.Chunk? && c.last && c.seqNum == s.ram.nextSeq > 0
    && var image := a + DecodeHex(c.data);
       && |image| <= IMAGE_MAX_SIZE && c.totals == Some(Declares(image))
       && (GoodLength(|image|) || TailFits(s.nvm, image))
  }

  lemma {:induction false} CommitTracks(s: Sys, a: seq<byte>, c: Request)
    requires CompletesImage(s, a, c)
    ensures
      var image := a + DecodeHex(c.data);
      var p := Armed(Declares(image), image);
      Inv(Step(s, c), p) && Tracks(Step(s, c), p, image)
  {
    hide Step, Staging, Crc32.Crc32, Flushed, PutBytes, Flush, Endangered, Header, ApplyAll, TailFits, GoodLength;
    var image := a + DecodeHex(c.data);
    StagingBounded(s.ram, s.nvm, a);
    AppliedStep(s, c);
    LastChunk(s.ram, s.nvm, a, c);
    LastChunkFlushes(s.ram, s.nvm, a, c);
    StepBounded(s, c);
    FlushedBehind(ApplyChunk(s.ram, s.nvm, c).ram, image);
    hide ApplyChunk, Handle, Bounded, Whole;
  }

  lemma {:induction false} LastChunkFlushes(r: Ram, m: Nvm, a: seq<byte>, c: Request)
    requires Staging(r, m, a) && HeaderErased(m) && c.Chunk? && c.last
    requires |a| + |DecodeHex(c.data)| <= IMAGE_MAX_SIZE
    ensures
      var image := a + DecodeHex(c.data);
      var r' := ApplyChunk(r, m, c).ram;
      Flushed(r', image) && (Endangered(r', Declares(image)) <==> !GoodLength(|image|))
  {
    hide Staging, PutBytes, Flush, Finish, Flushed, Endangered, GoodLength, Crc32.Crc32;
    var image := a + DecodeHex(c.data);
    var (r1, ops) := PutBytes(r, DecodeHex(c.data));
    DecodedChunk(r, m, a, c);
    EndangeredExact(r1.(nextSeq := r1.nextSeq + 1), ApplyAll(m, ops), image);
  }

  lemma {:induction false} JustFlushed(s: Sys, a: seq<byte>, c: Request)
    requires CompletesImage(s, a, c) && !GoodLength(|a + DecodeHex(c.data)|)
    ensures Behind(Step(s, c).ram, a + DecodeHex(c.data)) && Step(s, c).ram.align == []
  {
    hide Staging, Flushed, TailFits, GoodLength, Crc32.Crc32, ApplyChunk;
    StagingBounded(s.ram, s.nvm, a);
    AppliedStep(s, c);
    LastChunkFlushes(s.ram, s.nvm, a, c);
    AlignedAfterFlush(Step(s, c).ram, a + DecodeHex(c.data));
  }

  lemma {:induction false} AlignedAfterFlush(r: Ram, image: seq<byte>)
    requires Flushed(r, image) && !GoodLength(|image|)
    ensures Behind(r, image) && r.align == []
  {
    FlushedBehind(r, image);
  }

  lemma {:induction false} FlushedBehind(r: Ram, image: seq<byte>)
    requires Flushed(r, image)
    ensures IMAGE_ADDR + |image| <= r.writeAddr && (!GoodLength(|image|) ==> Behind(r, image))
  {
    if !GoodLength(|image|) {
      assert (r.lastErased + PAGE_SIZE) % PAGE_SIZE == 0;
    }
  }

  lemma {:induction false} StagingBounded(r: Ram, m: Nvm, a: seq<byte>)
    requires Staging(r, m, a) && r.nextSeq >= 0
    ensures Bounded(r) && !r.abort
  {
  }

  /**
   After a commit, whatever requests follow without a new chunk 0 or a new last chunk, resends of
   any chunk of the upload included: the flag stays set over the declared totals, and the staged bytes
   match them if and only if the length is good, or the chunks that arrive in order bring fewer than
   four bytes, or the one to three bytes past the page boundary are 0xFF.
   */
  lemma {:induction false} CommitSurvivesExact(s: Sys, a: seq<byte>, c: Request, reqs: seq<Request>)
    requires CompletesImage(s, a, c)
    requires forall e :: e in reqs ==> !Restarts(e) && (e.Chunk? && e.last ==> e.seqNum <= c.seqNum)
    ensures
      var image := a + DecodeHex(c.data);
      var k := Run(Step(s, c), reqs);
      && k.nvm.flag == PENDING_MAGIC && Declared(k.nvm, Declares(image))
      && (HeaderMatches(k.nvm, Declares(image)) <==>
        GoodLength(|image|) || Brought(c.seqNum + 1, reqs) < 4 ||
        forall i :: Whole(|image|) <= i < |image| ==> image[i] == 0xFF)
  {
    var image := a + DecodeHex(c.data);
    var p := Armed(Declares(image), image);
    CommitTracks(s, a, c);
    CommitAdvances(s, a, c);
    forall e | e in reqs ensures GoesOn(e, c.seqNum + 1) {}
    var s1 := Step(s, c);
    hide Step, Crc32.Crc32, Brought, GoodLength, GoesOn, DecodeHex;
    TrackRun(s1, p, image, reqs, c.seqNum + 1);
    if !GoodLength(|image|) {
      JustFlushed(s, a, c);
      SizeExact(s1, image, reqs, c.seqNum + 1);
    }
    var k, q := Run(s1, reqs), PhaseRun(p, s1, reqs);
    if q.Blanked? {
      BlankedExact(k.nvm, q.totals, image, q.from);
    }
  }

  /** One more chunk of four bytes or more after an image of bad length: the update is lost. */
  lemma {:induction false} LateChunkLosesUpdate(s: Sys, a: seq<byte>, c: Request, e: Request, i: nat)
    requires CompletesImage(s, a, c)
    requires
      var image := a + DecodeHex(c.data);
      !GoodLength(|image|) && Whole(|image|) <= i < |image| && image[i] != 0xFF
    requires e.Chunk? && !e.last && e.seqNum == s.ram.nextSeq + 1 && |DecodeHex(e.data)| >= 4
    ensures
      var image := a + DecodeHex(c.data);
      var m := Step(Step(s, c), e).nvm;
      && HeaderMatches(Step(s, c).nvm, Declares(image))
      && m.flag == PENDING_MAGIC && !HeaderMatches(m, Declares(image)) && Decide(m) == Reject
  {
    hide Step, Crc32.Crc32, Inv, Late, Declared, Behind;
    var image := a + DecodeHex(c.data);
    var t := Declares(image);
    var s1 := Step(s, c);
    CommitTracks(s, a, c);
    CommitAdvances(s, a, c);
    BehindIsEndangered(s1.ram, image);
    InvHolds(s1, t, image);
    MiddleEndsNothing(s1, e);
    ItIsLate(s1.ram, t, e);
    LateStep(s1, e, t, image);
    BlankedHolds(Step(s1, e), t, image, PageOf(s1.ram.writeAddr));
    BlankedExact(Step(s1, e).nvm, t, image, PageOf(s1.ram.writeAddr));
    MismatchIsRejected(Step(s1, e).nvm, t);
  }

  lemma {:induction false} ItIsLate(r: Ram, t: Totals, e: Request)
    requires Endangered(r, t) && e.Chunk? && |DecodeHex(e.data)| >= 4
    ensures Late(r, t, e)
  {
  }

  lemma {:induction false} InvHolds(s: Sys, t: Totals, image: seq<byte>)
    requires Inv(s, Armed(t, image))
    ensures HeaderMatches(s.nvm, t) && Bounded(s.ram)
  {
  }

  lemma {:induction false} BlankedHolds(s: Sys, t: Totals, image: seq<byte>, from: nat)
    requires Inv(s, Blanked(t, image, from))
    ensures HoldsBlank(s.nvm, t, image, from) && Declared(s.nvm, t) && s.nvm.flag == PENDING_MAGIC
  {
  }

  lemma {:induction false} CommitAdvances(s: Sys, a: seq<byte>, c: Request)
    requires CompletesImage(s, a, c)
    ensures Step(s, c).ram.nextSeq == s.ram.nextSeq + 1 && !Step(s, c).ram.abort
  {
    hide Crc32.Crc32, Header, ApplyAll, TailFits, GoodLength, ApplyChunk;
    StagingBounded(s.ram, s.nvm, a);
    AppliedStep(s, c);
    LastChunk(s.ram, s.nvm, a, c);
  }

  function Zeros(n: nat): (d: seq<byte>)
    ensures |d| == n
  {
    seq(n, _ => 0 as byte)
  }

  /** n zero bytes in hexadecimal. */
  function ZeroDigits(n: nat): string {
    seq(2 * n, _ => '0')
  }

  lemma {:induction false} ZerosSpelled(n: nat)
    ensures Spells(ZeroDigits(n), Zeros(n))
  {
    if n > 0 {
      ZeroHalves();
      assert ZeroDigits(n)[2..] == ZeroDigits(n - 1) && Zeros(n)[1..] == Zeros(n - 1);
      ZerosSpelled(n - 1);
    }
  }

  lemma {:induction false} ZeroHalves()
    ensures DigitFor('0', (0 as byte) >> 4) && DigitFor('0', (0 as byte) & 0xF)
  {
  }

  lemma {:induction false} ZerosDecode(n: nat)
    ensures DecodeHex(ZeroDigits(n)) == Zeros(n)
  {
    ZerosSpelled(n);
    DecodeSpelled(ZeroDigits(n), Zeros(n));
  }

  /**
   A run in which this happens, on any memory: 16385 zero bytes in two chunks, committed, and one
   more chunk of four zero bytes.
   */
  lemma {:induction false} LateChunkRun(m: Nvm)
    requires m.flag != PENDING_MAGIC
    ensures
      var image := Zeros(PAGE_SIZE + 1);
      var c0 := Chunk(0, false, ZeroDigits(PAGE_SIZE), None);
      var c1 := Chunk(1, true, ZeroDigits(1), Some(Declares(image)));
      var c2 := Chunk(2, false, ZeroDigits(4), None);
      var committed := Step(Step(Sys(POWER_UP, m), c0), c1).nvm;
      var late := Step(Step(Step(Sys(POWER_UP, m), c0), c1), c2).nvm;
      && HeaderMatches(committed, Declares(image))
      && late.flag == PENDING_MAGIC && !HeaderMatches(late, Declares(image)) && Decide(late) == Reject
  {
    hide Step, DecodeHex, ZeroDigits, HeaderMatches, Crc32.Crc32;
    var a, image := Zeros(PAGE_SIZE), Zeros(PAGE_SIZE + 1);
    var c1 := Chunk(1, true, ZeroDigits(1), Some(Declares(image)));
    var c2 := Chunk(2, false, ZeroDigits(4), None);
    ZerosDecode(PAGE_SIZE);
    ZerosDecode(1);
    ZerosDecode(4);
    assert a + Zeros(1) == image;
    var s := FirstChunk(m, a, Chunk(0, false, ZeroDigits(PAGE_SIZE), None));
    ZeroTailFits(s.nvm, image);
    assert Whole(PAGE_SIZE + 1) == PAGE_SIZE && !GoodLength(PAGE_SIZE + 1);
    LateChunkLosesUpdate(s, a, c1, c2, PAGE_SIZE);
  }

  lemma {:induction false} ZeroTailFits(m: Nvm, image: seq<byte>)
    requires |image| <= IMAGE_MAX_SIZE && forall i :: 0 <= i < |image| ==> image[i] == 0
    ensures TailFits(m, image)
  {
    forall i | Whole(|image|) <= i < |image| ensures m.flash[IMAGE_ADDR + i] & image[i] == image[i] {
      ZeroCellFits(m.flash[IMAGE_ADDR + i]);
    }
  }

  lemma {:induction false} ZeroCellFits(b: byte) ensures b & 0 == 0 {}

  lemma {:induction false} FirstChunk(m: Nvm, a: seq<byte>, c: Request) returns (s: Sys)
    requires m.flag != PENDING_MAGIC && Restarts(c) && !c.last && DecodeHex(c.data) == a && |a| <= IMAGE_MAX_SIZE
    ensures s == Step(Sys(POWER_UP, m), c) && s.ram.nextSeq == 1
    ensures Staging(s.ram, s.nvm, a) && HeaderErased(s.nvm) && s.nvm.flag == m.flag
  {
    hide PutBytes, Staging;
    var m0 := ApplyAll(m, BEGIN_OPS);
    s := Step(Sys(POWER_UP, m), c);
    BeginStages(m);
    DecodedChunk(Begun(), m0, [], c);
    assert [] + a == a;
    AppliedStep(Sys(POWER_UP, m), c);
  }
}
