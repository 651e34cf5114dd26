/**
 Commit ordering: the pending flag is raised only after a complete header, and the header
 only over staged bytes whose checksum is the one the client declared, whatever the point at
 which power fails.
 */
module OtaCommit {
  import opened Common
  import opened Crc32
  import opened Nvm
  import opened OtaUpload
  import opened OtaOrdering
  import opened OtaBoot

  /** The header carries the totals t. */
  ghost predicate Declared(m: Nvm, t: Totals) {
    t.len <= IMAGE_MAX_SIZE && m.flash[HEADER_ADDR..HEADER_ADDR + HEADER_SIZE] == Header(t.len, t.crc)
  }

  /** The memory holds a header with the totals t and staged bytes that match it. */
  ghost predicate HeaderMatches(m: Nvm, t: Totals) {
    Declared(m, t) && Crc32.Crc32(Staged(m, t.len)) == t.crc
  }

  predicate Commits(s: Sys, c: Request) {
    EndsInFlag(Handle(s.ram, s.nvm, c).ops)
  }

  /**
   How far the upload has come.  Open: nothing committed.  Armed: a last chunk was accepted with these
   totals, over these staged bytes.  Blanked: after that, the client went on with chunks that completed a
   word in the page holding the end of the image, which erased the image from address from on.
   Restarted: a chunk 0 has erased the header under a flag that is still set.  Doubled: another last
   chunk was accepted without a chunk 0 before it; programming one header over another leaves
   the bits they have in common.
   */
  datatype Phase =
    | Open
    | Armed(totals: Totals, image: seq<byte>)
    | Blanked(totals: Totals, image: seq<byte>, from: nat)
    | Restarted
    | Doubled(header: seq<byte>)

  /** What programming b over a leaves. */
  function Anded(a: seq<byte>, b: seq<byte>): (r: seq<byte>)
    requires |a| == |b|
    ensures |r| == |a|
  {
    seq(|a|, i requires 0 <= i < |a| => a[i] & b[i])
  }

  ghost predicate HeaderIs(m: Nvm, h: seq<byte>) {
    m.flash[HEADER_ADDR..HEADER_ADDR + HEADER_SIZE] == h
  }

  /** The header in flash once a last chunk has been accepted. */
  function HeaderOf(p: Phase): seq<byte> {
    match p
    case Armed(t, _) => if t.len <= IMAGE_MAX_SIZE then Header(t.len, t.crc) else []
    case Blanked(t, _, _) => if t.len <= IMAGE_MAX_SIZE then Header(t.len, t.crc) else []
    case Doubled(h) => h
    case _ => []
  }

  /** The next page to be erased holds the end of the image: only a flush can bring this about. */
  predicate Endangered(r: Ram, t: Totals) {
    r.lastErased < PageOf(r.writeAddr) < IMAGE_ADDR + t.len
  }

  /** The chunk completes a word while the image is endangered. */
  predicate Late(r: Ram, t: Totals, c: Request)
    requires c.Chunk?
  {
    Endangered(r, t) && |r.align| + |DecodeHex(c.data)| >= 4
  }

  predicate Ends(s: Sys, c: Request) {
    Applied(s, c) && (Restarts(c) || Commits(s, c))
  }

  /** An applied chunk finds the header page erased, or erases it. */
  predicate OnErased(p: Phase, c: Request) {
    p.Open? || p.Restarted? || Restarts(c)
  }

  function PhaseStep(p: Phase, s: Sys, c: Request): Phase {
    if !Applied(s, c) then p
    else if Commits(s, c) then
      if c.totals.None? || c.totals.value.len > IMAGE_MAX_SIZE then p
      else if OnErased(p, c) then Armed(c.totals.value, Staged(Step(s, c).nvm, c.totals.value.len))
      else if |HeaderOf(p)| != HEADER_SIZE then p
      else Doubled(Anded(HeaderOf(p), Header(c.totals.value.len, c.totals.value.crc)))
    else if Restarts(c) && !p.Open? then Restarted
    else if p.Armed? && Late(s.ram, p.totals, c) then Blanked(p.totals, p.image, PageOf(s.ram.writeAddr))
    else p
  }

  function PhaseRun(p: Phase, s: Sys, reqs: seq<Request>): Phase
    decreases |reqs|
  {
    if reqs == [] then p else PhaseRun(PhaseStep(p, s, reqs[0]), Step(s, reqs[0]), reqs[1..])
  }

  /** The image with everything from byte k on erased. */
  function Blank(image: seq<byte>, k: nat): (b: seq<byte>)
    requires k <= |image|
    ensures |b| == |image|
  {
    image[..k] + seq(|image| - k, _ => 0xFF as byte)
  }

  ghost predicate HeaderErased(m: Nvm) {
    forall i :: HEADER_ADDR <= i < IMAGE_ADDR ==> m.flash[i] == 0xFF
  }

  ghost predicate Inv(s: Sys, p: Phase) {
    && Bounded(s.ram)
    && match p
       case Open => s.nvm.flag != PENDING_MAGIC && (s.ram.nextSeq > 0 ==> HeaderErased(s.nvm))
       case Armed(t, image) =>
         s.nvm.flag == PENDING_MAGIC && Holds(s.nvm, t, image)
         && s.ram.nextSeq > 0 && (!s.ram.abort ==> IMAGE_ADDR + t.len <= s.ram.writeAddr)
       case Blanked(t, image, from) =>
         s.nvm.flag == PENDING_MAGIC && HoldsBlank(s.nvm, t, image, from)
         && s.ram.nextSeq > 0 && (!s.ram.abort ==> Ahead(s.ram, IMAGE_ADDR + t.len))
       case Restarted => s.nvm.flag == PENDING_MAGIC && HeaderErased(s.nvm)
       case Doubled(h) => s.nvm.flag == PENDING_MAGIC && HeaderIs(s.nvm, h)
  }

  /** The header declares exactly the staged bytes. */
  ghost predicate Holds(m: Nvm, t: Totals, image: seq<byte>) {
    Declared(m, t) && Staged(m, t.len) == image && Crc32.Crc32(image) == t.crc
  }

  ghost predicate HoldsBlank(m: Nvm, t: Totals, image: seq<byte>, from: nat) {
    && Declared(m, t) && |image| == t.len && Crc32.Crc32(image) == t.crc
    && IMAGE_ADDR <= from < IMAGE_ADDR + t.len && Staged(m, t.len) == Blank(image, from - IMAGE_ADDR)
  }

  predicate OnHeader(op: Op) {
    match op
    case Erase(page) => page == HEADER_ADDR
    case Program(addr, _) => addr == HEADER_ADDR
    case SetFlag(_, _) => false
  }

  /** Power failed in the middle of an erase of the header page, or while the header was programmed. */
  ghost predicate HeaderTorn(m: Nvm, ops: seq<Op>, n: Nvm) {
    exists k :: 0 <= k < |ops| && OnHeader(ops[k]) && Torn(ApplyAll(m, ops[..k]), ops[k], n)
  }

  /** The chunk works on the header page while the flag is set, or finds it erased. */
  predicate Reopens(p: Phase, s: Sys, c: Request) {
    Applied(s, c) && (p.Restarted? || (Restarts(c) && !p.Open?))
  }

  /** The chunk is a last chunk accepted over a header that is there. */
  predicate Doubles(p: Phase, s: Sys, c: Request) {
    Applied(s, c) && Commits(s, c) && !OnErased(p, c)
  }

  /** What a crash inside request c may leave behind under a set flag. */
  ghost predicate CrashSafe(p: Phase, s: Sys, c: Request, n: Nvm) {
    var q := PhaseStep(p, s, c);
    n.flag == PENDING_MAGIC ==>
      if Reopens(p, s, c) then
        || HeaderErased(n) || HeaderTorn(s.nvm, Handle(s.ram, s.nvm, c).ops, n)
        || (q.Armed? && Holds(n, q.totals, q.image))
      else if Doubles(p, s, c) then
        || HeaderIs(n, HeaderOf(p)) || HeaderTorn(s.nvm, Handle(s.ram, s.nvm, c).ops, n)
        || HeaderIs(n, HeaderOf(q))
      else
        match q
        case Open => false
        case Armed(t, image) => Holds(n, t, image)
        case Blanked(t, image, from) => Declared(n, t) && KeepsBelow(n, image, from)
        case Restarted => HeaderErased(n)
        case Doubled(h) => HeaderIs(n, h)
  }

  /** The staging region still holds the image below address from. */
  ghost predicate KeepsBelow(n: Nvm, image: seq<byte>, from: nat) {
    IMAGE_ADDR <= from < IMAGE_ADDR + |image| <= FLASH_SIZE && n.flash[IMAGE_ADDR..from] == image[..from - IMAGE_ADDR]
  }

  lemma {:induction false} DeclaredFrame(m: Nvm, n: Nvm, t: Totals)
    requires Declared(m, t)
    requires forall i :: HEADER_ADDR <= i < IMAGE_ADDR ==> n.flash[i] == m.flash[i]
    ensures Declared(n, t)
  {
    hide Header;
    SameRange(m, n, HEADER_ADDR, HEADER_ADDR + HEADER_SIZE);
  }

  lemma {:induction false} HoldsFrame(m: Nvm, n: Nvm, t: Totals, image: seq<byte>)
    requires Holds(m, t, image)
    requires forall i :: HEADER_ADDR <= i < IMAGE_ADDR + t.len ==> n.flash[i] == m.flash[i]
    ensures Holds(n, t, image)
  {
    hide Crc32.Crc32, Header;
    DeclaredFrame(m, n, t);
    SameRange(m, n, IMAGE_ADDR, IMAGE_ADDR + t.len);
  }

  lemma {:induction false} WriteHeader(m: Nvm, h: seq<byte>, len: nat)
    requires HeaderErased(m) && |h| == HEADER_SIZE && len <= IMAGE_MAX_SIZE
    ensures
      var n := Apply(m, Program(HEADER_ADDR, h));
      n.flash[HEADER_ADDR..HEADER_ADDR + HEADER_SIZE] == h && Staged(n, len) == Staged(m, len)
  {
    ProgramIntoErased(m, HEADER_ADDR, h);
    SameRange(m, Apply(m, Program(HEADER_ADDR, h)), IMAGE_ADDR, IMAGE_ADDR + len);
  }

  /** The commit, cut anywhere: unless the header itself is torn, it stands over the staged bytes. */
  lemma {:induction false} CommitSafe(m: Nvm, t: Totals, n: Nvm)
    requires HeaderErased(m) && t.len <= IMAGE_MAX_SIZE && Crc32.Crc32(Staged(m, t.len)) == t.crc
    ensures
      var op := Program(HEADER_ADDR, Header(t.len, t.crc));
      var ops := [op, SetFlag(PENDING_MAGIC, t.len)];
      && (CrashState(m, ops, n) ==> Torn(m, op, n) || Holds(n, t, Staged(m, t.len)))
      && ApplyAll(m, ops).flag == PENDING_MAGIC && Holds(ApplyAll(m, ops), t, Staged(m, t.len))
  {
    var op1, op2 := Program(HEADER_ADDR, Header(t.len, t.crc)), SetFlag(PENDING_MAGIC, t.len);
    var m1 := Apply(m, op1);
    var image := Staged(m, t.len);
    WriteHeader(m, Header(t.len, t.crc), t.len);
    HoldsFrame(m1, Apply(m1, op2), t, image);
    ApplyTwo(m, op1, op2);
    if CrashState(m, [op1, op2], n) && !Torn(m, op1, n) {
      CrashOfTwo(m, op1, op2, n);
      HoldsFrame(m1, n, t, image);
    }
  }

  lemma {:induction false} CrashOfTwo(m: Nvm, op1: Op, op2: Op, n: Nvm)
    requires CrashState(m, [op1, op2], n) && op1.Program? && op2.SetFlag?
    ensures Torn(m, op1, n) || n.flash == Apply(m, op1).flash
  {
    var m1 := Apply(m, op1);
    assert [op1, op2][1..] == [op2] && [op2][1..] == [];
    assert CrashState(m1, [op2], n) ==> Torn(m1, op2, n) || CrashState(Apply(m1, op2), [], n);
    if Torn(m1, op2, n) {
      assert n.flash == m1.flash;
    }
  }

  /** Whatever phase it comes in, a chunk 0 leaves the header page erased and the flag as it was. */
  lemma {:induction false} BeginErases(m: Nvm)
    ensures HeaderErased(ApplyAll(m, BEGIN_OPS)) && ApplyAll(m, BEGIN_OPS).flag == m.flag
  {
    var m1 := Apply(m, Erase(HEADER_ADDR));
    assert BEGIN_OPS[1..] == [Erase(IMAGE_ADDR)];
    assert ApplyAll(m1, [Erase(IMAGE_ADDR)]) == Apply(m1, Erase(IMAGE_ADDR));
  }

  lemma {:induction false} BeginCrash(m: Nvm, n: Nvm)
    requires CrashState(m, BEGIN_OPS, n)
    ensures n.flag == m.flag && (Torn(m, Erase(HEADER_ADDR), n) || HeaderErased(n))
  {
    CrashOnlyAbove(m, BEGIN_OPS, HEADER_ADDR, n);
    var m1 := Apply(m, Erase(HEADER_ADDR));
    assert HeaderErased(m1);
    assert BEGIN_OPS[1..] == [Erase(IMAGE_ADDR)];
    if CrashState(m1, [Erase(IMAGE_ADDR)], n) {
      CrashOnlyAbove(m1, [Erase(IMAGE_ADDR)], IMAGE_ADDR, n);
    }
  }

  lemma {:induction false} EntryErased(s: Sys, p: Phase, c: Request)
    requires Inv(s, p) && Applied(s, c) && OnErased(p, c)
    ensures HeaderErased(Entry(s, c).nvm) && Entry(s, c).nvm.flag == s.nvm.flag
  {
    BeginErases(s.nvm);
  }

  lemma {:induction false} TornLater(m: Nvm, begin: seq<Op>, ops: seq<Op>, n: Nvm)
    requires HeaderTorn(ApplyAll(m, begin), ops, n)
    ensures HeaderTorn(m, begin + ops, n)
  {
    hide ApplyAll, Torn, OnHeader;
    var k :| 0 <= k < |ops| && OnHeader(ops[k]) && Torn(ApplyAll(ApplyAll(m, begin), ops[..k]), ops[k], n);
    TornAt(m, begin, ops, k, n);
  }

  lemma {:induction false} TornAt(m: Nvm, begin: seq<Op>, ops: seq<Op>, k: nat, n: Nvm)
    requires k < |ops| && OnHeader(ops[k]) && Torn(ApplyAll(ApplyAll(m, begin), ops[..k]), ops[k], n)
    ensures HeaderTorn(m, begin + ops, n)
  {
    hide ApplyAll, Torn, OnHeader;
    ApplyAllConcat(m, begin, ops[..k]);
    var i := |begin| + k;
    assert (begin + ops)[..i] == begin + ops[..k];
    assert (begin + ops)[i] == ops[k];
  }

  lemma {:induction false} TornFirst(m: Nvm, ops: seq<Op>, n: Nvm)
    requires ops != [] && OnHeader(ops[0]) && Torn(m, ops[0], n)
    ensures HeaderTorn(m, ops, n)
  {
    hide Torn;
    assert ops[..0] == [];
    assert ApplyAll(m, []) == m;
  }

  /** What a crash may leave behind once the header page is erased. */
  ghost predicate ErasedSafe(m: Nvm, ops: seq<Op>, n: Nvm, t: Option<Totals>, image: seq<byte>) {
    && (n.flag == PENDING_MAGIC && m.flag != PENDING_MAGIC ==> t.Some? && Holds(n, t.value, image))
    && (HeaderErased(n) || HeaderTorn(m, ops, n) || (t.Some? && Holds(n, t.value, image)))
  }

  /** The two parts of an applied chunk, on a memory whose header page is erased. */
  lemma {:induction false} OpenParts(m: Nvm, ops: seq<Op>, commit: seq<Op>, r: Ram, c: Request)
    requires c.Chunk? && OnlyAbove(ops, IMAGE_ADDR)
    requires commit == [] || CommitOps(r, ApplyAll(m, ops), c, commit)
    requires HeaderErased(m)
    ensures EndsInFlag(ops + commit) <==> commit != []
    ensures commit == [] ==>
      var k := ApplyAll(m, ops + commit); HeaderErased(k) && k.flag == m.flag
    ensures commit != [] ==>
      var k, t := ApplyAll(m, ops + commit), c.totals.value;
      k.flag == PENDING_MAGIC && Holds(k, t, Staged(k, t.len))
  {
    var m1 := ApplyAll(m, ops);
    RunOnlyAbove(m, ops, IMAGE_ADDR);
    assert HeaderErased(m1);
    ApplyAllConcat(m, ops, commit);
    assert commit == [] ==> ops + commit == ops;
    assert ops != [] ==> ops[|ops| - 1] in ops;
    if commit != [] { CommitSafe(m1, c.totals.value, m1); }
  }

  lemma {:induction false} OpenCrash(m: Nvm, ops: seq<Op>, commit: seq<Op>, r: Ram, c: Request, n: Nvm)
    requires c.Chunk? && OnlyAbove(ops, IMAGE_ADDR) && HeaderErased(m) && CrashState(m, ops + commit, n)
    requires commit == [] || CommitOps(r, ApplyAll(m, ops), c, commit)
    ensures commit == [] ==> ErasedSafe(m, ops + commit, n, None, [])
    ensures commit != [] ==>
      var k, t := ApplyAll(m, ops + commit), c.totals.value;
      ErasedSafe(m, ops + commit, n, c.totals, Staged(k, t.len))
  {
    OpenParts(m, ops, commit, r, c);
    CrashConcat(m, ops, commit, n);
    RunOnlyAbove(m, ops, IMAGE_ADDR);
    if CrashState(m, ops, n) {
      CrashOnlyAbove(m, ops, IMAGE_ADDR, n);
    } else if commit != [] {
      CommitCrash(m, ops, commit, r, c, n);
    }
  }

  lemma {:induction false} CommitCrash(m: Nvm, ops: seq<Op>, commit: seq<Op>, r: Ram, c: Request, n: Nvm)
    requires c.Chunk? && HeaderErased(ApplyAll(m, ops)) && ApplyAll(m, ops).flag == m.flag
    requires CommitOps(r, ApplyAll(m, ops), c, commit) && CrashState(ApplyAll(m, ops), commit, n)
    ensures
      var k, t := ApplyAll(m, ops + commit), c.totals.value;
      ErasedSafe(m, ops + commit, n, c.totals, Staged(k, t.len))
  {
    var m1, t := ApplyAll(m, ops), c.totals.value;
    ApplyAllConcat(m, ops, commit);
    CommitSafe(m1, t, n);
    hide ApplyAll, CrashState, Holds, HeaderErased, Header, Crc32.Crc32;
    SameStaged(ApplyAll(m1, commit), m1, t);
    if Torn(m1, commit[0], n) {
      TornFirst(m1, commit, n);
      TornLater(m, ops, commit, n);
    }
  }

  lemma {:induction false} SameStaged(k: Nvm, m: Nvm, t: Totals)
    requires t.len <= IMAGE_MAX_SIZE && Holds(k, t, Staged(m, t.len))
    ensures Staged(k, t.len) == Staged(m, t.len)
  {
    hide Staged, Declared;
  }

  lemma {:induction false} OpenChunk(e: Sys, c: Request)
    requires c.Chunk? && Ahead(e.ram, IMAGE_ADDR) && e.ram.nextSeq >= 0
    requires e.ram.size <= e.ram.writeAddr - IMAGE_ADDR + |e.ram.align|
    requires HeaderErased(e.nvm)
    ensures
      var o := ApplyChunk(e.ram, e.nvm, c);
      var k := ApplyAll(e.nvm, o.ops);
      if EndsInFlag(o.ops) then
        && c.totals.Some? && k.flag == PENDING_MAGIC && c.totals.value.len <= IMAGE_MAX_SIZE
        && Holds(k, c.totals.value, Staged(k, c.totals.value.len))
        && o.ram.nextSeq > 0 && (!o.ram.abort ==> IMAGE_ADDR + c.totals.value.len <= o.ram.writeAddr)
        && forall n :: CrashState(e.nvm, o.ops, n) ==>
          ErasedSafe(e.nvm, o.ops, n, c.totals, Staged(k, c.totals.value.len))
      else
        && k.flag == e.nvm.flag && HeaderErased(k)
        && forall n :: CrashState(e.nvm, o.ops, n) ==> ErasedSafe(e.nvm, o.ops, n, None, [])
  {
    var o := ApplyChunk(e.ram, e.nvm, c);
    ApplyChunkShape(e.ram, e.nvm, c, IMAGE_ADDR);
    hide ApplyChunk, ErasedSafe, HeaderErased, Holds, ApplyAll, CrashState, OnlyAbove;
    var ops, commit :| o.ops == ops + commit && OnlyAbove(ops, IMAGE_ADDR)
      && (commit == [] || CommitOps(o.ram, ApplyAll(e.nvm, ops), c, commit));
    OpenParts(e.nvm, ops, commit, o.ram, c);
    forall n | CrashState(e.nvm, o.ops, n)
      ensures commit == [] ==> ErasedSafe(e.nvm, o.ops, n, None, [])
      ensures commit != [] ==>
        ErasedSafe(e.nvm, o.ops, n, c.totals, Staged(ApplyAll(e.nvm, o.ops), c.totals.value.len))
    {
      OpenCrash(e.nvm, ops, commit, o.ram, c, n);
    }
  }

  /** An applied chunk on an erased header page, whether or not the flag is set. */
  lemma {:induction false} OpenStep(s: Sys, p: Phase, c: Request)
    requires Inv(s, p) && Applied(s, c) && OnErased(p, c)
    ensures Inv(Step(s, c), PhaseStep(p, s, c))
    ensures forall n :: CrashState(s.nvm, Handle(s.ram, s.nvm, c).ops, n) ==> CrashSafe(p, s, c, n)
  {
    hide ApplyChunk, Handle, Holds, Step, ErasedSafe, HeaderErased, CrashState, ApplyAll, CrashSafe;
    var e := Entry(s, c);
    var o := ApplyChunk(e.ram, e.nvm, c);
    AppliedStep(s, c);
    EntryAhead(s, c);
    EntryErased(s, p, c);
    StepBounded(s, c);
    OpenChunk(e, c);
    BeginsNoFlag(if c.seqNum == 0 then BEGIN_OPS else [], o.ops);
    forall n | CrashState(s.nvm, Handle(s.ram, s.nvm, c).ops, n) ensures CrashSafe(p, s, c, n) {
      OpenCrashSafe(s, p, c, n);
    }
  }

  lemma {:induction false} EntryMemory(s: Sys, c: Request)
    requires c.Chunk?
    ensures Entry(s, c).nvm == ApplyAll(s.nvm, if c.seqNum == 0 then BEGIN_OPS else [])
  {
  }

  /** The erases of a chunk 0 come before what the chunk itself does. */
  lemma {:induction false} OpenCrashSafe(s: Sys, p: Phase, c: Request, n: Nvm)
    requires Inv(s, p) && Applied(s, c) && OnErased(p, c)
    requires CrashState(s.nvm, Handle(s.ram, s.nvm, c).ops, n)
    requires Entry(s, c).nvm.flag == s.nvm.flag
    requires
      var e, q := Entry(s, c), PhaseStep(p, s, c);
      var o := ApplyChunk(e.ram, e.nvm, c);
      CrashState(e.nvm, o.ops, n) ==>
        if q.Armed? then ErasedSafe(e.nvm, o.ops, n, Some(q.totals), q.image)
        else ErasedSafe(e.nvm, o.ops, n, None, [])
    ensures CrashSafe(p, s, c, n)
  {
    var e := Entry(s, c);
    var o := ApplyChunk(e.ram, e.nvm, c);
    var begin := if c.seqNum == 0 then BEGIN_OPS else [];
    AppliedStep(s, c);
    hide ApplyChunk, Handle, Holds, Step, HeaderErased, ApplyAll, HeaderTorn;
    CrashConcat(s.nvm, begin, o.ops, n);
    if CrashState(e.nvm, o.ops, n) {
      if HeaderTorn(e.nvm, o.ops, n) {
        EntryMemory(s, c);
        TornLater(s.nvm, begin, o.ops, n);
      }
    } else if c.seqNum == 0 {
      BeginCrash(s.nvm, n);
      if Torn(s.nvm, Erase(HEADER_ADDR), n) { TornFirst(s.nvm, begin + o.ops, n); }
    }
  }

  lemma {:induction false} BeginsNoFlag(begin: seq<Op>, ops: seq<Op>)
    requires begin == BEGIN_OPS || begin == []
    ensures EndsInFlag(begin + ops) == EndsInFlag(ops)
  {
  }

  /** Operations above the committed image leave it alone, wherever they are cut. */
  lemma {:induction false} ArmedFrame(m: Nvm, ops: seq<Op>, t: Totals, image: seq<byte>)
    requires Holds(m, t, image) && OnlyAbove(ops, IMAGE_ADDR + t.len)
    ensures Holds(ApplyAll(m, ops), t, image) && ApplyAll(m, ops).flag == m.flag
    ensures forall n :: CrashState(m, ops, n) ==> Holds(n, t, image)
  {
    var lo := IMAGE_ADDR + t.len;
    forall n | CrashState(m, ops, n) ensures Holds(n, t, image) && n.flag == m.flag {
      CrashOnlyAbove(m, ops, lo, n);
      HoldsFrame(m, n, t, image);
    }
    CompletedIsCrashState(m, ops);
  }

  /** An applied chunk that does not commit and is not late. */
  lemma {:induction false} ArmedStep(s: Sys, c: Request, t: Totals, image: seq<byte>)
    requires Inv(s, Armed(t, image)) && Applied(s, c) && !Ends(s, c) && !Late(s.ram, t, c)
    ensures Inv(Step(s, c), Armed(t, image))
    ensures forall n :: CrashState(s.nvm, Handle(s.ram, s.nvm, c).ops, n) ==> Holds(n, t, image)
  {
    var lo := IMAGE_ADDR + t.len;
    var o := ApplyChunk(s.ram, s.nvm, c);
    AppliedStep(s, c);
    assert [] + o.ops == o.ops;
    EntryAhead(s, c);
    StepBounded(s, c);
    if Endangered(s.ram, t) {
      ShortChunk(s.ram, s.nvm, c, lo);
      ApplyChunkShape(s.ram, s.nvm, c, IMAGE_ADDR);
    } else {
      ApplyChunkShape(s.ram, s.nvm, c, lo);
      StagesOnly(o, s.nvm, c, lo);
    }
    hide ApplyChunk, Holds;
    ArmedFrame(s.nvm, o.ops, t, image);
  }

  /** The erase that a late word needs, and the words after it. */
  lemma {:induction false} BlankedFrame(m: Nvm, rest: seq<Op>, t: Totals, image: seq<byte>, from: nat)
    requires Holds(m, t, image) && OnlyAbove(rest, IMAGE_ADDR + t.len)
    requires IMAGE_ADDR <= from < IMAGE_ADDR + t.len <= from + PAGE_SIZE
    ensures
      var k := ApplyAll(m, [Erase(from)] + rest);
      HoldsBlank(k, t, image, from) && k.flag == m.flag
    ensures forall n :: CrashState(m, [Erase(from)] + rest, n) ==> Declared(n, t) && KeepsBelow(n, image, from)
  {
    var ops := [Erase(from)] + rest;
    EraseThenRest(m, rest, IMAGE_ADDR + t.len, from);
    var k := ApplyAll(m, ops);
    hide ApplyAll, OnlyAbove, CrashState, Crc32.Crc32, Header, KeepsBelow, Blank;
    DeclaredFrame(m, k, t);
    BlankStaged(m, k, image, from);
    forall n | CrashState(m, ops, n) ensures Declared(n, t) && KeepsBelow(n, image, from) {
      BlankedCrash(m, ops, t, image, from, n);
    }
  }

  lemma {:induction false} BlankedCrash(m: Nvm, ops: seq<Op>, t: Totals, image: seq<byte>, from: nat, n: Nvm)
    requires Holds(m, t, image) && OnlyAbove(ops, from) && CrashState(m, ops, n)
    requires IMAGE_ADDR <= from < IMAGE_ADDR + t.len
    ensures Declared(n, t) && KeepsBelow(n, image, from)
  {
    hide OnlyAbove, CrashState, Crc32.Crc32, Header;
    CrashOnlyAbove(m, ops, from, n);
    DeclaredFrame(m, n, t);
    KeptBelow(m, n, image, from);
  }

  /** An erase of the page at from, and operations that stay above lo. */
  lemma {:induction false} EraseThenRest(m: Nvm, rest: seq<Op>, lo: nat, from: nat)
    requires OnlyAbove(rest, lo) && from < lo <= from + PAGE_SIZE && lo <= FLASH_SIZE
    ensures
      var ops := [Erase(from)] + rest;
      var k := ApplyAll(m, ops);
      && OnlyAbove(ops, from) && k.flag == m.flag
      && (forall i :: 0 <= i < from ==> k.flash[i] == m.flash[i])
      && (forall i :: from <= i < lo ==> k.flash[i] == 0xFF)
  {
    var ops := [Erase(from)] + rest;
    var m1 := Apply(m, Erase(from));
    assert ops[1..] == rest;
    assert ApplyAll(m, ops) == ApplyAll(m1, rest);
    hide ApplyAll;
    RunOnlyAbove(m1, rest, lo);
  }

  lemma {:induction false} KeptBelow(m: Nvm, n: Nvm, image: seq<byte>, from: nat)
    requires |image| <= IMAGE_MAX_SIZE && IMAGE_ADDR <= from < IMAGE_ADDR + |image| && Staged(m, |image|) == image
    requires forall i :: 0 <= i < from ==> n.flash[i] == m.flash[i]
    ensures KeepsBelow(n, image, from)
  {
    SubSlice(m.flash, IMAGE_ADDR, |image|, 0, from - IMAGE_ADDR);
    SameRange(m, n, IMAGE_ADDR, from);
  }

  lemma {:induction false} BlankStaged(m: Nvm, k: Nvm, image: seq<byte>, from: nat)
    requires |image| <= IMAGE_MAX_SIZE && IMAGE_ADDR <= from < IMAGE_ADDR + |image| && Staged(m, |image|) == image
    requires forall i :: IMAGE_ADDR <= i < from ==> k.flash[i] == m.flash[i]
    requires forall i :: from <= i < IMAGE_ADDR + |image| ==> k.flash[i] == 0xFF
    ensures Staged(k, |image|) == Blank(image, from - IMAGE_ADDR)
  {
    var s, b := Staged(k, |image|), Blank(image, from - IMAGE_ADDR);
    forall i | 0 <= i < |image| ensures s[i] == b[i] {
      assert image[i] == m.flash[IMAGE_ADDR + i];
      assert s[i] == k.flash[IMAGE_ADDR + i];
    }
  }

  /** A late chunk: the erase takes the end of the image, and nothing puts it back. */
  lemma {:induction false} LateStep(s: Sys, c: Request, t: Totals, image: seq<byte>)
    requires Inv(s, Armed(t, image)) && Applied(s, c) && !Ends(s, c) && Late(s.ram, t, c)
    ensures Inv(Step(s, c), Blanked(t, image, PageOf(s.ram.writeAddr)))
    ensures forall n :: CrashState(s.nvm, Handle(s.ram, s.nvm, c).ops, n) ==>
      Declared(n, t) && KeepsBelow(n, image, PageOf(s.ram.writeAddr))
    ensures Handle(s.ram, s.nvm, c).ops != [] && Handle(s.ram, s.nvm, c).ops[0] == Erase(PageOf(s.ram.writeAddr))
    ensures Step(s, c).ram.size >= s.ram.size + 4 - |s.ram.align|
  {
    hide ApplyChunk, Handle, Step, Holds, ApplyAll, OnlyAbove, CrashState, HoldsBlank, KeepsBelow, PageOf, Ahead;
    hide Late, Ends, DecodeHex, EndsInFlag, Inv, Declared, Crc32.Crc32, Bounded;
    LateReady(s, c, t, image);
    StepBounded(s, c);
    AppliedStep(s, c);
    var o := ApplyChunk(s.ram, s.nvm, c);
    assert [] + o.ops == o.ops;
    var rest := LateChunk(s.ram, s.nvm, c, IMAGE_ADDR + t.len);
    TotalsFit(s.nvm, t, image);
    BlankedFrame(s.nvm, rest, t, image, PageOf(s.ram.writeAddr));
    BecomesBlanked(Step(s, c), t, image, PageOf(s.ram.writeAddr));
  }

  lemma {:induction false} TotalsFit(m: Nvm, t: Totals, image: seq<byte>)
    requires Holds(m, t, image)
    ensures t.len <= IMAGE_MAX_SIZE
  {
  }

  lemma {:induction false} BecomesBlanked(s: Sys, t: Totals, image: seq<byte>, from: nat)
    requires Bounded(s.ram) && s.nvm.flag == PENDING_MAGIC && HoldsBlank(s.nvm, t, image, from)
    requires s.ram.nextSeq > 0 && Ahead(s.ram, IMAGE_ADDR + t.len)
    ensures Inv(s, Blanked(t, image, from))
  {
    hide Bounded, HoldsBlank, Ahead;
  }

  /** What a late chunk starts from. */
  lemma {:induction false} LateReady(s: Sys, c: Request, t: Totals, image: seq<byte>)
    requires Inv(s, Armed(t, image)) && Applied(s, c) && !Ends(s, c) && Late(s.ram, t, c)
    ensures
      var r, lo, page := s.ram, IMAGE_ADDR + t.len, PageOf(s.ram.writeAddr);
      && s.nvm.flag == PENDING_MAGIC && Holds(s.nvm, t, image) && Bounded(r) && c.seqNum != 0
      && !r.abort && |r.align| < 4 <= |r.align| + |DecodeHex(c.data)| && r.nextSeq >= 0
      && lo <= r.writeAddr < FLASH_SIZE && r.size <= r.writeAddr - IMAGE_ADDR + |r.align|
      && r.lastErased % PAGE_SIZE == 0 && r.lastErased < page && IMAGE_ADDR <= page < lo <= page + PAGE_SIZE
      && !EndsInFlag(ApplyChunk(r, s.nvm, c).ops)
      && ApplyChunk(r, s.nvm, c).ram.nextSeq > 0
  {
    PageBelow(s.ram.writeAddr, IMAGE_ADDR + t.len);
    hide ApplyChunk, Handle, Step, Holds, ApplyAll;
    AppliedStep(s, c);
    var o := ApplyChunk(s.ram, s.nvm, c);
    assert [] + o.ops == o.ops;
    hide PageOf, StagesThenCommits;
    ApplyChunkShape(s.ram, s.nvm, c, IMAGE_ADDR);
  }

  lemma {:induction false} PageBelow(addr: nat, lo: nat)
    requires PageOf(addr) < lo <= addr && lo <= FLASH_SIZE
    ensures addr < FLASH_SIZE && lo <= PageOf(addr) + PAGE_SIZE
  {
  }

  /** Later chunks leave the rest of a blanked image as it is. */
  lemma {:induction false} BlankedStep(s: Sys, c: Request, t: Totals, image: seq<byte>, from: nat)
    requires Inv(s, Blanked(t, image, from)) && Applied(s, c) && !Ends(s, c)
    ensures Inv(Step(s, c), Blanked(t, image, from))
    ensures forall n :: CrashState(s.nvm, Handle(s.ram, s.nvm, c).ops, n) ==> HoldsBlank(n, t, image, from)
  {
    var lo := IMAGE_ADDR + t.len;
    var o := ApplyChunk(s.ram, s.nvm, c);
    AppliedStep(s, c);
    assert [] + o.ops == o.ops;
    EntryAhead(s, c);
    StepBounded(s, c);
    ApplyChunkShape(s.ram, s.nvm, c, lo);
    StagesOnly(o, s.nvm, c, lo);
    hide ApplyChunk, Handle, ApplyAll, HoldsBlank, OnlyAbove, CrashState;
    BlankFrame(s.nvm, o.ops, t, image, from);
  }

  lemma {:induction false} BlankFrame(m: Nvm, ops: seq<Op>, t: Totals, image: seq<byte>, from: nat)
    requires HoldsBlank(m, t, image, from) && OnlyAbove(ops, IMAGE_ADDR + t.len)
    ensures HoldsBlank(ApplyAll(m, ops), t, image, from) && ApplyAll(m, ops).flag == m.flag
    ensures forall n :: CrashState(m, ops, n) ==> HoldsBlank(n, t, image, from)
  {
    hide ApplyAll, CrashState, Crc32.Crc32, Header, Blank, OnlyAbove;
    var lo := IMAGE_ADDR + t.len;
    forall n | CrashState(m, ops, n) ensures HoldsBlank(n, t, image, from) && n.flag == m.flag {
      CrashOnlyAbove(m, ops, lo, n);
      DeclaredFrame(m, n, t);
      SameRange(m, n, IMAGE_ADDR, lo);
    }
    CompletedIsCrashState(m, ops);
  }

  lemma {:induction false} BlankKeeps(n: Nvm, t: Totals, image: seq<byte>, from: nat)
    requires HoldsBlank(n, t, image, from)
    ensures Declared(n, t) && KeepsBelow(n, image, from)
  {
    hide Crc32.Crc32, Header;
    var k := from - IMAGE_ADDR;
    SubSlice(n.flash, IMAGE_ADDR, t.len, 0, k);
    BlankPrefix(image, k);
  }

  lemma {:induction false} BlankPrefix(image: seq<byte>, k: nat)
    requires k <= |image|
    ensures Blank(image, k)[0..k] == image[..k]
  {
  }

  lemma {:induction false} StepSafe(s: Sys, p: Phase, c: Request)
    requires Inv(s, p)
    ensures Inv(Step(s, c), PhaseStep(p, s, c))
    ensures forall n :: CrashState(s.nvm, Handle(s.ram, s.nvm, c).ops, n) ==> CrashSafe(p, s, c, n)
  {
    hide Step, Handle, HoldsBlank, KeepsBelow, Holds, HeaderErased, HeaderTorn;
    StepBounded(s, c);
    if !Applied(s, c) {
      NotApplied(s, c);
      if p.Blanked? { BlankKeeps(s.nvm, p.totals, p.image, p.from); }
    } else if OnErased(p, c) {
      OpenStep(s, p, c);
    } else if p.Doubled? || Commits(s, c) {
      DoubledStep(s, p, c);
    } else if p.Armed? && !Late(s.ram, p.totals, c) {
      ArmedStep(s, c, p.totals, p.image);
    } else if p.Armed? {
      LateStep(s, c, p.totals, p.image);
    } else {
      BlankedStep(s, c, p.totals, p.image, p.from);
      forall n | HoldsBlank(n, p.totals, p.image, p.from)
        ensures Declared(n, p.totals) && KeepsBelow(n, p.image, p.from)
      {
        BlankKeeps(n, p.totals, p.image, p.from);
      }
    }
  }

  lemma {:induction false} HeaderKept(m: Nvm, n: Nvm, h: seq<byte>)
    requires HeaderIs(m, h) && forall i :: 0 <= i < IMAGE_ADDR ==> n.flash[i] == m.flash[i]
    ensures HeaderIs(n, h)
  {
    SameRange(m, n, HEADER_ADDR, HEADER_ADDR + HEADER_SIZE);
  }

  lemma {:induction false} HeaderAnded(m: Nvm, h: seq<byte>, h2: seq<byte>)
    requires HeaderIs(m, h) && |h| == |h2| == HEADER_SIZE
    ensures HeaderIs(Apply(m, Program(HEADER_ADDR, h2)), Anded(h, h2))
  {
    var n := Apply(m, Program(HEADER_ADDR, h2));
    var f := n.flash[HEADER_ADDR..HEADER_ADDR + HEADER_SIZE];
    forall i | 0 <= i < HEADER_SIZE ensures f[i] == Anded(h, h2)[i] {
      assert h[i] == m.flash[HEADER_ADDR + i];
    }
  }

  lemma {:induction false} HasHeader(s: Sys, p: Phase, c: Request)
    requires Inv(s, p) && !OnErased(p, c)
    ensures |HeaderOf(p)| == HEADER_SIZE && HeaderIs(s.nvm, HeaderOf(p)) && s.nvm.flag == PENDING_MAGIC
  {
    hide Header, Bounded, Crc32.Crc32;
  }

  /** A last chunk accepted over the header h, on the memory m its bytes left behind. */
  lemma {:induction false} SecondCommit(m: Nvm, h: seq<byte>, t: Totals, n: Nvm)
    requires HeaderIs(m, h) && |h| == HEADER_SIZE && t.len <= IMAGE_MAX_SIZE
    ensures
      var h2 := Header(t.len, t.crc);
      var op := Program(HEADER_ADDR, h2);
      var ops := [op, SetFlag(PENDING_MAGIC, t.len)];
      && (CrashState(m, ops, n) ==> Torn(m, op, n) || HeaderIs(n, Anded(h, h2)))
      && HeaderIs(ApplyAll(m, ops), Anded(h, h2)) && ApplyAll(m, ops).flag == PENDING_MAGIC
      && Staged(ApplyAll(m, ops), t.len) == Staged(m, t.len)
  {
    var h2 := Header(t.len, t.crc);
    var op1, op2 := Program(HEADER_ADDR, h2), SetFlag(PENDING_MAGIC, t.len);
    HeaderAnded(m, h, h2);
    ApplyTwo(m, op1, op2);
    SameRange(m, Apply(m, op1), IMAGE_ADDR, IMAGE_ADDR + t.len);
    hide Header, Anded;
    if CrashState(m, [op1, op2], n) {
      CrashOfTwo(m, op1, op2, n);
    }
  }

  /** An applied chunk over a header that is there: what it writes to the header page, if anything. */
  ghost predicate OverHeader(m: Nvm, o: Outcome, c: Request, h: seq<byte>, ops: seq<Op>, commit: seq<Op>)
    requires c.Chunk?
  {
    && o.ops == ops + commit && OnlyAbove(ops, IMAGE_ADDR)
    && (commit == [] || CommitOps(o.ram, ApplyAll(m, ops), c, commit))
    && m.flag == PENDING_MAGIC && HeaderIs(m, h) && |h| == HEADER_SIZE
  }

  lemma {:induction false} OverParts(m: Nvm, o: Outcome, c: Request, h: seq<byte>, ops: seq<Op>, commit: seq<Op>)
    requires c.Chunk? && OverHeader(m, o, c, h, ops, commit)
    ensures EndsInFlag(o.ops) <==> commit != []
    ensures
      var k := ApplyAll(m, o.ops);
      && k.flag == PENDING_MAGIC
      && (commit == [] ==> HeaderIs(k, h))
      && (commit != [] ==>
        && c.totals.Some? && c.totals.value.len <= IMAGE_MAX_SIZE
        && HeaderIs(k, Anded(h, Header(c.totals.value.len, c.totals.value.crc)))
        && Crc32.Crc32(Staged(k, c.totals.value.len)) == c.totals.value.crc)
  {
    var m1 := ApplyAll(m, ops);
    RunOnlyAbove(m, ops, IMAGE_ADDR);
    HeaderKept(m, m1, h);
    ApplyAllConcat(m, ops, commit);
    assert ops != [] ==> ops[|ops| - 1] in ops;
    hide ApplyAll, Header, Crc32.Crc32, OnlyAbove, HeaderIs;
    if commit == [] {
      assert ops + commit == ops;
    } else {
      SecondCommit(m1, h, c.totals.value, m1);
    }
  }

  lemma {:induction false} OverCrash(m: Nvm, o: Outcome, c: Request, h: seq<byte>, ops: seq<Op>, commit: seq<Op>,
                                     n: Nvm)
    requires c.Chunk? && OverHeader(m, o, c, h, ops, commit) && CrashState(m, o.ops, n)
    ensures HeaderIs(n, h) || (commit != [] &&
      (HeaderTorn(m, o.ops, n) || HeaderIs(n, Anded(h, Header(c.totals.value.len, c.totals.value.crc)))))
  {
    var m1 := ApplyAll(m, ops);
    RunOnlyAbove(m, ops, IMAGE_ADDR);
    HeaderKept(m, m1, h);
    CrashConcat(m, ops, commit, n);
    if CrashState(m, ops, n) {
      CrashOnlyAbove(m, ops, IMAGE_ADDR, n);
      HeaderKept(m, n, h);
    } else if commit != [] {
      SecondCommit(m1, h, c.totals.value, n);
      hide ApplyAll, CrashState, Header, Anded, HeaderIs, Crc32.Crc32;
      if Torn(m1, commit[0], n) {
        TornFirst(m1, commit, n);
        TornLater(m, ops, commit, n);
      }
    }
  }

  lemma {:induction false} OverShape(s: Sys, p: Phase, c: Request) returns (ops: seq<Op>, commit: seq<Op>)
    requires Inv(s, p) && Applied(s, c) && !OnErased(p, c)
    ensures
      var o := ApplyChunk(s.ram, s.nvm, c);
      && OverHeader(s.nvm, o, c, HeaderOf(p), ops, commit)
      && Handle(s.ram, s.nvm, c).ops == o.ops && Step(s, c).nvm == ApplyAll(s.nvm, o.ops)
  {
    HasHeader(s, p, c);
    AppliedStep(s, c);
    EntryAhead(s, c);
    var o := ApplyChunk(s.ram, s.nvm, c);
    assert [] + o.ops == o.ops;
    hide ApplyChunk, ApplyAll, OnlyAbove, HeaderOf, HeaderIs, Handle, Step, CommitOps, Inv;
    ApplyChunkShape(s.ram, s.nvm, c, IMAGE_ADDR);
    ops, commit :| o.ops == ops + commit && OnlyAbove(ops, IMAGE_ADDR)
      && (commit == [] || CommitOps(o.ram, ApplyAll(s.nvm, ops), c, commit));
  }

  /** A last chunk accepted over a header, or any chunk after that. */
  lemma {:induction false} DoubledStep(s: Sys, p: Phase, c: Request)
    requires Inv(s, p) && Applied(s, c) && !OnErased(p, c) && (p.Doubled? || Commits(s, c))
    ensures Inv(Step(s, c), PhaseStep(p, s, c))
    ensures forall n :: CrashState(s.nvm, Handle(s.ram, s.nvm, c).ops, n) ==> CrashSafe(p, s, c, n)
  {
    var o := ApplyChunk(s.ram, s.nvm, c);
    StepBounded(s, c);
    HasHeader(s, p, c);
    var ops, commit := OverShape(s, p, c);
    OverParts(s.nvm, o, c, HeaderOf(p), ops, commit);
    assert Commits(s, c) <==> commit != [] by { hide ApplyChunk, Handle, OverHeader; }
    OverPhase(s, p, c, commit);
    hide *;
    var k := Step(s, c);
    BecomesDoubled(k, PhaseStep(p, s, c));
    forall n | CrashState(s.nvm, Handle(s.ram, s.nvm, c).ops, n) ensures CrashSafe(p, s, c, n) {
      OverCrash(s.nvm, o, c, HeaderOf(p), ops, commit, n);
      OverSafe(s, p, c, n);
    }
  }

  lemma {:induction false} OverPhase(s: Sys, p: Phase, c: Request, commit: seq<Op>)
    requires Applied(s, c) && !OnErased(p, c) && (p.Doubled? || Commits(s, c)) && (Commits(s, c) <==> commit != [])
    requires |HeaderOf(p)| == HEADER_SIZE
    requires commit != [] ==> c.totals.Some? && c.totals.value.len <= IMAGE_MAX_SIZE
    ensures PhaseStep(p, s, c) == Doubled(if commit == [] then HeaderOf(p)
      else Anded(HeaderOf(p), Header(c.totals.value.len, c.totals.value.crc)))
    ensures Doubles(p, s, c) <==> commit != []
  {
    hide Commits, Header, Anded, Applied;
  }

  lemma {:induction false} BecomesDoubled(s: Sys, q: Phase)
    requires q.Doubled? && Bounded(s.ram) && s.nvm.flag == PENDING_MAGIC && HeaderIs(s.nvm, q.header)
    ensures Inv(s, q)
  {
    hide Bounded, HeaderIs;
  }

  lemma {:induction false} OverSafe(s: Sys, p: Phase, c: Request, n: Nvm)
    requires Applied(s, c) && !OnErased(p, c) && PhaseStep(p, s, c).Doubled?
    requires if Doubles(p, s, c) then
      || HeaderIs(n, HeaderOf(p)) || HeaderTorn(s.nvm, Handle(s.ram, s.nvm, c).ops, n)
      || HeaderIs(n, PhaseStep(p, s, c).header)
      else HeaderIs(n, PhaseStep(p, s, c).header)
    ensures CrashSafe(p, s, c, n)
  {
    hide HeaderIs, HeaderTorn, Doubles, PhaseStep, Handle, Applied;
  }

  /**
   When one header is programmed over another, the outcome matches the staged bytes as the second
   client declared them exactly when the second header has no bit the first one lacks.
   */
  lemma {:induction false} SecondCommitExact(s: Sys, p: Phase, c: Request)
    requires Inv(s, p) && Doubles(p, s, c)
    ensures
      && c.totals.Some? && c.totals.value.len <= IMAGE_MAX_SIZE && |HeaderOf(p)| == HEADER_SIZE
      && var t, h := c.totals.value, HeaderOf(p);
         HeaderMatches(Step(s, c).nvm, t) <==> Anded(h, Header(t.len, t.crc)) == Header(t.len, t.crc)
  {
    var o := ApplyChunk(s.ram, s.nvm, c);
    HasHeader(s, p, c);
    var ops, commit := OverShape(s, p, c);
    OverParts(s.nvm, o, c, HeaderOf(p), ops, commit);
    hide ApplyChunk, ApplyAll, OverHeader, Handle, Step, Header, Anded, Inv, HeaderOf, Crc32.Crc32;
  }

  lemma {:induction false} RunSafe(s: Sys, p: Phase, reqs: seq<Request>)
    requires Inv(s, p)
    ensures Inv(Run(s, reqs), PhaseRun(p, s, reqs))
    decreases |reqs|
  {
    if reqs != [] {
      StepSafe(s, p, reqs[0]);
      RunSafe(Step(s, reqs[0]), PhaseStep(p, s, reqs[0]), reqs[1..]);
    }
  }

  /** An erased header reads back as no header at all. */
  lemma {:induction false} ErasedRejects(n: Nvm)
    requires n.flag == PENDING_MAGIC && HeaderErased(n)
    ensures Decide(n) == Reject
  {
    var f := n.flash[HEADER_ADDR..HEADER_ADDR + 4];
    assert f == [0xFF, 0xFF, 0xFF, 0xFF];
    AllOnes();
  }

  lemma {:induction false} AllOnes()
    ensures BytesWord([0xFF, 0xFF, 0xFF, 0xFF]) == 0xFFFF_FFFF
  {
    assert WordBytes(0xFFFF_FFFF) == [0xFF, 0xFF, 0xFF, 0xFF];
    WordBytesRoundTrip(0xFFFF_FFFF);
  }

  /**
   Commit ordering over every run: power fails anywhere inside request c, after any requests
   since power-up with the flag clear, and the flag is set in what is left.  Then a last chunk has been
   accepted.  The header carries the totals the client declared on it and the staged bytes have that
   checksum, unless a late chunk has begun to erase the end of the image.  Once a chunk 0 has
   erased the header, every boot rejects what is left until the next last chunk is accepted, and a
   last chunk accepted over a header leaves the bits the two have in common.  In these last two
   cases power may also fail in the middle of an erase or a programming of the header page.
   */
  lemma {:induction false} CommitOrdering(m: Nvm, reqs: seq<Request>, c: Request, n: Nvm)
    requires m.flag != PENDING_MAGIC
    requires var s := Run(Sys(POWER_UP, m), reqs); CrashState(s.nvm, Handle(s.ram, s.nvm, c).ops, n)
    requires n.flag == PENDING_MAGIC
    ensures
      var s, p := Run(Sys(POWER_UP, m), reqs), PhaseRun(Open, Sys(POWER_UP, m), reqs);
      var q := PhaseStep(p, s, c);
      if Reopens(p, s, c) then
        || Decide(n) == Reject || HeaderTorn(s.nvm, Handle(s.ram, s.nvm, c).ops, n)
        || (q.Armed? && HeaderMatches(n, q.totals))
      else if Doubles(p, s, c) then
        || HeaderIs(n, HeaderOf(p)) || HeaderTorn(s.nvm, Handle(s.ram, s.nvm, c).ops, n)
        || HeaderIs(n, HeaderOf(q))
      else
        match q
        case Open => false
        case Armed(t, image) => HeaderMatches(n, t)
        case Blanked(t, image, from) => Declared(n, t) && KeepsBelow(n, image, from)
        case Restarted => Decide(n) == Reject
        case Doubled(h) => HeaderIs(n, h)
  {
    hide Handle, PhaseStep, PhaseRun, Inv, HeaderErased, HeaderTorn, Decide, Doubles, HeaderOf, HeaderIs;
    var s := Run(Sys(POWER_UP, m), reqs);
    var p := PhaseRun(Open, Sys(POWER_UP, m), reqs);
    PowerUpOpen(m);
    RunSafe(Sys(POWER_UP, m), Open, reqs);
    StepSafe(s, p, c);
    assert CrashSafe(p, s, c, n);
    if HeaderErased(n) { ErasedRejects(n); }
  }

  lemma {:induction false} PowerUpOpen(m: Nvm)
    requires m.flag != PENDING_MAGIC
    ensures Inv(Sys(POWER_UP, m), Open)
  {
  }
}
