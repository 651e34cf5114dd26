/**
 The boot side: a pending image is validated, copied over the application slot, and the flag
 falls only once the slot carries the checksum of the header.
 */
module OtaBoot {
  import opened Crc32
  import opened Nvm
  import opened OtaUpload

  function HeaderMagic(m: Nvm): Word { BytesWord(m.flash[HEADER_ADDR..HEADER_ADDR + 4]) }
  function HeaderLen(m: Nvm): nat { BytesNat(m.flash[HEADER_ADDR + 4..HEADER_ADDR + 8]) }
  function HeaderCrc(m: Nvm): Word { BytesWord(m.flash[HEADER_ADDR + 8..HEADER_ADDR + 12]) }

  function App(m: Nvm, size: nat): (s: seq<byte>)
    requires size <= APP_SIZE
    ensures |s| == size
  {
    m.flash[APP_ADDR..APP_ADDR + size]
  }

  datatype Verdict = NotPending | Reject | AlreadyApplied | Install(size: nat)

  /** The checks, in the firmware's order. */
  function Decide(m: Nvm): (v: Verdict)
    ensures v.Install? ==> v.size == HeaderLen(m) && 0 < v.size <= IMAGE_MAX_SIZE
  {
    if m.flag != PENDING_MAGIC then NotPending
    else if HeaderMagic(m) != HDR_MAGIC then Reject
    else if HeaderLen(m) == 0 || HeaderLen(m) > IMAGE_MAX_SIZE then Reject
    else if Crc32.Crc32(Staged(m, HeaderLen(m))) != HeaderCrc(m) then Reject
    else if Crc32.Crc32(App(m, HeaderLen(m))) == HeaderCrc(m) then AlreadyApplied
    else Install(HeaderLen(m))
  }

  const CLEAR_OPS: seq<Op> := [SetFlag(0, 0)]

  /** Rounded up to whole words: programming works on words. */
  function Aligned(size: nat): (n: nat)
    ensures size <= n < size + 4 && n % 4 == 0
  {
    (size + 3) / 4 * 4
  }

  function EraseFrom(addr: nat): seq<Op>
    decreases APP_SIZE - addr
  {
    if addr >= APP_ADDR + APP_SIZE then [] else [Erase(addr)] + EraseFrom(addr + PAGE_SIZE)
  }

  function InstallOps(m: Nvm, size: nat): seq<Op>
    requires size <= IMAGE_MAX_SIZE
  {
    EraseFrom(APP_ADDR) + [Program(APP_ADDR, m.flash[IMAGE_ADDR..IMAGE_ADDR + Aligned(size)])]
  }

  function BootOps(m: Nvm): seq<Op> {
    match Decide(m)
    case NotPending => []
    case Reject => CLEAR_OPS
    case AlreadyApplied => CLEAR_OPS
    case Install(size) => InstallOps(m, size)
  }

  /** A boot during which the power holds. */
  function Boot(m: Nvm): Nvm {
    ApplyAll(m, BootOps(m))
  }

  // ---------------------------------------------------------------------------
  // The copy
  // ---------------------------------------------------------------------------

  /** Header and staging region are untouched. */
  ghost predicate SameUpdate(m: Nvm, n: Nvm) {
    forall i :: HEADER_ADDR <= i < FLASH_SIZE ==> n.flash[i] == m.flash[i]
  }

  ghost predicate OnlyApp(ops: seq<Op>) {
    forall op :: op in ops ==> !op.SetFlag? && forall i :: op.Touches(i) ==> APP_ADDR <= i < APP_ADDR + APP_SIZE
  }

  lemma {:induction false} EraseFromOnlyApp(addr: nat)
    requires addr % PAGE_SIZE == 0 && addr <= APP_ADDR + APP_SIZE
    ensures OnlyApp(EraseFrom(addr))
    decreases APP_SIZE - addr
  {
    if addr < APP_ADDR + APP_SIZE {
      assert addr + PAGE_SIZE <= APP_ADDR + APP_SIZE;
      EraseFromOnlyApp(addr + PAGE_SIZE);
    }
  }

  lemma {:induction false} CrashOnlyApp(m: Nvm, ops: seq<Op>, n: Nvm)
    requires OnlyApp(ops) && CrashState(m, ops, n)
    ensures SameUpdate(m, n) && n.flag == m.flag
    decreases |ops|
  {
    if ops != [] {
      var op := ops[0];
      assert op in ops;
      forall i | HEADER_ADDR <= i < FLASH_SIZE ensures Apply(m, op).flash[i] == m.flash[i] && !op.Touches(i) {
        Untouched(m, op, i);
      }
      if !Torn(m, op, n) {
        CrashOnlyApp(Apply(m, op), ops[1..], n);
      }
    }
  }

  lemma {:induction false} InstallOnlyApp(m: Nvm, size: nat)
    requires size <= IMAGE_MAX_SIZE
    ensures OnlyApp(InstallOps(m, size))
  {
    EraseFromOnlyApp(APP_ADDR);
  }

  lemma {:induction false} EraseFromErases(m: Nvm, addr: nat)
    requires addr % PAGE_SIZE == 0 && addr <= APP_ADDR + APP_SIZE
    requires forall i :: APP_ADDR <= i < addr ==> m.flash[i] == 0xFF
    ensures forall i :: APP_ADDR <= i < APP_ADDR + APP_SIZE ==> ApplyAll(m, EraseFrom(addr)).flash[i] == 0xFF
    ensures SameUpdate(m, ApplyAll(m, EraseFrom(addr)))
    ensures ApplyAll(m, EraseFrom(addr)).flag == m.flag
    decreases APP_SIZE - addr
  {
    if addr < APP_ADDR + APP_SIZE {
      assert addr + PAGE_SIZE <= APP_ADDR + APP_SIZE;
      assert EraseFrom(addr)[1..] == EraseFrom(addr + PAGE_SIZE);
      EraseFromErases(Apply(m, Erase(addr)), addr + PAGE_SIZE);
    }
  }

  /** An uninterrupted copy: the slot starts with the staged words and is blank after them. */
  lemma {:induction false} InstallCopies(m: Nvm, size: nat)
    requires size <= IMAGE_MAX_SIZE
    ensures
      var n := ApplyAll(m, InstallOps(m, size));
      && SameUpdate(m, n) && n.flag == m.flag
      && App(n, size) == Staged(m, size)
      && (forall i :: 0 <= i < Aligned(size) ==> n.flash[i] == m.flash[IMAGE_ADDR + i])
      && forall i :: Aligned(size) <= i < APP_SIZE ==> n.flash[i] == 0xFF
  {
    var data := m.flash[IMAGE_ADDR..IMAGE_ADDR + Aligned(size)];
    var m1 := ApplyAll(m, EraseFrom(APP_ADDR));
    var op := Program(APP_ADDR, data);
    EraseFromErases(m, APP_ADDR);
    ApplyAllConcat(m, EraseFrom(APP_ADDR), [op]);
    assert [op][1..] == [];
    var n := Apply(m1, op);
    assert ApplyAll(m1, [op]) == n;
    forall i | 0 <= i < Aligned(size) ensures n.flash[i] == m.flash[IMAGE_ADDR + i] {
      assert m1.flash[i] == 0xFF;
      ProgramErased(data[i]);
    }
  }

  // ---------------------------------------------------------------------------
  // Retries
  // ---------------------------------------------------------------------------

  /** The checks on header and staging give the same answer wherever these are the same. */
  lemma {:induction false} DecideFrame(m: Nvm, n: Nvm)
    requires SameUpdate(m, n)
    ensures HeaderMagic(n) == HeaderMagic(m) && HeaderLen(n) == HeaderLen(m) && HeaderCrc(n) == HeaderCrc(m)
    ensures HeaderLen(m) <= IMAGE_MAX_SIZE ==> Staged(n, HeaderLen(m)) == Staged(m, HeaderLen(m))
  {
    hide BytesWord, BytesNat;
    SameRange(m, n, HEADER_ADDR, HEADER_ADDR + 4);
    SameRange(m, n, HEADER_ADDR + 4, HEADER_ADDR + 8);
    SameRange(m, n, HEADER_ADDR + 8, HEADER_ADDR + 12);
    if HeaderLen(m) <= IMAGE_MAX_SIZE { SameRange(m, n, IMAGE_ADDR, IMAGE_ADDR + HeaderLen(m)); }
  }

  /** The staged image passes every check. */
  predicate Validated(m: Nvm) {
    Decide(m).Install? || Decide(m).AlreadyApplied?
  }

  /** The header page starts with the mark and these totals, as the upload writes them. */
  ghost predicate HeaderSays(m: Nvm, t: Totals) {
    && t.len < 0x1_0000_0000
    && m.flash[HEADER_ADDR..HEADER_ADDR + 4] == WordBytes(HDR_MAGIC)
    && m.flash[HEADER_ADDR + 4..HEADER_ADDR + 8] == NatBytes(t.len)
    && m.flash[HEADER_ADDR + 8..HEADER_ADDR + 12] == WordBytes(t.crc)
  }

  /**
   What the boot demands of an update: the flag, a marked header, a size the staging region holds,
   and staged bytes of that size with the checksum in the header.  It demands nothing else.
   */
  lemma {:induction false} ValidatedExact(m: Nvm)
    ensures Validated(m) <==> m.flag == PENDING_MAGIC && exists t: Totals ::
      HeaderSays(m, t) && 0 < t.len <= IMAGE_MAX_SIZE && Crc32.Crc32(Staged(m, t.len)) == t.crc
  {
    hide WordBytes, BytesWord, NatBytes, BytesNat, Crc32.Crc32;
    if Validated(m) {
      BytesWordInverse(m.flash[HEADER_ADDR..HEADER_ADDR + 4]);
      BytesNatInverse(m.flash[HEADER_ADDR + 4..HEADER_ADDR + 8]);
      BytesWordInverse(m.flash[HEADER_ADDR + 8..HEADER_ADDR + 12]);
      assert HeaderSays(m, Totals(HeaderLen(m), HeaderCrc(m)));
    }
    forall t: Totals | HeaderSays(m, t)
      ensures HeaderMagic(m) == HDR_MAGIC && HeaderLen(m) == t.len && HeaderCrc(m) == t.crc
    {
      WordBytesRoundTrip(HDR_MAGIC);
      NatBytesRoundTrip(t.len);
      WordBytesRoundTrip(t.crc);
    }
  }

  lemma {:induction false} SetFlagCrash(m: Nvm, n: Nvm)
    requires CrashState(m, CLEAR_OPS, n)
    ensures n.flash == m.flash
  {
    var op := SetFlag(0, 0);
    assert CLEAR_OPS == [op] && CLEAR_OPS[1..] == [];
    assert Torn(m, op, n) || n == Apply(m, op);
  }

  /** One boot, interrupted at any point or not, of a device with a validated image. */
  lemma {:induction false} BootCrash(m: Nvm, n: Nvm)
    requires Validated(m) && CrashState(m, BootOps(m), n)
    ensures SameUpdate(m, n)
    ensures n.flag == PENDING_MAGIC ==> Validated(n)
    ensures n.flag != PENDING_MAGIC ==> n.flash == m.flash && Crc32.Crc32(App(n, HeaderLen(n))) == HeaderCrc(n)
  {
    if Decide(m).Install? {
      InstallOnlyApp(m, HeaderLen(m));
      CrashOnlyApp(m, BootOps(m), n);
    } else {
      SetFlagCrash(m, n);
    }
    DecideFrame(m, n);
  }

  /** A series of boots, each interrupted anywhere or completed. */
  ghost predicate Boots(ms: seq<Nvm>) {
    ms != [] && forall k :: 0 <= k < |ms| - 1 ==> CrashState(ms[k], BootOps(ms[k]), ms[k + 1])
  }

  /**
   Retry safety.  Once a boot has validated the staged image, every later boot validates it
   again, whatever power losses came between, for as long as the flag is set.
   */
  lemma {:induction false} RetrySafety(ms: seq<Nvm>, k: nat)
    requires Boots(ms) && Validated(ms[0]) && k < |ms|
    requires forall j :: 0 <= j <= k ==> ms[j].flag == PENDING_MAGIC
    ensures Validated(ms[k]) && SameUpdate(ms[0], ms[k])
    decreases k
  {
    if k > 0 {
      RetrySafety(ms, k - 1);
      assert CrashState(ms[k - 1], BootOps(ms[k - 1]), ms[k - 1 + 1]);
      BootCrash(ms[k - 1], ms[k]);
    }
  }

  /** The flag falls only when the application slot carries the checksum in the header. */
  lemma {:induction false} FlagFallsOnlyWhenApplied(ms: seq<Nvm>, k: nat)
    requires Boots(ms) && Validated(ms[0]) && 0 < k < |ms|
    requires forall j :: 0 <= j < k ==> ms[j].flag == PENDING_MAGIC
    requires ms[k].flag != PENDING_MAGIC
    ensures ms[k].flash == ms[k - 1].flash && HeaderLen(ms[k]) == HeaderLen(ms[0])
    ensures HeaderLen(ms[0]) <= IMAGE_MAX_SIZE
    ensures Crc32.Crc32(App(ms[k], HeaderLen(ms[0]))) == HeaderCrc(ms[0])
  {
    RetrySafety(ms, k - 1);
    assert CrashState(ms[k - 1], BootOps(ms[k - 1]), ms[k - 1 + 1]);
    BootCrash(ms[k - 1], ms[k]);
    DecideFrame(ms[0], ms[k - 1]);
    DecideFrame(ms[k - 1], ms[k]);
  }

  /** With no update pending no later boot changes anything, wherever power fails. */
  lemma {:induction false} NotPendingChangesNothing(ms: seq<Nvm>, k: nat, j: nat)
    requires Boots(ms) && k <= j < |ms| && ms[k].flag != PENDING_MAGIC
    ensures ms[j] == ms[k]
    decreases j
  {
    if k < j {
      NotPendingChangesNothing(ms, k, j - 1);
      assert CrashState(ms[j - 1], BootOps(ms[j - 1]), ms[j - 1 + 1]);
    }
  }

  /** Once the flag has fallen the new firmware stays: no later boot changes anything. */
  lemma {:induction false} AppliedStays(ms: seq<Nvm>, k: nat, j: nat)
    requires Boots(ms) && Validated(ms[0]) && 0 < k <= j < |ms|
    requires forall i :: 0 <= i < k ==> ms[i].flag == PENDING_MAGIC
    requires ms[k].flag != PENDING_MAGIC
    ensures ms[j] == ms[k] && HeaderLen(ms[0]) <= IMAGE_MAX_SIZE
    ensures Crc32.Crc32(App(ms[j], HeaderLen(ms[0]))) == HeaderCrc(ms[0])
  {
    hide *;
    FlagFallsOnlyWhenApplied(ms, k);
    NotPendingChangesNothing(ms, k, j);
  }

  /** An update that is not validated never costs a byte of flash, however often the device boots. */
  lemma {:induction false} UnvalidatedKeepsFlash(ms: seq<Nvm>, k: nat)
    requires Boots(ms) && !Validated(ms[0]) && k < |ms|
    ensures !Validated(ms[k]) && ms[k].flash == ms[0].flash
    decreases k
  {
    if k > 0 {
      UnvalidatedKeepsFlash(ms, k - 1);
      assert CrashState(ms[k - 1], BootOps(ms[k - 1]), ms[k - 1 + 1]);
      RejectedBoot(ms[k - 1], ms[k]);
    }
  }

  lemma {:induction false} RejectedBoot(m: Nvm, n: Nvm)
    requires !Validated(m) && CrashState(m, BootOps(m), n)
    ensures !Validated(n) && n.flash == m.flash
  {
    hide Crc32.Crc32, HeaderMagic, HeaderLen, HeaderCrc, Staged, App, InstallOps;
    if Decide(m).Reject? {
      SetFlagCrash(m, n);
      SameFlash(m, n);
    }
  }

  lemma {:induction false} SameFlash(m: Nvm, n: Nvm)
    requires Decide(m).Reject? && n.flash == m.flash
    ensures !Validated(n)
  {
    assert HeaderMagic(n) == HeaderMagic(m) && HeaderLen(n) == HeaderLen(m) && HeaderCrc(n) == HeaderCrc(m);
    hide Crc32.Crc32, HeaderMagic, HeaderLen, HeaderCrc;
  }

  /** An uninterrupted copy is recognised by the next boot, which only clears the flag. */
  lemma {:induction false} InstallThenClear(m: Nvm)
    requires Decide(m).Install?
    ensures App(Boot(m), HeaderLen(m)) == Staged(m, HeaderLen(m))
    ensures SameUpdate(m, Boot(m))
    ensures Boot(m).flag == PENDING_MAGIC && Decide(Boot(m)) == AlreadyApplied
    ensures Boot(Boot(m)).flag != PENDING_MAGIC && Boot(Boot(m)).flash == Boot(m).flash
  {
    InstallCopies(m, HeaderLen(m));
    DecideFrame(m, Boot(m));
    ClearClears(Boot(m));
  }

  lemma {:induction false} ClearClears(m: Nvm)
    ensures ApplyAll(m, CLEAR_OPS) == m.(flag := 0, flagSize := 0)
  {
    assert CLEAR_OPS[1..] == [];
    assert ApplyAll(m, CLEAR_OPS) == Apply(m, SetFlag(0, 0));
  }

  /** Progress: two boots without a power loss always finish a validated update. */
  lemma {:induction false} TwoBootsFinish(m: Nvm)
    requires Validated(m)
    ensures
      var n := Boot(Boot(m));
      && n.flag != PENDING_MAGIC
      && SameUpdate(m, n)
      && HeaderLen(m) <= IMAGE_MAX_SIZE
      && Crc32.Crc32(App(n, HeaderLen(m))) == HeaderCrc(m)
  {
    if Decide(m).Install? {
      InstallThenClear(m);
      DecideFrame(m, Boot(m));
    } else {
      ClearClears(m);
      assert Decide(Boot(m)) == NotPending;
    }
  }
}
