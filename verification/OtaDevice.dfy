/**
 The firmware itself: the flash part, the chunk receiver with its static variables, and the
 boot-time check and copier.  Each method is proved to perform exactly the operations of its
 specification, in order; that order is what the crash results rest on.
 */
module OtaDevice {
  import opened Common
  import opened Crc32
  import opened Nvm
  import opened OtaUpload
  import opened OtaBoot

  class Device {
    const cells: array<byte>
    var flag: Word
    var flagSize: nat
    ghost var log: seq<Op>

    ghost predicate Valid() {
      cells.Length == FLASH_SIZE
    }

    ghost function Contents(): Nvm
      reads this, cells
      requires Valid()
    {
      Nvm(cells[..], flag, flagSize)
    }

    constructor (flash: Flash, flag: Word, flagSize: nat)
      ensures Valid() && fresh(cells)
      ensures Contents() == Nvm(flash, flag, flagSize) && log == []
    {
      cells := new byte[FLASH_SIZE](i requires 0 <= i < FLASH_SIZE => flash[i]);
      this.flag, this.flagSize, this.log := flag, flagSize, [];
      new;
      assert cells[..] == flash;
    }

    method FlashErase(page: nat)
      requires Valid()
      modifies this`log, cells
      ensures Contents() == Apply(old(Contents()), Erase(page))
      ensures log == old(log) + [Erase(page)]
    {
      forall i | 0 <= i < cells.Length && page <= i < page + PAGE_SIZE {
        cells[i] := 0xFF;
      }
      log := log + [Erase(page)];
      assert cells[..] == Erased(old(cells[..]), page);
    }

    method FlashProgram(data: seq<byte>, addr: nat)
      requires Valid()
      modifies this`log, cells
      ensures Contents() == Apply(old(Contents()), Program(addr, data))
      ensures log == old(log) + [Program(addr, data)]
    {
      forall i | 0 <= i < cells.Length && addr <= i < addr + |data| {
        cells[i] := cells[i] & data[i - addr];
      }
      log := log + [Program(addr, data)];
      assert cells[..] == Programmed(old(cells[..]), addr, data);
    }

    method WriteFlag(magic: Word, size: nat)
      requires Valid()
      modifies this`flag, this`flagSize, this`log
      ensures Contents() == Apply(old(Contents()), SetFlag(magic, size))
      ensures log == old(log) + [SetFlag(magic, size)]
    {
      flag, flagSize := magic, size;
      log := log + [SetFlag(magic, size)];
    }

    /** The history since an earlier state of the memory. */
    twostate predicate Did(ops: seq<Op>)
      requires Valid()
      reads this, cells
    {
      Contents() == ApplyAll(old(Contents()), ops) && log == old(log) + ops
    }
  }

  lemma {:induction false} ApplyOne(m: Nvm, op: Op)
    ensures ApplyAll(m, [op]) == Apply(m, op)
  {
    assert [op][1..] == [];
  }

  lemma {:induction false} NothingDone(m: Nvm)
    ensures ApplyAll(m, []) == m
  {
  }

  /** What a partial word flushes. */
  lemma {:induction false} FlushOf(r: Ram)
    requires 0 < |r.align| < 4
    ensures
      Flush(r) == (r.(align := [], writeAddr := r.writeAddr + 4),
        [Program(r.writeAddr, r.align + seq(4 - |r.align|, _ => 0xFF as byte))])
  {
    assert seq(4 - |r.align|, _ => 0xFF as byte) == seq(if |r.align| < 4 then 4 - |r.align| else 0, _ => 0xFF as byte);
  }

  /** The decode loop after i digits: done so far, with the rest of the data still to come. */
  ghost predicate Upto(r: Ram, m: Nvm, data: string, i: nat, done: seq<Op>, now: Ram, mem: Nvm) {
    && i <= |data|
    && mem == ApplyAll(m, done)
    && PutBytes(now, DecodeHex(data[i..])).0 == PutBytes(r, DecodeHex(data)).0
    && done + PutBytes(now, DecodeHex(data[i..])).1 == PutBytes(r, DecodeHex(data)).1
  }

  lemma {:induction false} UptoStart(r: Ram, m: Nvm, data: string)
    ensures Upto(r, m, data, 0, [], r, m)
  {
    assert data[0..] == data;
    var ops := PutBytes(r, DecodeHex(data)).1;
    assert [] + ops == ops;
  }

  lemma {:induction false} UptoStep(r: Ram, m: Nvm, data: string, i: nat, done: seq<Op>, now: Ram, mem: Nvm)
    requires Upto(r, m, data, i, done, now, mem) && !now.abort && i + 1 < |data|
    ensures
      var (now', ops) := PutByte(now, HexByte(data[i], data[i + 1]));
      Upto(r, m, data, i + 2, done + ops, now', ApplyAll(mem, ops))
  {
    hide PutByte, HexByte;
    var b := HexByte(data[i], data[i + 1]);
    var (now', ops) := PutByte(now, b);
    var d, rest := DecodeHex(data[i..]), DecodeHex(data[i + 2..]);
    assert data[i..][2..] == data[i + 2..];
    assert d[0] == b && d[1..] == rest;
    ApplyAllConcat(m, done, ops);
    assert done + (ops + PutBytes(now', rest).1) == (done + ops) + PutBytes(now', rest).1;
  }

  lemma {:induction false} UptoEnd(r: Ram, m: Nvm, data: string, i: nat, done: seq<Op>, now: Ram, mem: Nvm)
    requires Upto(r, m, data, i, done, now, mem) && (now.abort || i + 1 >= |data|)
    ensures now == PutBytes(r, DecodeHex(data)).0
    ensures done == PutBytes(r, DecodeHex(data)).1 && mem == ApplyAll(m, done)
  {
  }

  /** A last chunk is its decode loop and then its conclusion. */
  lemma {:induction false} LastUnfold(r: Ram, m: Nvm, c: Request)
    requires c.Chunk? && c.last && !PutBytes(r, DecodeHex(c.data)).0.abort
    ensures
      var (r1, ops) := PutBytes(r, DecodeHex(c.data));
      var o := Conclude(r1.(nextSeq := r1.nextSeq + 1), ApplyAll(m, ops), c.totals);
      && ApplyChunk(r, m, c) == o.(ops := ops + o.ops)
      && ApplyAll(m, ops + o.ops) == ApplyAll(ApplyAll(m, ops), o.ops)
  {
    hide Conclude, PutBytes, ApplyAll;
    var (r1, ops) := PutBytes(r, DecodeHex(c.data));
    var o := Conclude(r1.(nextSeq := r1.nextSeq + 1), ApplyAll(m, ops), c.totals);
    ApplyAllConcat(m, ops, o.ops);
  }

  class OtaReceiver {
    const dev: Device
    const alignBuf: array<byte>
    var writeAddr: nat
    var size: nat
    var alignLen: nat
    var lastErased: nat
    var abort: bool
    var nextSeq: int

    ghost predicate Valid()
      reads this
    {
      dev.Valid() && alignBuf.Length == 4 && alignBuf != dev.cells && alignLen < 4
    }

    ghost function State(): Ram
      reads this, alignBuf
      requires Valid()
    {
      Ram(writeAddr, size, alignBuf[..alignLen], lastErased, abort, nextSeq)
    }

    constructor (dev: Device)
      requires dev.Valid()
      ensures Valid() && this.dev == dev && fresh(alignBuf)
      ensures State() == POWER_UP
    {
      this.dev := dev;
      alignBuf := new byte[4](_ => 0);
      writeAddr, size, alignLen, lastErased, abort, nextSeq := 0, 0, 0, 0, false, 0;
    }

    method Begin()
      requires Valid()
      modifies this, dev, dev.cells
      ensures Valid() && State() == Begun()
      ensures dev.Did(BEGIN_OPS)
    {
      writeAddr := IMAGE_ADDR;
      size := 0;
      alignLen := 0;
      lastErased := IMAGE_ADDR;
      abort := false;
      nextSeq := 0;
      ApplyTwo(dev.Contents(), Erase(HEADER_ADDR), Erase(IMAGE_ADDR));
      dev.FlashErase(HEADER_ADDR);
      dev.FlashErase(IMAGE_ADDR);
      assert BEGIN_OPS == [Erase(HEADER_ADDR), Erase(IMAGE_ADDR)];
    }

    /** Programs the full alignment buffer, erasing its page on first entry. */
    method StoreWord()
      requires dev.Valid() && alignBuf.Length == 4 && alignBuf != dev.cells
      modifies this`writeAddr, this`lastErased, this`alignLen, dev, dev.cells
      ensures Valid() && alignLen == 0 && writeAddr == old(writeAddr) + 4
      ensures
        var page := PageOf(old(writeAddr));
        var op := Program(old(writeAddr), alignBuf[..]);
        && lastErased == (if page > old(lastErased) then page else old(lastErased))
        && dev.Did((if page > old(lastErased) then [Erase(page)] else []) + [op])
    {
      hide ApplyAll, PageOf, Apply;
      ghost var m := dev.Contents();
      ghost var op := Program(writeAddr, alignBuf[..]);
      var page := PageOf(writeAddr);
      if page > lastErased {
        ApplyTwo(m, Erase(page), op);
        assert [Erase(page)] + [op] == [Erase(page), op];
        dev.FlashErase(page);
        lastErased := page;
      } else {
        ApplyOne(m, op);
        assert [] + [op] == [op];
      }
      dev.FlashProgram(alignBuf[..], writeAddr);
      writeAddr := writeAddr + 4;
      alignLen := 0;
    }

    /** One turn of the decode loop. */
    method TakeByte(b: byte)
      requires Valid()
      modifies this, alignBuf, dev, dev.cells
      ensures Valid()
      ensures State() == PutByte(old(State()), b).0 && dev.Did(PutByte(old(State()), b).1)
    {
      hide PageOf, ApplyAll;
      NothingDone(dev.Contents());
      ghost var align := alignBuf[..alignLen];
      alignBuf[alignLen] := b;
      alignLen := alignLen + 1;
      size := size + 1;
      assert alignBuf[..alignLen] == align + [b];
      if alignLen == 4 {
        assert alignBuf[..] == align + [b];
        if writeAddr >= IMAGE_ADDR + IMAGE_MAX_SIZE {
          abort := true;
          alignLen := 0;
        } else {
          StoreWord();
        }
        assert alignBuf[..alignLen] == [];
      }
    }

    /** Decodes hex pairs until the data ends or the staging region overflows. */
    method DecodeLoop(data: string)
      requires Valid() && !abort
      modifies this, alignBuf, dev, dev.cells
      ensures Valid()
      ensures State() == PutBytes(old(State()), DecodeHex(data)).0
      ensures dev.Did(PutBytes(old(State()), DecodeHex(data)).1)
    {
      hide PutByte, PutBytes, ApplyAll, Upto;
      ghost var r, m, l := State(), dev.Contents(), dev.log;
      ghost var done := [];
      var i := 0;
      UptoStart(r, m, data);
      while i + 1 < |data|
        invariant i <= |data|
        invariant Valid() && !abort
        invariant dev.log == l + done
        invariant Upto(r, m, data, i, done, State(), dev.Contents())
      {
        var b := HexByte(data[i], data[i + 1]);
        ghost var ops := PutByte(State(), b).1;
        UptoStep(r, m, data, i, done, State(), dev.Contents());
        TakeByte(b);
        done := done + ops;
        i := i + 2;
        if abort {
          break;
        }
      }
      UptoEnd(r, m, data, i, done, State(), dev.Contents());
    }

    /** Fills the rest of the buffer with 0xFF. */
    method PadBuffer()
      requires Valid()
      modifies this`alignLen, alignBuf
      ensures alignLen == 4
      ensures alignBuf[..] == old(alignBuf[..alignLen]) + seq(4 - old(alignLen), _ => 0xFF as byte)
    {
      ghost var n := alignLen;
      while alignLen < 4
        invariant n <= alignLen <= 4
        invariant forall i :: 0 <= i < n ==> alignBuf[i] == old(alignBuf[i])
        invariant forall i :: n <= i < alignLen ==> alignBuf[i] == 0xFF
      {
        alignBuf[alignLen] := 0xFF;
        alignLen := alignLen + 1;
      }
    }

    /** Pads and programs a partial word. */
    method FlushWord()
      requires Valid()
      modifies this, alignBuf, dev, dev.cells
      ensures Valid()
      ensures State() == Flush(old(State())).0 && dev.Did(Flush(old(State())).1)
    {
      NothingDone(dev.Contents());
      if alignLen > 0 {
        FlushOf(State());
        hide Flush, ApplyAll, Apply;
        PadBuffer();
        ApplyOne(dev.Contents(), Program(writeAddr, alignBuf[..]));
        dev.FlashProgram(alignBuf[..], writeAddr);
        writeAddr := writeAddr + 4;
        alignLen := 0;
        assert alignBuf[..alignLen] == [];
      }
    }

    /** The end-to-end check and the commit. */
    method FinishUpload(totals: Option<Totals>) returns (reply: Reply)
      requires Valid()
      modifies dev, dev.cells
      ensures Valid() && State() == old(State())
      ensures dev.Did(Finish(old(State()), old(dev.Contents()), totals).0)
      ensures reply == Finish(old(State()), old(dev.Contents()), totals).1
    {
      if totals.None? {
        return ToolsPage;
      }
      if size > IMAGE_MAX_SIZE {
        return BusFault;
      }
      ghost var m := dev.Contents();
      assert dev.cells[IMAGE_ADDR..IMAGE_ADDR + size] == Staged(m, size);
      var crc := ConfigCRC32(dev.cells[IMAGE_ADDR..IMAGE_ADDR + size]);
      if size != totals.value.len || crc != totals.value.crc {
        return ToolsPage;
      }
      WriteRecord(Header(size, crc));
      return UpdateOk;
    }

    /** The header first, then the flag. */
    method WriteRecord(header: seq<byte>)
      requires Valid()
      modifies dev, dev.cells
      ensures Valid() && State() == old(State())
      ensures dev.Did([Program(HEADER_ADDR, header), SetFlag(PENDING_MAGIC, size)])
    {
      ApplyTwo(dev.Contents(), Program(HEADER_ADDR, header), SetFlag(PENDING_MAGIC, size));
      dev.FlashProgram(header, HEADER_ADDR);
      dev.WriteFlag(PENDING_MAGIC, size);
    }

    /** The part of the handler that only a last chunk reaches. */
    method FinishLast(totals: Option<Totals>) returns (reply: Reply)
      requires Valid()
      modifies this, alignBuf, dev, dev.cells
      ensures Valid()
      ensures
        var o := Conclude(old(State()), old(dev.Contents()), totals);
        State() == o.ram && reply == o.reply && dev.Did(o.ops)
    {
      hide Flush, Finish, ApplyAll;
      ghost var r, m := State(), dev.Contents();
      FlushWord();
      ghost var flush, m1 := Flush(r).1, dev.Contents();
      reply := FinishUpload(totals);
      ghost var commit := Finish(State(), m1, totals).0;
      ApplyAllConcat(m, flush, commit);
      assert dev.log == old(dev.log) + (flush + commit);
    }

    method ApplyNext(c: Request) returns (reply: Reply)
      requires Valid() && !abort && c.Chunk?
      modifies this, alignBuf, dev, dev.cells
      ensures Valid()
      ensures
        var o := ApplyChunk(old(State()), old(dev.Contents()), c);
        State() == o.ram && reply == o.reply && dev.Did(o.ops)
    {
      hide Conclude, PutBytes, ApplyAll;
      ghost var r, m := State(), dev.Contents();
      DecodeLoop(c.data);
      ghost var ops := PutBytes(r, DecodeHex(c.data)).1;
      if abort {
        return ToolsPage;
      }
      nextSeq := nextSeq + 1;
      if !c.last {
        return ToolsPage;
      }
      ghost var o := Conclude(State(), dev.Contents(), c.totals);
      LastUnfold(r, m, c);
      reply := FinishLast(c.totals);
      assert dev.log == old(dev.log) + (ops + o.ops);
    }

    /** WebPlatformOtaChunkCGI. */
    method HandleChunk(c: Request) returns (reply: Reply)
      requires Valid()
      modifies this, alignBuf, dev, dev.cells
      ensures Valid()
      ensures
        var o := Handle(old(State()), old(dev.Contents()), c);
        State() == o.ram && reply == o.reply && dev.Did(o.ops)
    {
      hide ApplyAll, ApplyChunk, BEGIN_OPS;
      NothingDone(dev.Contents());
      if c.Malformed? {
        return IndexPage;
      }
      ghost var m := dev.Contents();
      ghost var begin := [];
      if c.seqNum == 0 {
        Begin();
        begin := BEGIN_OPS;
      }
      ghost var r, m1 := State(), dev.Contents();
      if abort {
        reply := ToolsPage;
      } else if c.seqNum < nextSeq {
        reply := if c.last then UpdateOk else ToolsPage;
      } else if c.seqNum > nextSeq {
        abort := true;
        reply := ToolsPage;
      } else {
        reply := ApplyNext(c);
      }
      ApplyAllConcat(m, begin, Guarded(r, m1, c).ops);
      assert begin == [] ==> begin + Guarded(r, m1, c).ops == Guarded(r, m1, c).ops;
    }
  }

  // ---------------------------------------------------------------------------
  // Boot
  // ---------------------------------------------------------------------------

  lemma {:induction false} OneMore(m: Nvm, done: seq<Op>, addr: nat)
    requires addr < APP_ADDR + APP_SIZE
    ensures ApplyAll(m, done + [Erase(addr)]) == Apply(ApplyAll(m, done), Erase(addr))
    ensures (done + [Erase(addr)]) + EraseFrom(addr + PAGE_SIZE) == done + EraseFrom(addr)
  {
    assert EraseFrom(addr) == [Erase(addr)] + EraseFrom(addr + PAGE_SIZE);
    hide ApplyAll, EraseFrom;
    ApplyAllConcat(m, done, [Erase(addr)]);
    ApplyOne(ApplyAll(m, done), Erase(addr));
    assert (done + [Erase(addr)]) + EraseFrom(addr + PAGE_SIZE) == done + ([Erase(addr)] + EraseFrom(addr + PAGE_SIZE));
  }

  method EraseSlot(dev: Device)
    requires dev.Valid()
    modifies dev, dev.cells
    ensures dev.Did(EraseFrom(APP_ADDR))
  {
    ghost var m := dev.Contents();
    ghost var l := dev.log;
    ghost var done := [];
    var addr := APP_ADDR;
    while addr < APP_ADDR + APP_SIZE
      invariant done + EraseFrom(addr) == EraseFrom(APP_ADDR)
      invariant dev.Contents() == ApplyAll(m, done) && dev.log == l + done
    {
      OneMore(m, done, addr);
      dev.FlashErase(addr);
      done := done + [Erase(addr)];
      addr := addr + PAGE_SIZE;
    }
    assert done == EraseFrom(APP_ADDR);
  }

  /** OtaApply up to its reset: erase the slot page by page, then program it from staging. */
  method OtaApply(dev: Device, size: nat)
    requires dev.Valid() && size <= IMAGE_MAX_SIZE
    modifies dev, dev.cells
    ensures dev.Did(InstallOps(old(dev.Contents()), size))
  {
    ghost var m := dev.Contents();
    EraseSlot(dev);
    EraseFromOnlyApp(APP_ADDR);
    CompletedIsCrashState(m, EraseFrom(APP_ADDR));
    CrashOnlyApp(m, EraseFrom(APP_ADDR), dev.Contents());
    var data := ReadField(dev, IMAGE_ADDR, IMAGE_ADDR + Aligned(size));
    assert data == m.flash[IMAGE_ADDR..IMAGE_ADDR + Aligned(size)];
    ApplyOne(dev.Contents(), Program(APP_ADDR, data));
    ApplyAllConcat(m, EraseFrom(APP_ADDR), [Program(APP_ADDR, data)]);
    dev.FlashProgram(data, APP_ADDR);
  }

  method ReadField(dev: Device, lo: nat, hi: nat) returns (s: seq<byte>)
    requires dev.Valid() && lo <= hi <= FLASH_SIZE
    ensures s == dev.Contents().flash[lo..hi]
  {
    s := dev.cells[lo..hi];
    assert dev.cells[lo..hi] == dev.cells[..][lo..hi];
  }

  method ReadHeader(dev: Device) returns (magic: Word, size: nat, crc: Word)
    requires dev.Valid()
    ensures magic == HeaderMagic(dev.Contents())
    ensures size == HeaderLen(dev.Contents())
    ensures crc == HeaderCrc(dev.Contents())
  {
    var field := ReadField(dev, HEADER_ADDR, HEADER_ADDR + 4);
    magic := BytesWord(field);
    field := ReadField(dev, HEADER_ADDR + 4, HEADER_ADDR + 8);
    size := BytesNat(field);
    field := ReadField(dev, HEADER_ADDR + 8, HEADER_ADDR + 12);
    crc := BytesWord(field);
  }

  method Checksum(dev: Device, addr: nat, size: nat) returns (crc: Word)
    requires dev.Valid() && addr + size <= FLASH_SIZE
    ensures crc == Crc32.Crc32(dev.Contents().flash[addr..addr + size])
  {
    var data := ReadField(dev, addr, addr + size);
    crc := ConfigCRC32(data);
  }

  /** The checks of OtaCheckAndApply. */
  method Validate(dev: Device) returns (v: Verdict)
    requires dev.Valid()
    ensures v == Decide(dev.Contents())
  {
    hide Crc32.Crc32, HeaderMagic, HeaderLen, HeaderCrc;
    if dev.flag != PENDING_MAGIC {
      return NotPending;
    }
    var magic, size, declared := ReadHeader(dev);
    if magic != HDR_MAGIC {
      return Reject;
    }
    if size == 0 || size > IMAGE_MAX_SIZE {
      return Reject;
    }
    var crc := Checksum(dev, IMAGE_ADDR, size);
    if crc != declared {
      return Reject;
    }
    crc := Checksum(dev, APP_ADDR, size);
    return if crc == declared then AlreadyApplied else Install(size);
  }

  method OtaCheckAndApply(dev: Device)
    requires dev.Valid()
    modifies dev, dev.cells
    ensures dev.Did(BootOps(old(dev.Contents())))
  {
    ApplyOne(dev.Contents(), SetFlag(0, 0));
    var v := Validate(dev);
    match v
    case NotPending =>
    case Reject => dev.WriteFlag(0, 0);
    case AlreadyApplied => dev.WriteFlag(0, 0);
    case Install(size) => OtaApply(dev, size);
  }
}
