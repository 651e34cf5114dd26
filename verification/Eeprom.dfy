/**
 The EEPROM driver.  The part is addressed through a block register and an offset register
 that counts up with every access and wraps after 16 words; the driver must look like one
 flat array of words.
 */
module Eeprom {
  import opened Crc32

  const BLOCK_WORDS: nat := 16
  const BLOCKS: nat := 96
  const WORDS: nat := BLOCKS * BLOCK_WORDS

  /** The flat store with the words at position at replaced by data. */
  function Written(flat: seq<Word>, at: nat, data: seq<Word>): (r: seq<Word>)
    requires at + |data| <= |flat|
    ensures |r| == |flat|
  {
    flat[..at] + data + flat[at + |data|..]
  }

  /** The block a word lies in. */
  function BlockAt(at: nat): nat { at / BLOCK_WORDS }

  /** How many of n words from position at come before the first write-protected block. */
  function Writable(locked: set<nat>, at: nat, n: nat): (k: nat)
    ensures k <= n
    ensures forall i :: at <= i < at + k ==> BlockAt(i) !in locked
    ensures k < n ==> BlockAt(at + k) in locked
    decreases n
  {
    if n == 0 || BlockAt(at) in locked then 0 else 1 + Writable(locked, at + 1, n - 1)
  }

  lemma {:induction false} WritableStep(locked: set<nat>, at: nat, n: nat)
    ensures n == 0 || BlockAt(at) in locked ==> Writable(locked, at, n) == 0
    ensures n > 0 && BlockAt(at) !in locked ==> Writable(locked, at, n) == 1 + Writable(locked, at + 1, n - 1)
  {
  }

  lemma {:induction false} WrittenNothing(flat: seq<Word>, at: nat, data: seq<Word>)
    requires at <= |flat|
    ensures Written(flat, at, data[..0]) == flat
  {
  }

  lemma {:induction false} WrittenOneMore(flat: seq<Word>, at: nat, data: seq<Word>, k: nat)
    requires k < |data| && at + k < |flat|
    ensures Written(flat, at, data[..k])[at + k := data[k]] == Written(flat, at, data[..k + 1])
  {
  }

  /** EEPROM_EEDONE when a write was refused. */
  const NO_PERMISSION: nat := 0x20

  /** The offset register wraps at the end of a block. */
  function Wrap(o: nat): nat { if o == BLOCK_WORDS then 0 else o }

  class EepromPart {
    const cells: array<Word>
    const locked: set<nat>
    var block: nat
    var offset: nat
    var done: nat

    ghost predicate Valid()
      reads this
    {
      cells.Length == WORDS && block < BLOCKS && offset < BLOCK_WORDS
    }

    constructor (flat: seq<Word>, locked: set<nat>)
      requires |flat| == WORDS
      ensures Valid() && fresh(cells) && cells[..] == flat && this.locked == locked
    {
      cells := new Word[WORDS](i requires 0 <= i < WORDS => flat[i]);
      this.locked := locked;
      block, offset, done := 0, 0, 0;
      new;
      assert cells[..] == flat;
    }

    /** The word the two registers select. */
    function Cursor(): nat
      reads this
    {
      block * BLOCK_WORDS + offset
    }

    /** EEPROM_EEBLOCK: only blocks that exist may be selected. */
    method SelectBlock(b: nat)
      requires Valid() && b < BLOCKS
      modifies this`block
      ensures Valid() && block == b
    {
      block := b;
    }

    method SelectOffset(o: nat)
      requires Valid() && o < BLOCK_WORDS
      modifies this`offset
      ensures Valid() && offset == o
    {
      offset := o;
    }

    /** A read of EEPROM_EERDWRINC. */
    method ReadNext() returns (w: Word)
      requires Valid()
      modifies this`offset
      ensures Valid() && w == cells[old(Cursor())]
      ensures offset == Wrap(old(offset) + 1)
    {
      w := cells[Cursor()];
      offset := Wrap(offset + 1);
    }

    /** A write to EEPROM_EERDWRINC, completed. */
    method WriteNext(w: Word)
      requires Valid()
      modifies this`offset, this`done, cells
      ensures Valid()
      ensures offset == Wrap(old(offset) + 1)
      ensures done == if block in locked then NO_PERMISSION else 0
      ensures cells[..] == if block in locked then old(cells[..]) else old(cells[..])[old(Cursor()) := w]
    {
      if block in locked {
        done := NO_PERMISSION;
      } else {
        cells[Cursor()] := w;
        done := 0;
      }
      offset := Wrap(offset + 1);
    }

    /** Moves to the next block when the offset has wrapped, and only if more words follow. */
    method FollowOn(left: nat)
      requires Valid()
      requires left > 0 && offset == 0 ==> block + 1 < BLOCKS
      modifies this`block
      ensures Valid()
      ensures block == if left > 0 && offset == 0 then old(block) + 1 else old(block)
    {
      if left > 0 && offset == 0 {
        SelectBlock(block + 1);
      }
    }

    /** Points the registers at the word with this byte address. */
    method Seek(address: nat)
      requires Valid() && address % 4 == 0 && address < 4 * WORDS
      modifies this`block, this`offset
      ensures Valid() && Cursor() == address / 4
    {
      SelectBlock(address / 64);
      SelectOffset(address / 4 % BLOCK_WORDS);
    }

    /** Reads count bytes from address into buf. */
    method EEPROMRead(buf: array<Word>, address: nat, count: nat)
      requires Valid() && buf != cells
      requires address % 4 == 0 && count % 4 == 0 && address < 4 * WORDS && address + count <= 4 * WORDS
      requires count / 4 <= buf.Length
      modifies this`block, this`offset, buf
      ensures Valid()
      ensures buf[..count / 4] == cells[address / 4..address / 4 + count / 4]
      ensures buf[count / 4..] == old(buf[count / 4..])
    {
      var at, left := address / 4, count / 4;
      ghost var n := left;
      assert at + n <= WORDS;
      Seek(address);
      var next := 0;
      while left > 0
        invariant Valid() && 0 <= next && 0 <= left && next + left == n
        invariant left > 0 ==> Cursor() == at + next
        invariant forall i :: 0 <= i < next ==> buf[i] == cells[at + i]
        invariant forall i :: n <= i < buf.Length ==> buf[i] == old(buf[i])
      {
        buf[next] := ReadNext();
        next := next + 1;
        left := left - 1;
        FollowOn(left);
      }
    }

    /** Writes word number next of data at its place after position at. */
    method ProgramWord(ghost flat: seq<Word>, at: nat, data: seq<Word>, next: nat)
      requires Valid() && next < |data| && |flat| == WORDS && Cursor() == at + next
      requires cells[..] == Written(flat, at, data[..next])
      modifies this`offset, this`done, cells
      ensures Valid() && offset == Wrap(old(offset) + 1)
      ensures done == if BlockAt(at + next) in locked then NO_PERMISSION else 0
      ensures cells[..] == Written(flat, at, data[..if done == 0 then next + 1 else next])
    {
      hide Written;
      BlockOf(block, offset);
      WrittenOneMore(flat, at, data, next);
      WriteNext(data[next]);
    }

    /** The word loop of EEPROMProgram: n words from position at, which the registers select. */
    method ProgramWords(data: seq<Word>, at: nat, n: nat)
      requires Valid() && n <= |data| && at + n <= WORDS && Cursor() == at
      modifies this`block, this`offset, this`done, cells
      ensures Valid()
      ensures cells[..] == Written(old(cells[..]), at, data[..Writable(locked, at, n)])
      ensures n > 0 ==> (done == 0 <==> Writable(locked, at, n) == n)
    {
      hide Written, Writable, BlockAt;
      ghost var flat := cells[..];
      WrittenNothing(flat, at, data);
      var next := 0;
      while next < n
        invariant Valid() && next <= n
        invariant next < n ==> Cursor() == at + next
        invariant next > 0 ==> done == 0
        invariant cells[..] == Written(flat, at, data[..next])
        invariant Writable(locked, at, n) == next + Writable(locked, at + next, n - next)
      {
        WritableStep(locked, at + next, n - next);
        ProgramWord(flat, at, data, next);
        if done != 0 {
          return;
        }
        next := next + 1;
        FollowOn(n - next);
      }
      WritableStep(locked, at + next, 0);
    }

    /** Writes count bytes of data to address; zero means every word was written. */
    method EEPROMProgram(data: seq<Word>, address: nat, count: nat) returns (status: nat)
      requires Valid()
      requires address % 4 == 0 && count % 4 == 0 && address < 4 * WORDS && address + count <= 4 * WORDS
      requires count / 4 <= |data|
      modifies this`block, this`offset, this`done, cells
      ensures Valid()
      ensures
        var k := Writable(locked, address / 4, count / 4);
        && cells[..] == Written(old(cells[..]), address / 4, data[..k])
        && (count > 0 ==> (status == 0 <==> k == count / 4))
    {
      hide Written, Writable;
      Seek(address);
      ProgramWords(data, address / 4, count / 4);
      return done;
    }
  }

  lemma {:induction false} BlockOf(block: nat, offset: nat)
    requires offset < BLOCK_WORDS
    ensures BlockAt(block * BLOCK_WORDS + offset) == block
  {
  }
}
