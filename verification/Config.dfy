/** config.c: the live records and their way to and from the EEPROM. */
module Config {
  import opened Crc32
  import opened Nvm
  import opened Eeprom
  import opened ConfigStore

  class Configuration {
    const part: EepromPart
    var broker: Broker
    var ntp: Ntp

    ghost predicate Valid()
      reads this, part
    {
      part.Valid() && broker.Fits() && ntp.Fits()
    }

    /** The persistent words. */
    ghost function Flat(): Store
      reads this, part, part.cells
      requires Valid()
    {
      part.cells[..]
    }

    /** The live records start out as zeros; ConfigInit fills them. */
    constructor (part: EepromPart)
      requires part.Valid()
      ensures Valid() && this.part == part
    {
      this.part := part;
      broker := Broker(0, 0, 0, TextBytes([], 64), TextBytes([], 32), TextBytes([], 32), TextBytes([], 32),
        TextBytes([], 48));
      ntp := Ntp(TextBytes([], 32), 0, [0, 0, 0]);
    }

    /** PalStorageRead, in words. */
    method StorageRead(at: nat, n: nat) returns (r: seq<byte>)
      requires Valid() && at < WORDS && at + n <= WORDS
      modifies part`block, part`offset
      ensures Valid() && broker == old(broker) && ntp == old(ntp) && Flat() == old(Flat())
      ensures r == BytesOf(Flat()[at..at + n])
    {
      var buf := new Word[n];
      part.EEPROMRead(buf, 4 * at, 4 * n);
      assert buf[..n] == part.cells[at..at + n];
      r := BytesOf(buf[..n]);
    }

    /** PalStorageWrite, in words: on failure a prefix has been written. */
    method StorageWrite(at: nat, data: seq<Word>) returns (ok: bool)
      requires Valid() && at < WORDS && at + |data| <= WORDS && data != []
      modifies part`block, part`offset, part`done, part.cells
      ensures Valid() && broker == old(broker) && ntp == old(ntp)
      ensures ok <==> Writable(part.locked, at, |data|) == |data|
      ensures ok ==> Flat() == Written(old(Flat()), at, data)
      ensures Flat() == Written(old(Flat()), at, data[..Writable(part.locked, at, |data|)])
    {
      hide Written, Writable;
      assert 4 * at / 4 == at && 4 * |data| / 4 == |data|;
      var status := part.EEPROMProgram(data, 4 * at, 4 * |data|);
      ok := status == 0;
      assert data[..|data|] == data;
    }

    /** ConfigInit; ready says whether PalStorageInit succeeded. */
    method ConfigInit(ready: bool)
      requires Valid()
      modifies this`broker, this`ntp, part`block, part`offset
      ensures Valid() && Flat() == old(Flat())
      ensures ready ==> broker == LoadBroker(Flat()) && ntp == LoadNtp(Flat())
      ensures !ready ==> broker == DEFAULT_BROKER && ntp == old(ntp)
    {
      hide Intact, BrokerOf, NtpOf, Clamped, BytesOf;
      if !ready {
        broker := DEFAULT_BROKER;
        return;
      }
      var r := StorageRead(BROKER_AT, BROKER_WORDS);
      broker := if Intact(r, CFG_MAGIC) then BrokerOf(r) else DEFAULT_BROKER;
      broker := broker.(ioDevices := Clamped(broker.ioDevices));
      r := StorageRead(NTP_AT, NTP_WORDS);
      ntp := if Intact(r, CFG_NTP_MAGIC) then NtpOf(r) else DEFAULT_NTP;
    }

    method ConfigSave() returns (ok: bool)
      requires Valid()
      modifies part`block, part`offset, part`done, part.cells
      ensures Valid() && broker == old(broker) && ntp == old(ntp)
      ensures ok <==> Writable(part.locked, BROKER_AT, BROKER_WORDS) == BROKER_WORDS
      ensures ok ==> Flat() == SaveBroker(old(Flat()), broker)
      ensures Flat() == Written(old(Flat()), BROKER_AT,
        BrokerRecord(broker)[..Writable(part.locked, BROKER_AT, BROKER_WORDS)])
    {
      hide Written, Writable, BrokerRecord;
      ok := StorageWrite(BROKER_AT, BrokerRecord(broker));
    }

    method ConfigNtpSave() returns (ok: bool)
      requires Valid()
      modifies part`block, part`offset, part`done, part.cells
      ensures Valid() && broker == old(broker) && ntp == old(ntp)
      ensures ok <==> Writable(part.locked, NTP_AT, NTP_WORDS) == NTP_WORDS
      ensures ok ==> Flat() == SaveNtp(old(Flat()), ntp)
      ensures Flat() == Written(old(Flat()), NTP_AT,
        NtpRecord(ntp)[..Writable(part.locked, NTP_AT, NTP_WORDS)])
    {
      hide Written, Writable, NtpRecord;
      ok := StorageWrite(NTP_AT, NtpRecord(ntp));
    }

    method ConfigOtaIsPending() returns (pending: bool)
      requires Valid()
      modifies part`block, part`offset
      ensures Valid() && Flat() == old(Flat()) && broker == old(broker) && ntp == old(ntp)
      ensures pending == Pending(Flat())
    {
      var buf := new Word[1];
      part.EEPROMRead(buf, 4 * FLAG_AT, 4);
      assert buf[..1][0] == part.cells[FLAG_AT..FLAG_AT + 1][0];
      pending := buf[0] == PENDING_MAGIC;
    }

    method ConfigOtaSetPending(size: Word)
      requires Valid()
      modifies part`block, part`offset, part`done, part.cells
      ensures Valid() && broker == old(broker) && ntp == old(ntp)
      ensures Writable(part.locked, FLAG_AT, 2) == 2 ==> Flat() == Happen(old(Flat()), FlagSet(size))
      ensures Flat() == Written(old(Flat()), FLAG_AT, [PENDING_MAGIC, size][..Writable(part.locked, FLAG_AT, 2)])
    {
      hide Written, Writable;
      var ok := StorageWrite(FLAG_AT, [PENDING_MAGIC, size]);
    }

    method ConfigOtaClearPending()
      requires Valid()
      modifies part`block, part`offset, part`done, part.cells
      ensures Valid() && broker == old(broker) && ntp == old(ntp)
      ensures Writable(part.locked, FLAG_AT, 2) == 2 ==> Flat() == Happen(old(Flat()), FlagCleared)
      ensures Flat() == Written(old(Flat()), FLAG_AT, [0, 0][..Writable(part.locked, FLAG_AT, 2)])
    {
      hide Written, Writable;
      var ok := StorageWrite(FLAG_AT, [0, 0]);
    }

    /** The foundation part of ConfigFactoryReset. */
    method ConfigFactoryReset() returns (ok: bool)
      requires Valid()
      modifies part`block, part`offset, part`done, part.cells
      ensures Valid() && broker == old(broker) && ntp == old(ntp)
      ensures Flat() == Cleared(Cleared(Cleared(old(Flat()), part.locked, BROKER_AT), part.locked, FLAG_AT),
        part.locked, NTP_AT)
      ensures ok ==> Flat() == ResetSteps(old(Flat()), 3)
    {
      hide Written, Writable;
      var ok1 := ClearMagic(BROKER_AT);
      var ok2 := ClearMagic(FLAG_AT);
      var ok3 := ClearMagic(NTP_AT);
      ok := ok1 && ok2 && ok3;
    }

    method ClearMagic(at: nat) returns (ok: bool)
      requires Valid() && at < WORDS
      modifies part`block, part`offset, part`done, part.cells
      ensures Valid() && broker == old(broker) && ntp == old(ntp)
      ensures Flat() == Cleared(old(Flat()), part.locked, at)
      ensures ok ==> Flat() == Written(old(Flat()), at, [0])
    {
      OneWord(Flat(), part.locked, at);
      hide Written, Writable;
      ok := StorageWrite(at, [0]);
    }
  }

  /** The store with the word at position at cleared, if its block can be written. */
  function Cleared(f: Store, locked: set<nat>, at: nat): Store
    requires at < WORDS
  {
    if BlockAt(at) in locked then f else f[at := 0]
  }

  lemma {:induction false} OneWord(f: Store, locked: set<nat>, at: nat)
    requires at < WORDS
    ensures Written(f, at, [0][..Writable(locked, at, 1)]) == Cleared(f, locked, at)
  {
    assert Writable(locked, at, 1) == if BlockAt(at) in locked then 0 else 1;
    assert f[..at] + [] + f[at..] == f;
    assert f[..at] + [0] + f[at + 1..] == f[at := 0];
  }
}
