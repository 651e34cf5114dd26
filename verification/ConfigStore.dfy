/**
 The configuration records: fixed addresses in one flat word store, each sealed with a magic
 word and a CRC-32.
 */
module ConfigStore {
  import opened Crc32
  import CrcBurst
  import opened Nvm
  import opened Eeprom

  // ---------------------------------------------------------------------------
  // Words and bytes
  // ---------------------------------------------------------------------------

  function WordsOf(b: seq<byte>): (w: seq<Word>)
    requires |b| % 4 == 0
    ensures 4 * |w| == |b|
  {
    if b == [] then [] else [BytesWord(b[..4])] + WordsOf(b[4..])
  }

  function BytesOf(w: seq<Word>): (b: seq<byte>)
    ensures |b| == 4 * |w|
  {
    if w == [] then [] else WordBytes(w[0]) + BytesOf(w[1..])
  }

  lemma {:induction false} BytesOfWordsOf(b: seq<byte>)
    requires |b| % 4 == 0
    ensures BytesOf(WordsOf(b)) == b
  {
    hide BytesWord, WordBytes;
    if b != [] {
      BytesWordInverse(b[..4]);
      BytesOfWordsOf(b[4..]);
      assert WordsOf(b)[1..] == WordsOf(b[4..]);
      assert b == b[..4] + b[4..];
    }
  }

  // ---------------------------------------------------------------------------
  // Sealed records
  // ---------------------------------------------------------------------------

  /** A record ends in the checksum of everything before it. */
  function Sealed(body: seq<byte>): (r: seq<byte>)
    ensures |r| == |body| + 4
  {
    body + WordBytes(Crc32.Crc32(body))
  }

  predicate Intact(r: seq<byte>, magic: Word)
    requires |r| >= 8
  {
    BytesWord(r[..4]) == magic && BytesWord(r[|r| - 4..]) == Crc32.Crc32(r[..|r| - 4])
  }

  lemma {:induction false} SealedIsIntact(body: seq<byte>, magic: Word)
    requires |body| >= 4 && body[..4] == WordBytes(magic)
    ensures Intact(Sealed(body), magic)
  {
    hide BytesWord, WordBytes;
    var r := Sealed(body);
    WordBytesRoundTrip(magic);
    WordBytesRoundTrip(Crc32.Crc32(body));
    assert r[..4] == body[..4] && r[|r| - 4..] == WordBytes(Crc32.Crc32(body)) && r[..|r| - 4] == body;
  }

  /** Damage confined to one word of a sealed record, its checksum included, is always noticed. */
  lemma {:induction false} DamageBreaksSeal(body: seq<byte>, r: seq<byte>, at: nat, magic: Word)
    requires |r| == |body| + 4 && |body| >= 4 && |body| % 4 == 0 && at % 4 == 0 && at < |r| && r != Sealed(body)
    requires forall j :: 0 <= j < |r| && !(at <= j < at + 4) ==> r[j] == Sealed(body)[j]
    ensures !Intact(r, magic)
  {
    hide WordBytes, BytesWord, Crc32.Crc32;
    var n := |body|;
    var crc := WordBytes(Crc32.Crc32(body));
    assert r == r[..n] + r[n..];
    if at < n {
      assert r[n..] == crc;
      WordBytesRoundTrip(Crc32.Crc32(body));
      assert r[..n] != body;
      CrcBurst.DamageInRange(body, r[..n], at);
    } else {
      assert r[..n] == body;
      BytesWordInverse(r[n..]);
    }
  }

  // ---------------------------------------------------------------------------
  // The two foundation records
  // ---------------------------------------------------------------------------

  /** tMQTTConfig without its magic and checksum; text fields keep their whole width. */
  datatype Broker = Broker(
    port: bv16,
    useAuth: byte,
    ioDevices: byte,
    host: seq<byte>,
    clientId: seq<byte>,
    user: seq<byte>,
    pass: seq<byte>,
    topicBase: seq<byte>
  )
  {
    predicate Fits() {
      |host| == 64 && |clientId| == 32 && |user| == 32 && |pass| == 32 && |topicBase| == 48
    }
  }

  /** tNTPConfig without its magic and checksum. */
  datatype Ntp = Ntp(server: seq<byte>, tzOffset: byte, reserved: seq<byte>)
  {
    predicate Fits() {
      |server| == 32 && |reserved| == 3
    }
  }

  const CFG_MAGIC: Word := 0x4D515431
  const CFG_NTP_MAGIC: Word := 0x4E545043

  function PortBytes(p: bv16): (s: seq<byte>)
    ensures |s| == 2
  {
    [(p & 0xFF) as byte, (p >> 8) as byte]
  }

  function BytesPort(s: seq<byte>): bv16
    requires |s| == 2
  {
    (s[0] as bv16) | ((s[1] as bv16) << 8)
  }

  lemma {:induction false} PortRoundTrip(p: bv16)
    ensures BytesPort(PortBytes(p)) == p
  {
  }

  function BrokerBody(b: Broker): (s: seq<byte>)
    requires b.Fits()
    ensures |s| == 216
  {
    WordBytes(CFG_MAGIC) + (PortBytes(b.port) + [b.useAuth, b.ioDevices]) +
    b.host + b.clientId + b.user + b.pass + b.topicBase
  }

  function BrokerOf(s: seq<byte>): (b: Broker)
    requires |s| >= 216
    ensures b.Fits()
  {
    Broker(BytesPort(s[4..6]), s[6], s[7], s[8..72], s[72..104], s[104..136], s[136..168], s[168..216])
  }

  lemma {:induction false} BrokerRoundTrip(b: Broker)
    requires b.Fits()
    ensures BrokerOf(Sealed(BrokerBody(b))) == b
  {
    hide WordBytes, PortBytes, BytesPort, Crc32.Crc32;
    var s := Sealed(BrokerBody(b));
    PortRoundTrip(b.port);
    assert s[4..6] == PortBytes(b.port);
    assert s[8..72] == b.host;
    assert s[72..104] == b.clientId;
    assert s[104..136] == b.user;
    assert s[136..168] == b.pass;
    assert s[168..216] == b.topicBase;
  }

  function NtpBody(n: Ntp): (s: seq<byte>)
    requires n.Fits()
    ensures |s| == 40
  {
    WordBytes(CFG_NTP_MAGIC) + n.server + ([n.tzOffset] + n.reserved)
  }

  function NtpOf(s: seq<byte>): (n: Ntp)
    requires |s| >= 40
    ensures n.Fits()
  {
    Ntp(s[4..36], s[36], s[37..40])
  }

  lemma {:induction false} NtpRoundTrip(n: Ntp)
    requires n.Fits()
    ensures NtpOf(Sealed(NtpBody(n))) == n
  {
    hide WordBytes, Crc32.Crc32;
    var s := Sealed(NtpBody(n));
    assert s[4..36] == n.server;
    assert s[37..40] == n.reserved;
  }

  // ---------------------------------------------------------------------------
  // Addresses, in words
  // ---------------------------------------------------------------------------

  const BROKER_AT: nat := 0
  const BROKER_WORDS: nat := 55
  const FLAG_AT: nat := 313
  const NTP_AT: nat := 315
  const NTP_WORDS: nat := 11

  /** Product records lie between the broker record and the flag, or after the NTP record. */
  predicate ProductRange(at: nat, n: nat) {
    (64 <= at && at + n <= FLAG_AT) || (NTP_AT + NTP_WORDS <= at && at + n <= WORDS)
  }

  function TextBytes(text: seq<byte>, width: nat): (s: seq<byte>)
    requires |text| <= width
    ensures |s| == width
  {
    text + seq(width - |text|, _ => 0 as byte)
  }

  /** "tm4c1294" and "pool.ntp.org". */
  const DEFAULT_ID: seq<byte> := [0x74, 0x6D, 0x34, 0x63, 0x31, 0x32, 0x39, 0x34]
  const DEFAULT_SERVER: seq<byte> := [0x70, 0x6F, 0x6F, 0x6C, 0x2E, 0x6E, 0x74, 0x70, 0x2E, 0x6F, 0x72, 0x67]

  const DEFAULT_BROKER: Broker := Broker(1883, 0, 0x22, TextBytes([], 64), TextBytes(DEFAULT_ID, 32),
    TextBytes([], 32), TextBytes([], 32), TextBytes(DEFAULT_ID, 48))
  const DEFAULT_NTP: Ntp := Ntp(TextBytes(DEFAULT_SERVER, 32), 0, [0, 0, 0])

  // ---------------------------------------------------------------------------
  // Loading and saving on the flat store
  // ---------------------------------------------------------------------------

  type Store = f: seq<Word> | |f| == WORDS witness seq(WORDS, _ => 0)

  /** A count above 15 would fall back to 2, but a nibble never holds one. */
  function SetDin(io: byte, devices: byte): byte {
    (io & 0xF0) | (if devices > 15 then 2 else devices)
  }

  function SetRelay(io: byte, devices: byte): byte {
    (io & 0x0F) | ((if devices > 15 then 2 else devices) << 4)
  }

  function Clamped(io: byte): byte {
    var din := SetDin(io, io & 0x0F);
    SetRelay(din, (din >> 4) & 0x0F)
  }

  /** The clamp in ConfigInit changes no stored count, 0 included. */
  lemma {:induction false} ClampIsIdentity(io: byte)
    ensures Clamped(io) == io
  {
  }

  function LoadBroker(f: Store): (b: Broker)
    ensures b.Fits()
  {
    var r := BytesOf(f[BROKER_AT..BROKER_AT + BROKER_WORDS]);
    var b := if Intact(r, CFG_MAGIC) then BrokerOf(r) else DEFAULT_BROKER;
    b.(ioDevices := Clamped(b.ioDevices))
  }

  function LoadNtp(f: Store): (n: Ntp)
    ensures n.Fits()
  {
    var r := BytesOf(f[NTP_AT..NTP_AT + NTP_WORDS]);
    if Intact(r, CFG_NTP_MAGIC) then NtpOf(r) else DEFAULT_NTP
  }

  predicate Pending(f: Store) {
    f[FLAG_AT] == PENDING_MAGIC
  }

  /** The words of a broker record as they are stored. */
  function BrokerRecord(b: Broker): (w: seq<Word>)
    requires b.Fits()
    ensures |w| == BROKER_WORDS
  {
    WordsOf(Sealed(BrokerBody(b)))
  }

  function NtpRecord(n: Ntp): (w: seq<Word>)
    requires n.Fits()
    ensures |w| == NTP_WORDS
  {
    WordsOf(Sealed(NtpBody(n)))
  }

  function SaveBroker(f: Store, b: Broker): Store
    requires b.Fits()
  {
    Written(f, BROKER_AT, BrokerRecord(b))
  }

  function SaveNtp(f: Store, n: Ntp): Store
    requires n.Fits()
  {
    Written(f, NTP_AT, NtpRecord(n))
  }

  lemma {:induction false} ReadBack(f: Store, at: nat, data: seq<Word>)
    requires at + |data| <= WORDS
    ensures Written(f, at, data)[at..at + |data|] == data
  {
    var s := Written(f, at, data)[at..at + |data|];
    forall i | 0 <= i < |data| ensures s[i] == data[i] {
      WrittenAt(f, at, data, at + i);
    }
  }

  lemma {:induction false} WrittenAt(f: Store, at: nat, data: seq<Word>, k: nat)
    requires at + |data| <= WORDS && k < WORDS
    ensures Written(f, at, data)[k] == if at <= k < at + |data| then data[k - at] else f[k]
  {
  }

  lemma {:induction false} ReadElsewhere(f: Store, at: nat, data: seq<Word>, lo: nat, hi: nat)
    requires at + |data| <= WORDS && lo <= hi <= WORDS && (hi <= at || at + |data| <= lo)
    ensures Written(f, at, data)[lo..hi] == f[lo..hi]
  {
    var s, t := Written(f, at, data)[lo..hi], f[lo..hi];
    forall i | 0 <= i < hi - lo ensures s[i] == t[i] {
      WrittenAt(f, at, data, lo + i);
    }
  }

  /** A saved broker record is what the next ConfigInit loads. */
  lemma {:induction false} SavedBrokerLoads(f: Store, b: Broker)
    requires b.Fits()
    ensures LoadBroker(SaveBroker(f, b)) == b
  {
    hide Intact, BrokerOf, Clamped, Written, Sealed, BrokerBody;
    var r := Sealed(BrokerBody(b));
    ReadBack(f, BROKER_AT, WordsOf(r));
    BytesOfWordsOf(r);
    BrokerBodyMagic(b);
    SealedIsIntact(BrokerBody(b), CFG_MAGIC);
    BrokerRoundTrip(b);
    ClampIsIdentity(b.ioDevices);
  }

  lemma {:induction false} BrokerBodyMagic(b: Broker)
    requires b.Fits()
    ensures BrokerBody(b)[..4] == WordBytes(CFG_MAGIC)
  {
    hide WordBytes, PortBytes;
  }

  lemma {:induction false} SavedNtpLoads(f: Store, n: Ntp)
    requires n.Fits()
    ensures LoadNtp(SaveNtp(f, n)) == n
  {
    hide Intact, NtpOf, Written, Sealed, NtpBody;
    var r := Sealed(NtpBody(n));
    ReadBack(f, NTP_AT, WordsOf(r));
    BytesOfWordsOf(r);
    assert NtpBody(n)[..4] == WordBytes(CFG_NTP_MAGIC) by { NtpBodyMagic(n); }
    SealedIsIntact(NtpBody(n), CFG_NTP_MAGIC);
    NtpRoundTrip(n);
  }

  lemma {:induction false} NtpBodyMagic(n: Ntp)
    requires n.Fits()
    ensures NtpBody(n)[..4] == WordBytes(CFG_NTP_MAGIC)
  {
    hide WordBytes;
  }

  // ---------------------------------------------------------------------------
  // Any history of writes
  // ---------------------------------------------------------------------------

  datatype Event =
    | BrokerSaved(b: Broker)
    | NtpSaved(n: Ntp)
    | FlagSet(size: Word)
    | FlagCleared
    | ProductWrite(at: nat, data: seq<Word>)
  {
    predicate Legal() {
      match this
      case BrokerSaved(b) => b.Fits()
      case NtpSaved(n) => n.Fits()
      case ProductWrite(at, data) => ProductRange(at, |data|)
      case _ => true
    }
  }

  function Happen(f: Store, e: Event): Store
    requires e.Legal()
  {
    match e
    case BrokerSaved(b) => SaveBroker(f, b)
    case NtpSaved(n) => SaveNtp(f, n)
    case FlagSet(size) => Written(f, FLAG_AT, [PENDING_MAGIC, size])
    case FlagCleared => Written(f, FLAG_AT, [0, 0])
    case ProductWrite(at, data) => Written(f, at, data)
  }

  function History(f: Store, es: seq<Event>): Store
    requires forall e :: e in es ==> e.Legal()
    decreases |es|
  {
    if es == [] then f else History(Happen(f, es[0]), es[1..])
  }

  function LastBroker(b: Broker, es: seq<Event>): Broker
    decreases |es|
  {
    if es == [] then b else LastBroker(if es[0].BrokerSaved? then es[0].b else b, es[1..])
  }

  function LastNtp(n: Ntp, es: seq<Event>): Ntp
    decreases |es|
  {
    if es == [] then n else LastNtp(if es[0].NtpSaved? then es[0].n else n, es[1..])
  }

  function LastFlag(p: bool, es: seq<Event>): bool
    decreases |es|
  {
    if es == [] then p
    else LastFlag(if es[0].FlagSet? then true else if es[0].FlagCleared? then false else p, es[1..])
  }

  lemma {:induction false} OneEvent(f: Store, e: Event)
    requires e.Legal()
    ensures LoadBroker(Happen(f, e)) == if e.BrokerSaved? then e.b else LoadBroker(f)
    ensures LoadNtp(Happen(f, e)) == if e.NtpSaved? then e.n else LoadNtp(f)
    ensures Pending(Happen(f, e)) == if e.FlagSet? then true else if e.FlagCleared? then false else Pending(f)
  {
    hide LoadBroker, LoadNtp, Sealed, WordsOf, Written;
    var g := Happen(f, e);
    match e {
      case BrokerSaved(b) =>
        SavedBrokerLoads(f, b);
        Elsewhere(f, g, BROKER_AT, WordsOf(Sealed(BrokerBody(b))));
      case NtpSaved(n) =>
        SavedNtpLoads(f, n);
        Elsewhere(f, g, NTP_AT, WordsOf(Sealed(NtpBody(n))));
      case FlagSet(size) =>
        Elsewhere(f, g, FLAG_AT, [PENDING_MAGIC, size]);
        ReadBack(f, FLAG_AT, [PENDING_MAGIC, size]);
        FirstOfRange(g, FLAG_AT, [PENDING_MAGIC, size]);
      case FlagCleared =>
        Elsewhere(f, g, FLAG_AT, [0, 0]);
        ReadBack(f, FLAG_AT, [0, 0]);
        FirstOfRange(g, FLAG_AT, [0, 0]);
        MagicIsNotZero();
      case ProductWrite(at, data) =>
        Elsewhere(f, g, at, data);
    }
  }

  lemma {:induction false} MagicIsNotZero() ensures PENDING_MAGIC != 0 {}

  lemma {:induction false} FirstOfRange(f: Store, at: nat, data: seq<Word>)
    requires data != [] && at + |data| <= WORDS && f[at..at + |data|] == data
    ensures f[at] == data[0]
  {
    assert f[at] == f[at..at + |data|][0];
  }

  /** A write leaves alone whatever its range does not meet. */
  lemma {:induction false} Elsewhere(f: Store, g: Store, at: nat, data: seq<Word>)
    requires at + |data| <= WORDS && g == Written(f, at, data)
    ensures BROKER_AT + BROKER_WORDS <= at ==> LoadBroker(g) == LoadBroker(f)
    ensures at + |data| <= NTP_AT || NTP_AT + NTP_WORDS <= at ==> LoadNtp(g) == LoadNtp(f)
    ensures at + |data| <= FLAG_AT || FLAG_AT < at ==> Pending(g) == Pending(f)
  {
    hide Intact, BrokerOf, NtpOf, Clamped, BytesOf;
    if BROKER_AT + BROKER_WORDS <= at { ReadElsewhere(f, at, data, BROKER_AT, BROKER_AT + BROKER_WORDS); }
    if at + |data| <= NTP_AT || NTP_AT + NTP_WORDS <= at { ReadElsewhere(f, at, data, NTP_AT, NTP_AT + NTP_WORDS); }
  }

  /**
   Records never disturb each other: after any history of saves, flag changes and product
   writes, a power cycle loads the broker and NTP records saved last, and the flag is what
   was written last.
   */
  lemma {:induction false} PowerCycleRestores(f: Store, es: seq<Event>)
    requires forall e :: e in es ==> e.Legal()
    ensures LoadBroker(History(f, es)) == LastBroker(LoadBroker(f), es)
    ensures LoadNtp(History(f, es)) == LastNtp(LoadNtp(f), es)
    ensures Pending(History(f, es)) == LastFlag(Pending(f), es)
    decreases |es|
  {
    hide LoadBroker, LoadNtp, Pending, Happen;
    if es != [] {
      assert es[0] in es;
      OneEvent(f, es[0]);
      PowerCycleRestores(Happen(f, es[0]), es[1..]);
    }
  }

  // ---------------------------------------------------------------------------
  // Damage
  // ---------------------------------------------------------------------------

  lemma {:induction false} ByteAt(ws: seq<Word>, i: nat, j: nat)
    requires i < |ws| && j < 4
    ensures BytesOf(ws)[4 * i + j] == WordBytes(ws[i])[j]
    decreases i
  {
    assert BytesOf(ws) == WordBytes(ws[0]) + BytesOf(ws[1..]);
    hide BytesOf, WordBytes;
    if i > 0 {
      ByteAt(ws[1..], i - 1, j);
      assert 4 * i + j - 4 == 4 * (i - 1) + j;
    }
  }

  lemma {:induction false} Differing(a: seq<byte>, b: seq<byte>) returns (j: nat)
    requires |a| == |b| && a != b
    ensures j < |a| && a[j] != b[j]
  {
    if a[0] != b[0] {
      j := 0;
    } else {
      assert a == [a[0]] + a[1..] && b == [b[0]] + b[1..];
      j := Differing(a[1..], b[1..]);
      j := j + 1;
    }
  }

  /** Changing one word changes its bytes and no others. */
  lemma {:induction false} OneWordChanged(ws: seq<Word>, i: nat, w: Word)
    requires i < |ws| && w != ws[i]
    ensures BytesOf(ws[i := w]) != BytesOf(ws)
    ensures forall k :: 0 <= k < 4 * |ws| && !(4 * i <= k < 4 * i + 4) ==> BytesOf(ws[i := w])[k] == BytesOf(ws)[k]
  {
    hide WordBytes, BytesWord, BytesOf;
    var vs := ws[i := w];
    forall k | 0 <= k < 4 * |ws| && !(4 * i <= k < 4 * i + 4) ensures BytesOf(vs)[k] == BytesOf(ws)[k] {
      ByteAt(vs, k / 4, k % 4);
      ByteAt(ws, k / 4, k % 4);
    }
    WordBytesRoundTrip(w);
    WordBytesRoundTrip(ws[i]);
    var j := Differing(WordBytes(w), WordBytes(ws[i]));
    ByteAt(vs, i, j);
    ByteAt(ws, i, j);
  }

  /** A sealed record with one word changed is no longer intact. */
  lemma {:induction false} WordDamageBreaksSeal(body: seq<byte>, i: nat, w: Word, magic: Word)
    requires |body| % 4 == 0 && |body| >= 4 && 4 * i < |body| + 4
    requires w != WordsOf(Sealed(body))[i]
    ensures !Intact(BytesOf(WordsOf(Sealed(body))[i := w]), magic)
  {
    hide WordsOf, Intact, Sealed, BytesOf;
    var ws := WordsOf(Sealed(body));
    BytesOfWordsOf(Sealed(body));
    OneWordChanged(ws, i, w);
    DamageBreaksSeal(body, BytesOf(ws[i := w]), 4 * i, magic);
  }

  /** Whatever word of a saved broker record goes bad, the next boot falls back to the defaults. */
  lemma {:induction false} DamagedBrokerRejected(f: Store, b: Broker, i: nat, w: Word)
    requires b.Fits() && i < BROKER_WORDS && w != SaveBroker(f, b)[BROKER_AT + i]
    ensures LoadBroker(SaveBroker(f, b)[BROKER_AT + i := w]) == DEFAULT_BROKER
  {
    hide Intact, BrokerOf, Clamped, Sealed, BrokerBody, WordsOf;
    var ws := WordsOf(Sealed(BrokerBody(b)));
    var g := SaveBroker(f, b);
    assert g[BROKER_AT + i] == ws[i];
    assert g[BROKER_AT + i := w][BROKER_AT..BROKER_AT + BROKER_WORDS] == ws[i := w];
    WordDamageBreaksSeal(BrokerBody(b), i, w, CFG_MAGIC);
    ClampIsIdentity(DEFAULT_BROKER.ioDevices);
  }

  /** The same for the NTP record. */
  lemma {:induction false} DamagedNtpRejected(f: Store, n: Ntp, i: nat, w: Word)
    requires n.Fits() && i < NTP_WORDS && w != SaveNtp(f, n)[NTP_AT + i]
    ensures LoadNtp(SaveNtp(f, n)[NTP_AT + i := w]) == DEFAULT_NTP
  {
    hide Intact, NtpOf, Sealed, NtpBody, WordsOf;
    var ws := WordsOf(Sealed(NtpBody(n)));
    var g := SaveNtp(f, n);
    assert g[NTP_AT + i] == ws[i];
    assert g[NTP_AT + i := w][NTP_AT..NTP_AT + NTP_WORDS] == ws[i := w];
    WordDamageBreaksSeal(NtpBody(n), i, w, CFG_NTP_MAGIC);
  }

  // ---------------------------------------------------------------------------
  // Factory reset
  // ---------------------------------------------------------------------------

  /** The first k of the three magic words ConfigFactoryReset clears. */
  function ResetSteps(f: Store, k: nat): Store
    requires k <= 3
  {
    var f1 := if k >= 1 then Written(f, BROKER_AT, [0]) else f;
    var f2 := if k >= 2 then Written(f1, FLAG_AT, [0]) else f1;
    if k >= 3 then Written(f2, NTP_AT, [0]) else f2
  }

  lemma {:induction false} ZeroMagicRejected(r: seq<byte>, magic: Word)
    requires |r| >= 8 && r[..4] == WordBytes(0) && magic != 0
    ensures !Intact(r, magic)
  {
    hide BytesWord, WordBytes;
    WordBytesRoundTrip(0);
  }

  lemma {:induction false} ClearedBroker(f: Store)
    requires f[BROKER_AT] == 0
    ensures LoadBroker(f) == DEFAULT_BROKER
  {
    hide Intact, BrokerOf, Clamped, WordBytes;
    var ws := f[BROKER_AT..BROKER_AT + BROKER_WORDS];
    assert ws[0] == 0 && BytesOf(ws)[..4] == WordBytes(0);
    ZeroMagicRejected(BytesOf(ws), CFG_MAGIC);
    ClampIsIdentity(DEFAULT_BROKER.ioDevices);
  }

  lemma {:induction false} ClearedNtp(f: Store)
    requires f[NTP_AT] == 0
    ensures LoadNtp(f) == DEFAULT_NTP
  {
    hide Intact, NtpOf, WordBytes;
    var ws := f[NTP_AT..NTP_AT + NTP_WORDS];
    assert ws[0] == 0 && BytesOf(ws)[..4] == WordBytes(0);
    ZeroMagicRejected(BytesOf(ws), CFG_NTP_MAGIC);
  }

  /** A factory reset cut short leaves each record as it was or at its default, never in between. */
  lemma {:induction false} ResetIsSafe(f: Store, k: nat)
    requires k <= 3
    ensures LoadBroker(ResetSteps(f, k)) == if k >= 1 then DEFAULT_BROKER else LoadBroker(f)
    ensures Pending(ResetSteps(f, k)) == if k >= 2 then false else Pending(f)
    ensures LoadNtp(ResetSteps(f, k)) == if k >= 3 then DEFAULT_NTP else LoadNtp(f)
  {
    hide LoadBroker, LoadNtp;
    var f1 := if k >= 1 then Written(f, BROKER_AT, [0]) else f;
    var f2 := if k >= 2 then Written(f1, FLAG_AT, [0]) else f1;
    if k >= 1 {
      ClearedBroker(f1);
      Elsewhere(f, f1, BROKER_AT, [0]);
    }
    if k >= 2 {
      Elsewhere(f1, f2, FLAG_AT, [0]);
      MagicIsNotZero();
    }
    if k >= 3 {
      Elsewhere(f2, ResetSteps(f, k), NTP_AT, [0]);
      ClearedNtp(ResetSteps(f, k));
    }
  }
}
