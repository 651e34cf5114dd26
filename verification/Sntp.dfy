/** The SNTP client: its retry timers, and the time of day it shows. */
module Sntp {
  import opened Common

  const RETRY_MS: nat := 30000
  const REPLY_MS: nat := 5000
  const RESYNC_MS: nat := 3600000
  const EPOCH_DELTA: nat := 2208988800
  const WRAP: nat := 0x1_0000_0000

  datatype SntpState = Idle | DnsPending | WaitReply | Synced

  datatype Sntp = Sntp(state: SntpState, pcb: bool, elapsed: nat, synced: bool, base: nat, sinceSync: nat)

  const POWER_UP := Sntp(Idle, false, 0, false, 0, 0)

  /** What the stack answers to a start: is there a socket to be had, is the address cached. */
  datatype Env = Env(udp: bool, cached: bool)

  /** SntpInit. */
  function Init(s: Sntp, env: Env): Sntp {
    if !s.pcb && !env.udp then s
    else s.(pcb := true, elapsed := 0, state := if env.cached then WaitReply else DnsPending)
  }

  function Limit(state: SntpState): nat {
    match state
    case Idle => RETRY_MS
    case DnsPending => RETRY_MS
    case WaitReply => REPLY_MS
    case Synced => RESYNC_MS
  }

  /** This tick calls SntpInit. */
  predicate Inits(s: Sntp, ms: nat) {
    (s.state.Idle? || s.state.Synced?) && s.elapsed + ms >= Limit(s.state)
  }

  /** SntpTick. */
  function Tick(s: Sntp, ms: nat, env: Env): Sntp {
    var t := s.(elapsed := s.elapsed + ms, sinceSync := if s.synced then (s.sinceSync + ms) % WRAP else s.sinceSync);
    if t.elapsed < Limit(t.state) then t
    else if t.state.Idle? || t.state.Synced? then Init(t.(elapsed := 0), env)
    else t.(state := Idle, elapsed := 0)
  }

  /** SntpDnsCB; the request it sends has no effect on the state. */
  function Resolved(s: Sntp, found: bool): Sntp {
    s.(state := if found then WaitReply else Idle, elapsed := 0)
  }

  function Seconds(packet: Octets): nat
    requires |packet| >= 44
  {
    var (a: nat, b: nat, c: nat) := (packet[40], packet[41], packet[42]);
    a * 16777216 + b * 65536 + c * 256 + packet[43]
  }

  /** SntpRecvCB. */
  function Received(s: Sntp, packet: Octets): Sntp {
    if |packet| < 48 then s
    else if Seconds(packet) < EPOCH_DELTA then s.(state := DnsPending, elapsed := 0)
    else s.(base := Seconds(packet) - EPOCH_DELTA, sinceSync := 0, synced := true, state := Synced, elapsed := 0)
  }

  // ---------------------------------------------------------------------------
  // It never stops trying
  // ---------------------------------------------------------------------------

  datatype Ticking = Ticking(ms: nat, env: Env)

  function Run(s: Sntp, ts: seq<Ticking>): Sntp
    decreases |ts|
  {
    if ts == [] then s else Run(Tick(s, ts[0].ms, ts[0].env), ts[1..])
  }

  predicate Quiet(s: Sntp, ts: seq<Ticking>)
    decreases |ts|
  {
    ts == [] || (!Inits(s, ts[0].ms) && Quiet(Tick(s, ts[0].ms, ts[0].env), ts[1..]))
  }

  function Total(ts: seq<Ticking>): nat {
    if ts == [] then 0 else ts[0].ms + Total(ts[1..])
  }

  predicate Waits(s: Sntp) { s.state.DnsPending? || s.state.WaitReply? }

  /** An upper bound on the tick time to the next start, while each tick brings at most max ms. */
  function Rank(s: Sntp, max: nat): nat {
    var left := if s.elapsed < Limit(s.state) then Limit(s.state) - s.elapsed else 0;
    if Waits(s) then left + max + RETRY_MS else left
  }

  lemma {:induction false} RankFalls(s: Sntp, ms: nat, env: Env, max: nat)
    requires !Inits(s, ms) && ms <= max
    ensures Rank(Tick(s, ms, env), max) + ms <= Rank(s, max)
  {
  }

  /**
   From every state, with no callback arriving, a new start comes before the tick time exceeds the
   rank: at most 30 s when idle, an hour when synced, one tick more than 60 s while resolving and
   than 35 s while waiting for a reply.
   */
  lemma {:induction false} StartsAgain(s: Sntp, ts: seq<Ticking>, max: nat)
    requires forall t :: t in ts ==> t.ms <= max
    requires Quiet(s, ts)
    ensures Total(ts) <= Rank(s, max)
    decreases |ts|
  {
    if ts != [] {
      assert ts[0] in ts;
      RankFalls(s, ts[0].ms, ts[0].env, max);
      StartsAgain(Tick(s, ts[0].ms, ts[0].env), ts[1..], max);
    }
  }

  /** When the next start comes is exact while nothing is under way. */
  lemma {:induction false} StartExact(s: Sntp, ts: seq<Ticking>, ms: nat)
    requires (s.state.Idle? || s.state.Synced?) && Quiet(s, ts)
    ensures Inits(Run(s, ts), ms) <==> s.elapsed + Total(ts) + ms >= Limit(s.state)
    decreases |ts|
  {
    if ts != [] { StartExact(Tick(s, ts[0].ms, ts[0].env), ts[1..], ms); }
  }

  /** So is how long a lookup or a request is waited for; after it the client is idle and starts counting anew. */
  lemma {:induction false} WaitExact(s: Sntp, ts: seq<Ticking>, ms: nat, env: Env)
    requires Waits(s) && s.elapsed + Total(ts) < Limit(s.state)
    ensures
      var r := Tick(Run(s, ts), ms, env);
      if s.elapsed + Total(ts) + ms >= Limit(s.state) then r.state.Idle? && r.elapsed == 0 else r.state == s.state
    decreases |ts|
  {
    if ts != [] { WaitExact(Tick(s, ts[0].ms, ts[0].env), ts[1..], ms, env); }
  }

  /**
   The answer to a lookup.  With an address the client waits for a reply, for 5000 ms exactly; without one
   it starts again when 30000 ms have passed, and not before.
   */
  lemma {:induction false} LookupExact(s: Sntp, found: bool, ts: seq<Ticking>, ms: nat, env: Env)
    requires if found then Total(ts) < REPLY_MS else Quiet(Resolved(s, found), ts)
    ensures
      var r := Run(Resolved(s, found), ts);
      if found then (Tick(r, ms, env).state.WaitReply? <==> Total(ts) + ms < REPLY_MS)
      else (Inits(r, ms) <==> Total(ts) + ms >= RETRY_MS)
  {
    if found { WaitExact(Resolved(s, found), ts, ms, env); }
    else { StartExact(Resolved(s, found), ts, ms); }
  }

  /**
   What a start comes to.  With a socket, an address known already is asked at once and any other is looked
   up; without one the client counts to its next start again.
   */
  lemma {:induction false} StartOutcome(s: Sntp, ms: nat, env: Env)
    requires Inits(s, ms)
    ensures
      var r := Tick(s, ms, env);
      && r.elapsed == 0
      && (r.state.WaitReply? <==> (s.pcb || env.udp) && env.cached)
      && (r.state.DnsPending? <==> (s.pcb || env.udp) && !env.cached)
      && (r.state == s.state <==> !s.pcb && !env.udp)
  {
  }

  // ---------------------------------------------------------------------------
  // The clock
  // ---------------------------------------------------------------------------

  /** A 32-bit number, most significant byte first, as the standard puts it on the wire. */
  function Stamp(n: nat): (b: Octets)
    requires n < WRAP
    ensures |b| == 4
  {
    [n / 0x100_0000, n / 0x1_0000 % 256, n / 0x100 % 256, n % 256]
  }

  lemma {:induction false} StampRead(n: nat, packet: Octets)
    requires n < WRAP && |packet| >= 44 && packet[40..44] == Stamp(n)
    ensures Seconds(packet) == n
  {
    var b := packet[40..44];
    assert b[0] == packet[40] && b[1] == packet[41] && b[2] == packet[42] && b[3] == packet[43];
    StampParts(n);
  }

  lemma {:induction false} StampParts(n: nat)
    ensures n == n / 0x100_0000 * 0x100_0000 + n / 0x1_0000 % 256 * 0x1_0000 + n / 0x100 % 256 * 0x100 + n % 256
  {
    var n1 := n / 0x100;
    var n2 := n1 / 0x100;
    assert n == 0x100 * n1 + n % 0x100 && n1 == 0x100 * n2 + n1 % 0x100 && n2 == 0x100 * (n2 / 0x100) + n2 % 0x100;
    Nested(n);
  }

  lemma {:induction false} Nested(n: nat)
    ensures n / 0x100 / 0x100 == n / 0x1_0000 && n / 0x100 / 0x100 / 0x100 == n / 0x100_0000
  {
  }

  /** A reply of 48 bytes or more with the time u in its transmit timestamp (section 7.3 of RFC 5905). */
  predicate Tells(packet: Octets, u: nat) {
    |packet| >= 48 && u + EPOCH_DELTA < WRAP && packet[40..44] == Stamp(u + EPOCH_DELTA)
  }

  /** A reply sets the clock to the time it tells, whatever the client was doing. */
  lemma {:induction false} ReplySetsClock(s: Sntp, packet: Octets, u: nat)
    requires Tells(packet, u)
    ensures
      var r := Received(s, packet);
      r.synced && r.state.Synced? && r.sinceSync == 0 && r.elapsed == 0 && Now(r) == u
  {
    StampRead(u + EPOCH_DELTA, packet);
    hide Seconds;
  }

  /**
   From datagram to face: once a reply has told the time u, and ticks have brought less than 2^32 ms since, the
   client shows the time of day of u and that much more, in the time zone asked for, exactly when
   the offset stays in range.
   */
  lemma {:induction false} ReplyShown(s: Sntp, packet: Octets, u: nat, ts: seq<Ticking>, tz: int)
    requires Tells(packet, u) && Total(ts) < WRAP && -24 < tz < 24
    ensures
      var r, now := Run(Received(s, packet), ts), u + Total(ts) / 1000;
      && r.synced && Now(r) == now
      && (OfDay(Clock(Local(Now(r), tz))) == (now + tz * 3600) % 86400 <==> 0 <= now + tz * 3600 < WRAP)
  {
    ReplySetsClock(s, packet, u);
    var r := Received(s, packet);
    TellsSmall(packet, u, Total(ts));
    hide Received, Run, Tells, Clock, OfDay, Local;
    ClockRunsExact(r, ts);
    ClockRuns(r, ts);
    assert Now(Run(r, ts)) == u + Total(ts) / 1000 by {
      SmallNow(r, u, Total(ts));
    }
    ClockRight(Now(Run(r, ts)), tz);
  }

  lemma {:induction false} TellsSmall(packet: Octets, u: nat, ms: nat)
    requires Tells(packet, u) && ms < WRAP
    ensures u + ms / 1000 < WRAP && ms / WRAP % 1000 == 0
  {
  }

  lemma {:induction false} SmallNow(r: Sntp, u: nat, ms: nat)
    requires Now(r) == u && r.sinceSync == 0 && u + ms / 1000 < WRAP
    ensures (r.base + ms / 1000) % WRAP == u + ms / 1000
  {
    var k := WrappedSplit(r.base);
    WrappedMore(u + ms / 1000, k);
    WrappedBelow(u + ms / 1000);
  }

  /**
   A reply that is too short changes nothing, and one from before 1970 leaves the clock as it was; the
   client then tries again within the time StartsAgain gives for a lookup.
   */
  lemma {:induction false} ReplyRefused(s: Sntp, packet: Octets, n: nat)
    requires |packet| >= 48 ==> n < EPOCH_DELTA && packet[40..44] == Stamp(n)
    ensures
      var r := Received(s, packet);
      && r.synced == s.synced && r.base == s.base && r.sinceSync == s.sinceSync
      && (|packet| < 48 ==> r == s)
      && (|packet| >= 48 ==> r.state.DnsPending? && r.elapsed == 0)
  {
    if |packet| >= 48 { StampRead(n, packet); }
  }

  /** The UTC seconds the client reckons with. */
  function Now(s: Sntp): nat {
    (s.base + s.sinceSync / 1000) % WRAP
  }

  /** SntpGetTimeStr, up to printing: 32-bit arithmetic, clamped at 0 for a negative offset. */
  function Local(now: nat, tz: int): nat {
    if tz >= 0 then (now + tz * 3600) % WRAP
    else if now > -tz * 3600 then now - -tz * 3600
    else 0
  }

  function Clock(unix: nat): (nat, nat, nat) {
    (unix / 3600 % 24, unix / 60 % 60, unix % 60)
  }

  /** The seconds of the day that a clock face shows. */
  function OfDay(face: (nat, nat, nat)): nat {
    face.0 * 3600 + face.1 * 60 + face.2
  }

  lemma {:induction false} ClockShowsTheDay(unix: nat)
    ensures OfDay(Clock(unix)) == unix % 86400
  {
    var minutes := unix / 60;
    HoursOf(unix);
    var hours, day := minutes / 60, minutes / 60 / 24;
    assert unix == 60 * minutes + unix % 60;
    assert minutes == 60 * hours + minutes % 60;
    assert hours == 24 * day + hours % 24;
    DayOf(unix, day, OfDay(Clock(unix)));
  }

  lemma {:induction false} HoursOf(unix: nat)
    ensures unix / 60 / 60 == unix / 3600
  {
    var h := unix / 3600;
    assert unix == 3600 * h + unix % 3600;
    assert unix / 60 == 60 * h + unix % 3600 / 60;
  }

  lemma {:induction false} DayOf(n: nat, day: nat, rest: nat)
    requires n == 86400 * day + rest && rest < 86400
    ensures n % 86400 == rest
  {
  }

  /**
   The clock shows local time exactly when the offset takes the seconds neither below 0 nor past
   32 bits.
   */
  lemma {:induction false} ClockRight(now: nat, tz: int)
    requires now < WRAP && -24 < tz < 24
    ensures OfDay(Clock(Local(now, tz))) == (now + tz * 3600) % 86400 <==> 0 <= now + tz * 3600 < WRAP
  {
    ClockShowsTheDay(Local(now, tz));
    hide OfDay, Clock;
    if now + tz * 3600 < 0 {
      assert (now + tz * 3600) % 86400 == now + tz * 3600 + 86400;
    }
    if now + tz * 3600 >= WRAP {
      var over := now + tz * 3600 - WRAP;
      assert (over + WRAP) % WRAP == over;
      Drift(over);
    }
  }

  /** 2^32 seconds are not a whole number of days. */
  lemma {:induction false} Drift(n: nat)
    ensures n % 86400 != (n + WRAP) % 86400
  {
    assert WRAP == 49710 * 86400 + 23296;
  }

  /** While no reply arrives, the counter advances by the tick time, in 32 bits. */
  lemma {:induction false} ClockRuns(s: Sntp, ts: seq<Ticking>)
    requires s.synced && s.sinceSync < WRAP
    ensures Run(s, ts).synced && Run(s, ts).base == s.base
    ensures Run(s, ts).sinceSync == Wrapped(s.sinceSync + Total(ts))
    decreases |ts|
  {
    if ts == [] {
      WrappedBelow(s.sinceSync);
    } else {
      ClockTick(s, ts[0].ms, ts[0].env);
      WrappedSum(s.sinceSync + ts[0].ms, Total(ts[1..]));
      hide Tick, Wrapped;
      ClockRuns(Tick(s, ts[0].ms, ts[0].env), ts[1..]);
    }
  }

  /** An unsigned 32-bit counter. */
  function Wrapped(n: nat): (w: nat)
    ensures w < WRAP
  {
    n % WRAP
  }

  lemma {:induction false} ClockTick(s: Sntp, ms: nat, env: Env)
    requires s.synced
    ensures var t := Tick(s, ms, env); t.synced && t.base == s.base && t.sinceSync == Wrapped(s.sinceSync + ms)
  {
  }

  lemma {:induction false} WrappedBelow(n: nat)
    ensures n < WRAP ==> Wrapped(n) == n
  {
  }

  lemma {:induction false} WrappedMore(n: nat, k: nat)
    ensures Wrapped(WRAP * k + n) == Wrapped(n)
  {
  }

  lemma {:induction false} WrappedSplit(n: nat) returns (k: nat)
    ensures n == WRAP * k + Wrapped(n) && k == n / WRAP
  {
    k := n / WRAP;
  }

  lemma {:induction false} WrappedSum(a: nat, b: nat)
    ensures Wrapped(Wrapped(a) + b) == Wrapped(a + b)
  {
    var k := WrappedSplit(a);
    WrappedMore(Wrapped(a) + b, k);
    hide Wrapped;
  }

  /** Two counts less than 2^32 apart are told apart. */
  lemma {:induction false} WrappedApart(n: nat, d: nat)
    requires 0 < d < WRAP
    ensures Wrapped(n + d) != Wrapped(n)
  {
    var k := WrappedSplit(n);
    var l := WrappedSplit(n + d);
    hide Wrapped;
    assert d == WRAP * (l - k) + Wrapped(n + d) - Wrapped(n);
  }

  /**
   The counter is one of milliseconds, so every 49 days it wraps and the clock falls behind.  While no
   reply arrives the seconds reckoned with are right exactly as long as it has not wrapped since the
   last one, and again each time the wraps come to a multiple of 1000.
   */
  lemma {:induction false} ClockRunsExact(s: Sntp, ts: seq<Ticking>)
    requires s.synced && s.sinceSync < WRAP
    ensures
      var ms := s.sinceSync + Total(ts);
      Now(Run(s, ts)) == (s.base + ms / 1000) % WRAP <==> ms / WRAP % 1000 == 0
  {
    ClockRuns(s, ts);
    SecondsExact(s.base, s.sinceSync + Total(ts));
  }

  lemma {:induction false} SecondsExact(base: nat, ms: nat)
    ensures Wrapped(base + Wrapped(ms) / 1000) == Wrapped(base + ms / 1000) <==> ms / WRAP % 1000 == 0
  {
    var q := WrappedSplit(ms);
    var a, b, r := q / 1000, q % 1000, Wrapped(ms);
    assert q == 1000 * a + b;
    var u, v := (WRAP * b + r) / 1000, r / 1000;
    SecondsOf(ms, a, b, r);
    WrappedMore(base + u, a);
    Seconds1000(WRAP * b + r, u);
    Seconds1000(r, v);
    hide Wrapped;
    if b > 0 { WrappedApart(base + v, u - v); }
  }

  lemma {:induction false} Seconds1000(n: nat, q: nat)
    requires q == n / 1000
    ensures 1000 * q <= n < 1000 * q + 1000
  {
  }

  lemma {:induction false} SecondsOf(ms: nat, a: nat, b: nat, r: nat)
    requires ms == WRAP * (1000 * a + b) + r
    ensures ms / 1000 == WRAP * a + (WRAP * b + r) / 1000
  {
    assert ms == 1000 * (WRAP * a) + (WRAP * b + r);
  }

  // ---------------------------------------------------------------------------
  // The code
  // ---------------------------------------------------------------------------

  /** What ends up in the caller's buffer. */
  datatype Text = Untouched | Dashes | Face(hms: (nat, nat, nat))

  class Client {
    var state: SntpState
    var pcb: bool
    var elapsed: nat
    var synced: bool
    var base: nat
    var sinceSync: nat

    ghost function View(): Sntp
      reads this
    {
      Sntp(state, pcb, elapsed, synced, base, sinceSync)
    }

    constructor ()
      ensures View() == POWER_UP
    {
      state, pcb, elapsed, synced, base, sinceSync := Idle, false, 0, false, 0, 0;
    }

    method SntpInit(env: Env)
      modifies this
      ensures View() == Init(old(View()), env)
    {
      if !pcb {
        pcb := env.udp;
        if !pcb { return; }
      }
      state := DnsPending;
      elapsed := 0;
      if env.cached { state := WaitReply; }
    }

    method SntpDnsCB(found: bool)
      modifies this
      ensures View() == Resolved(old(View()), found)
    {
      elapsed := 0;
      if !found {
        state := Idle;
        return;
      }
      state := WaitReply;
    }

    method SntpRecvCB(packet: Octets)
      modifies this
      ensures View() == Received(old(View()), packet)
    {
      if |packet| < 48 { return; }
      var seconds := Seconds(packet);
      if seconds < EPOCH_DELTA {
        state := DnsPending;
        elapsed := 0;
        return;
      }
      base := seconds - EPOCH_DELTA;
      sinceSync := 0;
      synced := true;
      state := Synced;
      elapsed := 0;
    }

    method SntpTick(ms: nat, env: Env)
      modifies this
      ensures View() == Tick(old(View()), ms, env)
    {
      elapsed := elapsed + ms;
      if synced { sinceSync := (sinceSync + ms) % WRAP; }
      match state {
        case Idle =>
          if elapsed >= RETRY_MS {
            elapsed := 0;
            SntpInit(env);
          }
        case DnsPending =>
          if elapsed >= RETRY_MS {
            state := Idle;
            elapsed := 0;
          }
        case WaitReply =>
          if elapsed >= REPLY_MS {
            state := Idle;
            elapsed := 0;
          }
        case Synced =>
          if elapsed >= RESYNC_MS {
            elapsed := 0;
            SntpInit(env);
          }
      }
    }

    /** SntpGetTimeStr, up to printing, for a buffer of len bytes. */
    method SntpGetTime(tz: int, len: int) returns (text: Text)
      ensures text ==
        if len < 9 then Untouched else if synced then Face(Clock(Local(Now(View()), tz))) else Dashes
    {
      if !synced || len < 9 {
        return if len >= 9 then Dashes else Untouched;
      }
      var unix := (base + sinceSync / 1000) % WRAP;
      if tz >= 0 {
        unix := (unix + tz * 3600) % WRAP;
      } else {
        var sub := -tz * 3600;
        unix := if unix > sub then unix - sub else 0;
      }
      return Face((unix / 3600 % 24, unix / 60 % 60, unix % 60));
    }
  }
}
