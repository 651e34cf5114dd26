/**
 The connection machine of the MQTT client: five states, three timers, and what the network
 may do between ticks.
 */
module MqttConn {
  import opened Common

  datatype CliState = Idle | Dns | Tcp | Connecting | Ready

  const RECONNECT_MS: nat := 5000
  const GUARD_MS: nat := 10000
  const PING_MS: nat := 30000
  const PING_TIMEOUT_MS: nat := 60000

  /** The part of the client state that the machine runs on; pcb says whether there is a connection block. */
  datatype Cli = Cli(
    state: CliState,
    pcb: bool,
    enabled: bool,
    hasHost: bool,
    keepAliveMs: nat,
    reconnectMs: nat,
    pingWaitMs: nat
  )

  /** MQTTClientInit. */
  const INIT := Cli(Idle, false, false, false, 0, 0, 0)

  datatype DnsAnswer = Cached | InProgress | Failed

  /** What the network stack answers to the calls a step makes. */
  datatype Env = Env(literal: bool, dns: DnsAnswer, newPcb: bool, connect: bool, write: bool)

  datatype Event =
    | Start(hasHost: bool)
    | Stop
    | Tick(ms: nat, env: Env)
    | DnsFound(ok: bool, env: Env)
    | Connected(env: Env)
    | ConnAck(accepted: bool)
    | PingResp
    | Closed
    | Error
    | Send(env: Env)

  // ---------------------------------------------------------------------------
  // The steps
  // ---------------------------------------------------------------------------

  /** Every failure ends here. */
  function Fail(c: Cli): Cli {
    c.(state := Idle, pcb := false, reconnectMs := RECONNECT_MS)
  }

  /** MQTTDNSFoundCB. */
  function Resolved(c: Cli, ok: bool, env: Env): Cli {
    if !ok then c.(state := Idle, reconnectMs := RECONNECT_MS)
    else if !env.newPcb || !env.connect then Fail(c)
    else c.(state := Tcp, pcb := true)
  }

  /** MQTTTryConnect. */
  function TryConnect(c: Cli, env: Env): Cli {
    if !c.hasHost then c
    else if env.literal then Resolved(c.(state := Tcp), true, env)
    else
      match env.dns
      case Cached => Resolved(c.(state := Dns), true, env)
      case InProgress => c.(state := Dns)
      case Failed => c.(state := Idle, reconnectMs := RECONNECT_MS)
  }

  predicate CanSend(c: Cli) {
    c.pcb && (c.state.Connecting? || c.state.Ready?)
  }

  /** MQTTSendRaw: a successful write restarts the keep-alive timer. */
  function SendRaw(c: Cli, env: Env): Cli {
    if CanSend(c) && env.write then c.(keepAliveMs := 0) else c
  }

  /** A ping goes out, and is waited for even if its write fails. */
  function Pinged(c: Cli, env: Env): Cli {
    SendRaw(c, env).(pingWaitMs := if c.pingWaitMs == 0 then 1 else c.pingWaitMs)
  }

  /** Time passes while a ping is unanswered. */
  function Waited(c: Cli, ms: nat): Cli {
    if c.pingWaitMs == 0 then c
    else if c.pingWaitMs + ms > PING_TIMEOUT_MS then Fail(c.(pingWaitMs := c.pingWaitMs + ms))
    else c.(pingWaitMs := c.pingWaitMs + ms)
  }

  /** The tick of a ready client: ping at half the interval, drop when a ping stays unanswered. */
  function ReadyTick(c: Cli, ms: nat, env: Env): Cli {
    var c1 := c.(keepAliveMs := c.keepAliveMs + ms);
    Waited(if c1.keepAliveMs >= PING_MS then Pinged(c1, env) else c1, ms)
  }

  /** MQTTClientTick. */
  function Ticked(c: Cli, ms: nat, env: Env): Cli {
    match c.state
    case Idle =>
      if !c.enabled || !c.hasHost then c
      else if c.reconnectMs <= ms then TryConnect(c.(reconnectMs := 0), env)
      else c.(reconnectMs := c.reconnectMs - ms)
    case Ready => ReadyTick(c, ms, env)
    case _ =>
      var c1 := c.(keepAliveMs := c.keepAliveMs + ms);
      if c1.keepAliveMs > GUARD_MS then Fail(c1) else c1
  }

  function Step(c: Cli, e: Event): Cli {
    match e
    case Start(hasHost) => c.(pcb := false, state := Idle, enabled := true, hasHost := hasHost, reconnectMs := 0)
    case Stop => c.(pcb := false, state := Idle, enabled := false)
    case Tick(ms, env) => Ticked(c, ms, env)
    case DnsFound(ok, env) => Resolved(c, ok, env)
    case Connected(env) => SendRaw(c.(state := Connecting, keepAliveMs := 0, pingWaitMs := 0), env)
    case ConnAck(accepted) => if accepted then c.(state := Ready) else Fail(c)
    case PingResp => c.(pingWaitMs := 0)
    case Closed => Fail(c)
    case Error => Fail(c)
    case Send(env) => if c.state.Ready? then SendRaw(c, env) else c
  }

  /** What the environment may do: answers only to what is under way. */
  predicate Legal(c: Cli, e: Event) {
    match e
    case DnsFound(_, _) => c.state.Dns?
    case Connected(_) => c.state.Tcp?
    case ConnAck(_) => c.state.Connecting?
    case PingResp => c.pcb
    case Closed => c.pcb
    case Error => c.pcb
    case _ => true
  }

  function Run(c: Cli, es: seq<Event>): Cli
    decreases |es|
  {
    if es == [] then c else Run(Step(c, es[0]), es[1..])
  }

  predicate LegalRun(c: Cli, es: seq<Event>)
    decreases |es|
  {
    es == [] || (Legal(c, es[0]) && LegalRun(Step(c, es[0]), es[1..]))
  }

  // ---------------------------------------------------------------------------
  // The connection block
  // ---------------------------------------------------------------------------

  /** There is no connection block exactly in the idle and DNS states. */
  predicate PcbInv(c: Cli) {
    c.pcb <==> !c.state.Idle? && !c.state.Dns?
  }

  lemma {:induction false} PcbAlways(es: seq<Event>)
    requires LegalRun(INIT, es)
    ensures PcbInv(Run(INIT, es))
  {
    PcbKept(INIT, es);
  }

  lemma {:induction false} PcbKept(c: Cli, es: seq<Event>)
    requires PcbInv(c) && LegalRun(c, es)
    ensures PcbInv(Run(c, es))
    decreases |es|
  {
    if es != [] { PcbKept(Step(c, es[0]), es[1..]); }
  }

  // ---------------------------------------------------------------------------
  // Backoff between attempts
  // ---------------------------------------------------------------------------

  /** This event starts a connection attempt. */
  predicate Attempts(c: Cli, e: Event) {
    e.Tick? && c.state.Idle? && c.enabled && c.hasHost && c.reconnectMs <= e.ms
  }

  /** Tick time spent in the idle state. */
  function IdleMs(c: Cli, es: seq<Event>): nat
    decreases |es|
  {
    if es == [] then 0
    else (if es[0].Tick? && c.state.Idle? then es[0].ms else 0) + IdleMs(Step(c, es[0]), es[1..])
  }

  predicate NoStart(es: seq<Event>) {
    forall e :: e in es ==> !e.Start?
  }

  /** waited ms of idle time have passed since the last attempt or failure. */
  predicate Backoff(c: Cli, waited: nat) {
    c.state.Idle? && c.enabled && c.hasHost ==> waited + c.reconnectMs >= RECONNECT_MS
  }

  lemma {:induction false} BackoffKept(c: Cli, es: seq<Event>, e: Event, waited: nat)
    requires PcbInv(c) && LegalRun(c, es) && NoStart(es) && Backoff(c, waited)
    requires Attempts(Run(c, es), e)
    ensures waited + IdleMs(c, es) + e.ms >= RECONNECT_MS
    decreases |es|
  {
    if es != [] {
      var spent := if es[0].Tick? && c.state.Idle? then es[0].ms else 0;
      assert es[0] in es;
      BackoffStep(c, es[0], waited, spent);
      hide Backoff, PcbInv, Step, Attempts, Legal;
      BackoffKept(Step(c, es[0]), es[1..], e, waited + spent);
    } else {
      hide PcbInv;
    }
  }

  lemma {:induction false} BackoffStep(c: Cli, e: Event, waited: nat, spent: nat)
    requires PcbInv(c) && Legal(c, e) && !e.Start? && Backoff(c, waited)
    requires spent == if e.Tick? && c.state.Idle? then e.ms else 0
    ensures Backoff(Step(c, e), waited + spent) && PcbInv(Step(c, e))
  {
    if !e.Tick? { hide Ticked; }
  }

  /**
   Two connection attempts with no restart between them are at least 5000 ms of idle tick time
   apart, the second attempt's own tick included.
   */
  lemma {:induction false} AttemptsAreSpaced(c: Cli, first: Event, es: seq<Event>, second: Event)
    requires PcbInv(c) && Attempts(c, first)
    requires LegalRun(Step(c, first), es) && NoStart(es)
    requires Attempts(Run(Step(c, first), es), second)
    ensures IdleMs(Step(c, first), es) + second.ms >= RECONNECT_MS
  {
    BackoffKept(Step(c, first), es, second, 0);
  }

  // ---------------------------------------------------------------------------
  // When the next attempt comes
  // ---------------------------------------------------------------------------

  function TickMs(es: seq<Event>): nat {
    if es == [] then 0 else (if es[0].Tick? then es[0].ms else 0) + TickMs(es[1..])
  }

  /** An idle client that is to connect. */
  predicate Waiting(c: Cli) {
    c.state.Idle? && !c.pcb && c.enabled && c.hasHost
  }

  predicate NoCommand(es: seq<Event>) {
    forall e :: e in es ==> !e.Start? && !e.Stop?
  }

  predicate NoAttempt(c: Cli, es: seq<Event>)
    decreases |es|
  {
    es == [] || (!Attempts(c, es[0]) && NoAttempt(Step(c, es[0]), es[1..]))
  }

  lemma {:induction false} WaitingCounts(c: Cli, es: seq<Event>)
    requires Waiting(c) && LegalRun(c, es) && NoCommand(es) && NoAttempt(c, es)
    ensures Waiting(Run(c, es)) && Run(c, es).reconnectMs + TickMs(es) == c.reconnectMs
    decreases |es|
  {
    if es != [] {
      assert es[0] in es;
      WaitingStep(c, es[0]);
      hide Waiting, Step, Attempts, Legal;
      WaitingCounts(Step(c, es[0]), es[1..]);
    }
  }

  lemma {:induction false} WaitingStep(c: Cli, e: Event)
    requires Waiting(c) && Legal(c, e) && !e.Start? && !e.Stop? && !Attempts(c, e)
    ensures Waiting(Step(c, e)) && Step(c, e).reconnectMs + (if e.Tick? then e.ms else 0) == c.reconnectMs
  {
  }

  /**
   The next attempt is certain, and its time is exact: it comes at the first tick at which the tick
   time of a waiting client, that tick included, reaches the delay it started with.
   */
  lemma {:induction false} NextAttemptExact(c: Cli, es: seq<Event>, ms: nat, env: Env)
    requires Waiting(c) && LegalRun(c, es) && NoCommand(es) && NoAttempt(c, es)
    ensures Attempts(Run(c, es), Tick(ms, env)) <==> TickMs(es) + ms >= c.reconnectMs
  {
    WaitingCounts(c, es);
  }

  /** No run from power-up leaves a longer delay than 5000 ms. */
  lemma {:induction false} DelayIsBounded(es: seq<Event>)
    ensures Run(INIT, es).reconnectMs <= RECONNECT_MS
  {
    DelayKept(INIT, es);
  }

  lemma {:induction false} DelayKept(c: Cli, es: seq<Event>)
    requires c.reconnectMs <= RECONNECT_MS
    ensures Run(c, es).reconnectMs <= RECONNECT_MS
    decreases |es|
  {
    if es != [] {
      assert Step(c, es[0]).reconnectMs <= RECONNECT_MS;
      hide Step;
      DelayKept(Step(c, es[0]), es[1..]);
    }
  }

  /** What an attempt comes to: a TCP connect, a lookup under way, or another 5000 ms to wait. */
  lemma {:induction false} AttemptExact(c: Cli, ms: nat, env: Env)
    requires Waiting(c) && Attempts(c, Tick(ms, env))
    ensures
      var d := Step(c, Tick(ms, env));
      var known := env.literal || env.dns.Cached?;
      && (d.state.Tcp? && d.pcb <==> known && env.newPcb && env.connect)
      && (d.state.Dns? && !d.pcb <==> !env.literal && env.dns.InProgress?)
      && (Waiting(d) && d.reconnectMs == RECONNECT_MS <==>
        if known then !env.newPcb || !env.connect else env.dns.Failed?)
      && d.enabled && d.hasHost
  {
  }

  /** How a lookup under way ends: in a TCP connect, or in 5000 ms to wait. */
  lemma {:induction false} LookupExact(c: Cli, ok: bool, env: Env)
    requires c.state.Dns? && !c.pcb && c.enabled && c.hasHost
    ensures
      var d := Step(c, DnsFound(ok, env));
      && (d.state.Tcp? && d.pcb <==> ok && env.newPcb && env.connect)
      && (Waiting(d) && d.reconnectMs == RECONNECT_MS <==> !ok || !env.newPcb || !env.connect)
  {
  }

  /**
   Whatever ends an attempt or a session other than a command, a closed or broken link and a refusal
   among it: the client drops its block, and tries again at the first tick at which 5000 ms have passed.
   */
  lemma {:induction false} LossThenAttempt(c: Cli, e: Event, es: seq<Event>, ms: nat, env: Env)
    requires PcbInv(c) && !c.state.Idle? && c.enabled && c.hasHost && Legal(c, e) && !e.Start? && !e.Stop?
    requires e.Closed? || e.Error? || e == ConnAck(false) || Step(c, e).state.Idle?
    requires LegalRun(Step(c, e), es) && NoCommand(es) && NoAttempt(Step(c, e), es)
    ensures Waiting(Step(c, e))
    ensures Attempts(Run(Step(c, e), es), Tick(ms, env)) <==> TickMs(es) + ms >= RECONNECT_MS
  {
    LossStep(c, e);
    hide Step, Waiting, Attempts;
    NextAttemptExact(Step(c, e), es, ms, env);
  }

  lemma {:induction false} LossStep(c: Cli, e: Event)
    requires PcbInv(c) && !c.state.Idle? && c.enabled && c.hasHost && Legal(c, e) && !e.Start? && !e.Stop?
    requires e.Closed? || e.Error? || e == ConnAck(false) || Step(c, e).state.Idle?
    ensures Waiting(Step(c, e)) && Step(c, e).reconnectMs == RECONNECT_MS
  {
  }

  /** A start with a host is followed by an attempt at the very next tick, a start without one by none. */
  lemma {:induction false} StartThenAttempt(c: Cli, hasHost: bool, ms: nat, env: Env)
    ensures Attempts(Step(c, Start(hasHost)), Tick(ms, env)) <==> hasHost
    ensures Step(c, Start(hasHost)).state.Idle? && !Step(c, Start(hasHost)).pcb
  {
  }

  // ---------------------------------------------------------------------------
  // Stopped
  // ---------------------------------------------------------------------------

  predicate Stopped(c: Cli) {
    c.state.Idle? && !c.pcb && !c.enabled
  }

  /**
   After a stop and before the next start: the client stays idle with no connection block,
   attempts nothing and sends nothing, whatever happens.
   */
  lemma {:induction false} StopIsFinal(c: Cli, es: seq<Event>, e: Event)
    requires LegalRun(Step(c, Stop), es) && NoStart(es)
    ensures Stopped(Run(Step(c, Stop), es))
    ensures !Attempts(Run(Step(c, Stop), es), e) && !Sends(Run(Step(c, Stop), es), e)
  {
    StoppedRun(Step(c, Stop), es);
  }

  lemma {:induction false} StoppedRun(c: Cli, es: seq<Event>)
    requires Stopped(c) && LegalRun(c, es) && NoStart(es)
    ensures Stopped(Run(c, es))
    decreases |es|
  {
    if es != [] {
      assert es[0] in es;
      StoppedRun(Step(c, es[0]), es[1..]);
    }
  }

  /** A lookup answered when nobody waits for it any more, and TCP has room for a connection. */
  predicate LateAnswer(e: Event) {
    e.DnsFound? && e.ok && e.env.newPcb && e.env.connect
  }

  /** As LegalRun, but the answer to a lookup may come at any time. */
  predicate LateRun(c: Cli, es: seq<Event>)
    decreases |es|
  {
    es == [] || ((Legal(c, es[0]) || es[0].DnsFound?) && LateRun(Step(c, es[0]), es[1..]))
  }

  predicate IdleState(c: Cli) { c.state.Idle? }

  /**
   The callback of a lookup does not ask whether the client is still enabled.  If answers may come
   after the stop, the client stays idle until the next start exactly when no such answer comes.
   */
  lemma {:induction false} StopHoldsExact(c: Cli, es: seq<Event>)
    requires LateRun(Step(c, Stop), es) && NoStart(es)
    ensures Stays(Step(c, Stop), es, IdleState) <==> forall e :: e in es ==> !LateAnswer(e)
  {
    StoppedExact(Step(c, Stop), es);
  }

  lemma {:induction false} StoppedExact(c: Cli, es: seq<Event>)
    requires Stopped(c) && LateRun(c, es) && NoStart(es)
    ensures Stays(c, es, IdleState) <==> forall e :: e in es ==> !LateAnswer(e)
    decreases |es|
  {
    if es != [] {
      assert es[0] in es;
      if LateAnswer(es[0]) {
        assert Step(c, es[0]).state.Tcp?;
      } else {
        assert Stopped(Step(c, es[0]));
        hide Step, Stopped, Legal, LateAnswer;
        StoppedExact(Step(c, es[0]), es[1..]);
        assert forall e :: e in es <==> e == es[0] || e in es[1..];
      }
    }
  }

  /** A run from power-up: stopped during a lookup, the client connects all the same. */
  lemma {:induction false} StoppedConnects()
    ensures
      var env := Env(false, InProgress, true, true, true);
      var c := Step(Step(Step(Step(INIT, Start(true)), Tick(0, env)), Stop), DnsFound(true, env));
      !c.enabled && c.pcb && c.state.Tcp? && Step(c, Connected(env)).state.Connecting?
  {
  }

  // ---------------------------------------------------------------------------
  // How long an attempt may take
  // ---------------------------------------------------------------------------

  predicate Resolving(c: Cli) { c.state.Dns? || c.state.Tcp? }

  predicate Stays(c: Cli, es: seq<Event>, p: Cli -> bool)
    decreases |es|
  {
    p(c) && (es == [] || Stays(Step(c, es[0]), es[1..], p))
  }

  /**
   Before TCP connects, an attempt never survives more than 10000 ms of ticks, whatever its timer
   started from; what it survives and that start together stay within 10000 ms.
   */
  lemma {:induction false} ResolvingIsBounded(c: Cli, es: seq<Event>)
    requires Stays(c, es, Resolving) && LegalRun(c, es)
    ensures TickMs(es) <= GUARD_MS && (TickMs(es) > 0 ==> c.keepAliveMs + TickMs(es) <= GUARD_MS)
    decreases |es|
  {
    if es != [] {
      ResolvingIsBounded(Step(c, es[0]), es[1..]);
    }
  }

  /**
   The guard before TCP connects is exact in the timer's starting value, which is whatever earlier
   states left in it: a fresh timer gives 10000 ms, a stale one less.
   */
  lemma {:induction false} ResolvingGuardExact(c: Cli, es: seq<Event>, ms: nat, env: Env)
    requires Stays(c, es, Resolving) && LegalRun(c, es)
    ensures Step(Run(c, es), Tick(ms, env)).state.Idle? <==> c.keepAliveMs + TickMs(es) + ms > GUARD_MS
    decreases |es|
  {
    ResolvingCounts(c, es);
  }

  /** A stale timer cuts the next attempt short: here after its first millisecond. */
  lemma {:induction false} StaleTimerCutsAttempt()
    ensures
      var env := Env(true, Cached, true, true, true);
      var es := [Start(true), Tick(0, env), Connected(env), Tick(GUARD_MS, env), Closed];
      var c := Step(Run(INIT, es), Tick(RECONNECT_MS, env));
      LegalRun(INIT, es) && c.state.Tcp? && Step(c, Tick(1, env)).state.Idle?
  {
    var env := Env(true, Cached, true, true, true);
    var c1 := Cli(Idle, false, true, true, 0, 0, 0);
    var c2 := Cli(Tcp, true, true, true, 0, 0, 0);
    var c3 := Cli(Connecting, true, true, true, 0, 0, 0);
    var c4 := Cli(Connecting, true, true, true, GUARD_MS, 0, 0);
    var c5 := Fail(c4);
    RunOne(c4, [Closed]);
    RunOne(c3, [Tick(GUARD_MS, env), Closed]);
    RunOne(c2, [Connected(env), Tick(GUARD_MS, env), Closed]);
    RunOne(c1, [Tick(0, env), Connected(env), Tick(GUARD_MS, env), Closed]);
    RunOne(INIT, [Start(true), Tick(0, env), Connected(env), Tick(GUARD_MS, env), Closed]);
  }

  lemma {:induction false} RunOne(c: Cli, es: seq<Event>)
    requires es != []
    ensures Run(c, es) == Run(Step(c, es[0]), es[1..])
    ensures LegalRun(c, es) == (Legal(c, es[0]) && LegalRun(Step(c, es[0]), es[1..]))
  {
  }

  lemma {:induction false} ResolvingCounts(c: Cli, es: seq<Event>)
    requires Stays(c, es, Resolving) && LegalRun(c, es)
    ensures Run(c, es).keepAliveMs == c.keepAliveMs + TickMs(es) && Resolving(Run(c, es))
    decreases |es|
  {
    if es != [] { ResolvingCounts(Step(c, es[0]), es[1..]); }
  }

  predicate Handshaking(c: Cli) { c.state.Connecting? }

  /** After TCP connects the timer starts at zero: the guard fires exactly past 10000 ms. */
  lemma {:induction false} HandshakeGuardExact(c: Cli, env: Env, es: seq<Event>, ms: nat, env': Env)
    requires c.state.Tcp? && Stays(Step(c, Connected(env)), es, Handshaking) && LegalRun(Step(c, Connected(env)), es)
    ensures Step(Run(Step(c, Connected(env)), es), Tick(ms, env')).state.Idle? <==> TickMs(es) + ms > GUARD_MS
  {
    HandshakeCounts(Step(c, Connected(env)), es);
  }

  lemma {:induction false} HandshakeCounts(c: Cli, es: seq<Event>)
    requires Stays(c, es, Handshaking) && LegalRun(c, es)
    ensures Run(c, es).keepAliveMs == c.keepAliveMs + TickMs(es) && Handshaking(Run(c, es))
    decreases |es|
  {
    if es != [] { HandshakeCounts(Step(c, es[0]), es[1..]); }
  }

  // ---------------------------------------------------------------------------
  // Keep-alive (section 3.1.2.10 of MQTT 3.1.1)
  // ---------------------------------------------------------------------------

  /**
   The machine beside a clock of tick time: when TCP connected or, later, when it last took a packet,
   and when a ping went out.
   */
  datatype Timed = Timed(cli: Cli, now: nat, lastSent: nat, pingSince: Option<nat>)

  /** This event makes the client hand a packet to TCP, and TCP takes it. */
  predicate Sends(c: Cli, e: Event) {
    match e
    case Connected(env) => c.pcb && env.write
    case Send(env) => c.state.Ready? && c.pcb && env.write
    case Tick(ms, env) => c.state.Ready? && c.pcb && c.keepAliveMs + ms >= PING_MS && env.write
    case _ => false
  }

  /** The clock runs first; a ping counts from the start of the tick that sends it. */
  function TimedStep(t: Timed, e: Event): Timed {
    var now := t.now + (if e.Tick? then e.ms else 0);
    var pings := e.Tick? && t.cli.state.Ready? && t.cli.keepAliveMs + e.ms >= PING_MS;
    Timed(Step(t.cli, e), now,
      if Sends(t.cli, e) || e.Connected? then now else t.lastSent,
      if e.PingResp? || e.Connected? then None
      else if pings && t.pingSince.None? then Some(t.now)
      else t.pingSince)
  }

  predicate LinkUp(c: Cli) { c.state.Connecting? || c.state.Ready? }

  /** While the link is up, the keep-alive timer is the time since the last packet taken, or the TCP connect. */
  predicate SentExact(t: Timed) {
    LinkUp(t.cli) ==> t.lastSent <= t.now && t.cli.keepAliveMs == t.now - t.lastSent
  }

  /** While the link is up, the ping timer is one more than the time since the open ping. */
  predicate PingExact(t: Timed) {
    LinkUp(t.cli) ==>
      && (t.cli.state.Connecting? ==> t.pingSince.None?)
      && match t.pingSince
         case None => t.cli.pingWaitMs == 0
         case Some(since) => since <= t.now && t.cli.pingWaitMs == 1 + (t.now - since)
  }

  function TimedRun(t: Timed, es: seq<Event>): Timed
    decreases |es|
  {
    if es == [] then t else TimedRun(TimedStep(t, es[0]), es[1..])
  }

  lemma {:induction false} SentStep(t: Timed, e: Event)
    requires SentExact(t) && PcbInv(t.cli) && Legal(t.cli, e)
    ensures SentExact(TimedStep(t, e)) && PcbInv(TimedStep(t, e).cli)
  {
    if !e.Tick? { hide Ticked; }
  }

  lemma {:induction false} SentKept(t: Timed, es: seq<Event>)
    requires SentExact(t) && PcbInv(t.cli) && LegalRun(t.cli, es)
    ensures SentExact(TimedRun(t, es)) && PcbInv(TimedRun(t, es).cli)
    decreases |es|
  {
    if es != [] {
      SentStep(t, es[0]);
      hide SentExact, PcbInv, Step;
      SentKept(TimedStep(t, es[0]), es[1..]);
    }
  }

  lemma {:induction false} PingStep(t: Timed, e: Event)
    requires PingExact(t) && Legal(t.cli, e)
    ensures PingExact(TimedStep(t, e))
  {
    if !e.Tick? {
      hide Ticked;
    } else if t.cli.state.Ready? {
      PingTick(t, e.ms, e.env);
    } else {
      hide ReadyTick;
    }
  }

  lemma {:induction false} PingTick(t: Timed, ms: nat, env: Env)
    requires PingExact(t) && t.cli.state.Ready?
    ensures PingExact(TimedStep(t, Tick(ms, env)))
  {
  }

  lemma {:induction false} PingKept(t: Timed, es: seq<Event>)
    requires PingExact(t) && LegalRun(t.cli, es)
    ensures PingExact(TimedRun(t, es))
    decreases |es|
  {
    if es != [] {
      PingStep(t, es[0]);
      hide PingExact, Step;
      PingKept(TimedStep(t, es[0]), es[1..]);
    }
  }

  const TIMED_INIT := Timed(INIT, 0, 0, None)

  /**
   Over every run from power-up: after each tick whose own write TCP would take and that leaves the client
   ready, less than 30000 ms of tick time have passed since it last took a packet of this connection.
   */
  lemma {:induction false} KeepAlive(es: seq<Event>, ms: nat, env: Env)
    requires LegalRun(INIT, es) && env.write
    ensures
      var t := TimedStep(TimedRun(TIMED_INIT, es), Tick(ms, env));
      t.cli.state.Ready? ==> t.now - t.lastSent < PING_MS
  {
    SentKept(TIMED_INIT, es);
    hide TimedRun, TimedStep, LegalRun, SentExact, PcbInv;
    KeepAliveTick(TimedRun(TIMED_INIT, es), ms, env);
  }

  lemma {:induction false} KeepAliveTick(t: Timed, ms: nat, env: Env)
    requires SentExact(t) && PcbInv(t.cli) && env.write
    ensures
      var t' := TimedStep(t, Tick(ms, env));
      t'.cli.state.Ready? ==> t'.now - t'.lastSent < PING_MS
  {
    SentStep(t, Tick(ms, env));
    if !t.cli.state.Ready? { hide ReadyTick; }
  }

  /**
   Whether or not writes succeed: a ready client drops the link at the first tick at which the tick
   time since an unanswered ping, the tick that sent it included, reaches 60000 ms, and at no other.
   */
  lemma {:induction false} PingTimeoutExact(es: seq<Event>, ms: nat, env: Env)
    requires LegalRun(INIT, es)
    requires TimedRun(TIMED_INIT, es).cli.state.Ready?
    ensures
      var t := TimedRun(TIMED_INIT, es);
      var t' := TimedStep(t, Tick(ms, env));
      t'.cli.state.Idle? <==> t'.pingSince.Some? && t'.now - t'.pingSince.value >= PING_TIMEOUT_MS
  {
    PingKept(TIMED_INIT, es);
  }
}
