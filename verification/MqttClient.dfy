/**
 The client and the application glue as the firmware runs them: one record and its buffers updated
 in place by ticks and callbacks.  Every method is proved to be the step of the machines in MqttConn,
 MqttLink and MqttApp.
 */
module MqttClient {
  import opened Common
  import opened MqttConn
  import opened MqttLink
  import MqttFrame
  import MqttPacket
  import MqttWire

  /** What MQTTClientStart stores; each string is cut to its 64-byte field. */
  datatype Target = Target(host: Octets, port: nat, clientId: Octets, user: Octets, pass: Octets)

  const FIELD_LEN: nat := 64

  /** strncpy into a field, with its last byte kept for the terminator. */
  function Stored(s: Octets): (r: Octets)
    ensures |r| < FIELD_LEN && r <= s && (r == s || |r| == FIELD_LEN - 1)
  {
    if |s| < FIELD_LEN then s else s[..FIELD_LEN - 1]
  }

  /** "tm4c", for a missing client id. */
  const DEFAULT_ID: Octets := [0x74, 0x6D, 0x34, 0x63]

  /** A missing string is NULL in the firmware. */
  function TargetOf(
    host: Option<Octets>, port: nat, id: Option<Octets>, user: Option<Octets>, pass: Option<Octets>): Target
  {
    Target(
      Stored(Or(host, [])),
      if port == 0 then 1883 else port,
      Stored(Or(id, DEFAULT_ID)),
      Stored(Or(user, [])),
      Stored(Or(pass, [])))
  }

  function Or(s: Option<Octets>, missing: Octets): Octets {
    match s
    case None => missing
    case Some(t) => t
  }

  function LoginOf(target: Target, will: Option<MqttPacket.Will>): MqttPacket.Login {
    MqttPacket.Login(target.clientId, target.user, target.pass, will)
  }

  /**
   From the arguments of MQTTClientStart to what a broker reads: host and port are kept, and CONNECT tells the
   client id, the will, the user and the password, each up to the 63 characters a field holds.
   */
  lemma {:induction false} LoginTold(host: Option<Octets>, port: nat, id: Option<Octets>, user: Option<Octets>,
                                     pass: Option<Octets>, will: Option<MqttPacket.Will>)
    requires LoginOf(TargetOf(host, port, id, user, pass), will).Measured()
    ensures
      var t := TargetOf(host, port, id, user, pass);
      && t.host == First63(host) && t.port == (if port > 0 then port else 1883)
      && MqttPacket.DecodeConnect(MqttPacket.ConnectBody(LoginOf(t, will))) == Some(MqttPacket.Fields(
          if id.None? then DEFAULT_ID else First63(id),
          will,
          if First63(user) == [] then None else Some(First63(user)),
          if First63(user) == [] || First63(pass) == [] then None else Some(First63(pass)),
          true,
          60))
  {
    StoredIs(host);
    StoredIs(user);
    StoredIs(pass);
    StoredIs(id);
    hide MqttPacket.DecodeConnect, MqttPacket.ConnectBody, Stored, First63;
    assert Or(None, DEFAULT_ID) == DEFAULT_ID && Stored(DEFAULT_ID) == DEFAULT_ID;
    MqttPacket.ConnectRoundTrip(LoginOf(TargetOf(host, port, id, user, pass), will));
  }

  /** A missing string counts as empty. */
  function First63(s: Option<Octets>): Octets {
    match s
    case None => []
    case Some(t) => t[..if |t| < 63 then |t| else 63]
  }

  lemma {:induction false} StoredIs(s: Option<Octets>)
    ensures Stored(Or(s, [])) == First63(s)
  {
    if s.Some? { assert s.value[..|s.value|] == s.value; }
  }

  class Client {
    const rx: MqttWire.Receiver
    const tx: MqttWire.Transmitter
    var state: CliState
    var pcb: bool
    var enabled: bool
    var target: Target
    var will: Option<MqttPacket.Will>
    var keepAliveMs: nat
    var reconnectMs: nat
    var pingWaitMs: nat

    ghost predicate Valid()
      reads this, rx
    {
      rx.Valid() && tx.Valid() && rx.rx != tx.tx
    }

    ghost function View(): Cli
      reads this
    {
      Cli(state, pcb, enabled, target.host != [], keepAliveMs, reconnectMs, pingWaitMs)
    }

    /** Machine and assembly buffer. */
    ghost function Whole(): Link
      reads this, rx, rx.rx
      requires Valid()
    {
      Link(View(), rx.Buffered())
    }

    twostate predicate KeepsSettings()
      reads this
    {
      target == old(target) && will == old(will)
    }

    /** MQTTClientInit. */
    constructor ()
      ensures Valid() && fresh(rx) && fresh(tx) && fresh(rx.rx) && fresh(tx.tx)
      ensures Whole() == LINK_INIT && will == None
    {
      rx := new MqttWire.Receiver();
      tx := new MqttWire.Transmitter();
      state, pcb, enabled := Idle, false, false;
      target, will := Target([], 0, [], [], []), None;
      keepAliveMs, reconnectMs, pingWaitMs := 0, 0, 0;
    }

    method MQTTClientSetWill(topic: Option<Octets>, message: Octets, retain: bool)
      modifies this`will
      ensures will == if topic.None? then None
                      else Some(MqttPacket.Will(Stored(topic.value), Stored(message), retain))
    {
      if topic.None? {
        will := None;
        return;
      }
      will := Some(MqttPacket.Will(Stored(topic.value), Stored(message), retain));
    }

    method MQTTClientStart(
      host: Option<Octets>, port: nat, id: Option<Octets>, user: Option<Octets>, pass: Option<Octets>)
      modifies this
      ensures View() == Step(old(View()), Start(Or(host, []) != []))
      ensures target == TargetOf(host, port, id, user, pass) && will == old(will)
    {
      if pcb { pcb := false; }
      target := TargetOf(host, port, id, user, pass);
      enabled := true;
      state := Idle;
      reconnectMs := 0;
    }

    method MQTTClientStop()
      modifies this
      ensures View() == Step(old(View()), Stop) && KeepsSettings()
    {
      enabled := false;
      if pcb { pcb := false; }
      state := Idle;
    }

    method MQTTTryConnect(env: Env)
      requires Valid()
      modifies this, rx
      ensures Valid() && View() == TryConnect(old(View()), env) && KeepsSettings()
      ensures rx.Buffered() == if old(target).host != [] && (env.literal || env.dns.Cached?) && env.newPcb then []
                               else old(rx.Buffered())
    {
      if target.host == [] { return; }
      if env.literal {
        state := Tcp;
        MQTTDNSFoundCB(true, env);
        return;
      }
      state := Dns;
      match env.dns {
        case Cached => MQTTDNSFoundCB(true, env);
        case InProgress =>
        case Failed =>
          state := Idle;
          reconnectMs := RECONNECT_MS;
      }
    }

    method MQTTDNSFoundCB(found: bool, env: Env)
      requires Valid()
      modifies this, rx
      ensures Valid() && View() == Resolved(old(View()), found, env) && KeepsSettings()
      ensures rx.Buffered() == if found && env.newPcb then [] else old(rx.Buffered())
    {
      if !found {
        state := Idle;
        reconnectMs := RECONNECT_MS;
        return;
      }
      pcb := env.newPcb;
      if !pcb {
        state := Idle;
        reconnectMs := RECONNECT_MS;
        return;
      }
      state := Tcp;
      rx.Reset();
      if !env.connect { DropLink(); }
    }

    /** The bytes handed to TCP, if any; err is lwIP's verdict on the connection. */
    method MQTTConnectedCB(err: bool, env: Env) returns (sent: Option<Octets>)
      requires Valid() && ConnectFits()
      modifies this, tx.tx
      ensures Valid() && KeepsSettings() && rx.Buffered() == old(rx.Buffered())
      ensures View() == if err then old(View()) else Step(old(View()), Connected(env))
      ensures sent == if !err && Sends(old(View()), Connected(env))
                      then Some(MqttPacket.ConnectPacket(LoginOf(target, will)).Wire()) else None
    {
      if err { return None; }
      state := Connecting;
      keepAliveMs := 0;
      pingWaitMs := 0;
      var bytes := tx.SendConnect(LoginOf(target, will));
      var taken := MQTTSendRaw(env);
      return if taken then Some(bytes) else None;
    }

    /** The variable part of CONNECT fits the 256 bytes the firmware has for it. */
    ghost predicate ConnectFits()
      reads this
    {
      var l := LoginOf(target, will);
      l.Measured() && |MqttPacket.ConnectBody(l)| <= MqttPacket.VAR_SIZE
    }

    method MQTTSendRaw(env: Env) returns (sent: bool)
      modifies this
      ensures View() == SendRaw(old(View()), env) && KeepsSettings()
      ensures sent == (CanSend(old(View())) && env.write)
    {
      if !pcb || state.Idle? || state.Dns? || state.Tcp? { return false; }
      if !env.write { return false; }
      keepAliveMs := 0;
      return true;
    }

    /** The bytes handed to TCP, if any: only a ready client sends, and only what fits. */
    method MQTTClientPublish(p: MqttPacket.Publication, env: Env) returns (sent: Option<Octets>)
      requires Valid() && p.Measured()
      modifies this, tx.tx
      ensures Valid() && KeepsSettings() && rx.Buffered() == old(rx.Buffered())
      ensures View() == if MqttPacket.FitsTx(p) then Step(old(View()), Send(env)) else old(View())
      ensures sent == if MqttPacket.FitsTx(p) && Sends(old(View()), Send(env)) then Some(p.AsPacket().Wire()) else None
    {
      var bytes := tx.Publish(state.Ready?, p);
      if bytes.None? { return None; }
      var taken := MQTTSendRaw(env);
      return if taken then bytes else None;
    }

    /** MQTTClientSubscribe, once its packet is built. */
    method SendWhenReady(env: Env) returns (sent: bool)
      modifies this
      ensures View() == Step(old(View()), Send(env)) && KeepsSettings()
      ensures sent == Sends(old(View()), Send(env))
    {
      if !state.Ready? { return false; }
      sent := MQTTSendRaw(env);
    }

    /** The effects of MQTTHandlePacket on the connection. */
    method Dispatch(e: MqttPacket.Event)
      modifies this
      ensures View() == Received(old(View()), e) && KeepsSettings()
    {
      match e {
        case Accepted => state := Ready;
        case Refused => DropLink();
        case PingResponse => pingWaitMs := 0;
        case Message(_, _) =>
        case Nothing =>
      }
    }

    /** MQTTRecvCB with data: buffer and connection take the step of the link. */
    method MQTTRecvCB(segs: seq<Octets>) returns (events: seq<MqttPacket.Event>)
      requires Valid()
      modifies this, rx, rx.rx
      ensures Valid() && Whole() == LinkStep(old(Whole()), Data(segs)) && KeepsSettings()
      ensures events == MqttPacket.HandleAll(MqttFrame.Receive(old(rx.Buffered()), segs).0)
    {
      hide MqttFrame.Receive, MqttPacket.HandlePacket, Received;
      events := rx.RecvCB(segs);
      var i := 0;
      assert events[0..] == events;
      while i < |events|
        invariant i <= |events| && Valid() && KeepsSettings()
        invariant rx.Buffered() == MqttFrame.Receive(old(rx.Buffered()), segs).1
        invariant ReceivedAll(View(), events[i..]) == ReceivedAll(old(View()), events)
      {
        assert events[i..][1..] == events[i + 1..];
        Dispatch(events[i]);
        i := i + 1;
      }
    }

    /** MQTTRecvCB without data: the broker closed this connection, ours or an older one. */
    method RecvClosed(ours: bool)
      modifies this
      ensures View() == (if ours then Step(old(View()), Closed) else old(View())) && KeepsSettings()
    {
      if ours { DropLink(); }
    }

    method MQTTErrCB()
      modifies this
      ensures View() == Step(old(View()), Error) && KeepsSettings()
    {
      DropLink();
    }

    method DropLink()
      modifies this`pcb, this`state, this`reconnectMs
      ensures View() == Fail(old(View()))
    {
      if pcb { pcb := false; }
      state := Idle;
      reconnectMs := RECONNECT_MS;
    }

    /** The bytes handed to TCP, if any. */
    method MQTTClientTick(ms: nat, env: Env) returns (sent: Option<Octets>)
      requires Valid()
      modifies this, rx
      ensures Valid() && KeepsSettings()
      ensures Whole() == LinkStep(old(Whole()), Net(Tick(ms, env)))
      ensures sent == if Sends(old(View()), Tick(ms, env)) then Some(MqttPacket.PINGREQ.Wire()) else None
    {
      sent := None;
      match state {
        case Idle => TickIdle(ms, env);
        case Ready => sent := TickReady(ms, env);
        case Dns => TickAttempt(ms, env);
        case Tcp => TickAttempt(ms, env);
        case Connecting => TickAttempt(ms, env);
      }
    }

    method TickIdle(ms: nat, env: Env)
      requires Valid() && state.Idle?
      modifies this, rx
      ensures Valid() && KeepsSettings()
      ensures Whole() == LinkStep(old(Whole()), Net(Tick(ms, env)))
    {
      if enabled && target.host != [] {
        if reconnectMs <= ms {
          reconnectMs := 0;
          MQTTTryConnect(env);
        } else {
          reconnectMs := reconnectMs - ms;
        }
      }
    }

    method TickReady(ms: nat, env: Env) returns (sent: Option<Octets>)
      requires state.Ready?
      modifies this
      ensures View() == ReadyTick(old(View()), ms, env) && KeepsSettings()
      ensures sent == if Sends(old(View()), Tick(ms, env)) then Some(MqttPacket.PINGREQ.Wire()) else None
    {
      hide Pinged, Waited;
      sent := None;
      keepAliveMs := keepAliveMs + ms;
      if keepAliveMs >= PING_MS {
        sent := MQTTSendPing(env);
      }
      AwaitPing(ms);
    }

    method MQTTSendPing(env: Env) returns (sent: Option<Octets>)
      modifies this
      ensures View() == Pinged(old(View()), env) && KeepsSettings()
      ensures sent == if CanSend(old(View())) && env.write then Some(MqttPacket.PINGREQ.Wire()) else None
    {
      var ping := [0xC0, 0x00];
      assert MqttPacket.PINGREQ.Wire() == ping;
      var taken := MQTTSendRaw(env);
      if pingWaitMs == 0 { pingWaitMs := 1; }
      return if taken then Some(ping) else None;
    }

    method AwaitPing(ms: nat)
      modifies this
      ensures View() == Waited(old(View()), ms) && KeepsSettings()
    {
      if pingWaitMs != 0 {
        pingWaitMs := pingWaitMs + ms;
        if pingWaitMs > PING_TIMEOUT_MS { DropLink(); }
      }
    }

    method TickAttempt(ms: nat, ghost env: Env)
      requires !state.Idle? && !state.Ready?
      modifies this
      ensures View() == Ticked(old(View()), ms, env) && KeepsSettings()
    {
      keepAliveMs := keepAliveMs + ms;
      if keepAliveMs > GUARD_MS { DropLink(); }
    }
  }
}

module MqttGlue {
  import opened Common
  import opened MqttConn
  import opened MqttApp
  import opened MqttClient
  import MqttFrame
  import MqttLink
  import MqttPacket

  /** The broker settings, as strings up to their terminators. */
  datatype Settings = Settings(
    host: Octets,
    port: nat,
    useAuth: bool,
    clientId: Octets,
    user: Octets,
    pass: Octets,
    topicBase: Octets
  )
  {
    /** The field widths of tMQTTConfig. */
    predicate Fits() {
      |host| <= 63 && |clientId| <= 31 && |user| <= 31 && |pass| <= 31 && |topicBase| <= 47
    }
  }

  /** "/status" and "offline". */
  const STATUS: Octets := [0x2F, 0x73, 0x74, 0x61, 0x74, 0x75, 0x73]
  const OFFLINE: Octets := [0x6F, 0x66, 0x66, 0x6C, 0x69, 0x6E, 0x65]

  class Application {
    const client: Client
    var wasConnected: bool
    ghost var sessions: nat
    ghost var announced: seq<nat>

    ghost predicate Valid()
      reads this, client, client.rx
    {
      client.Valid()
    }

    ghost function View(): App
      reads this, client
    {
      App(client.View(), wasConnected, sessions, announced)
    }

    constructor ()
      ensures Valid() && fresh(client) && fresh(client.rx) && fresh(client.rx.rx) && View() == APP_INIT
    {
      client := new Client();
      wasConnected := false;
      sessions, announced := 0, [];
    }

    /** The client gets the stored settings and, as its will, a retained "offline" on the status topic. */
    method MQTTAppStart(s: Settings)
      requires s.Fits()
      modifies this, client
      ensures View() == AppStep(old(View()), AppStart(s.host != []))
      ensures s.host == [] ==> View() == old(View()) && client.target == old(client.target)
      ensures s.host != [] ==>
        && client.target == Target(s.host, if s.port == 0 then 1883 else s.port, s.clientId,
          if s.useAuth then s.user else [], if s.useAuth then s.pass else [])
        && client.will == Some(MqttPacket.Will(s.topicBase + STATUS, OFFLINE, true))
        && client.ConnectFits()
    {
      if s.host == [] { return; }
      client.MQTTClientSetWill(Some(s.topicBase + STATUS), OFFLINE, true);
      wasConnected := false;
      client.MQTTClientStart(Some(s.host), s.port, Some(s.clientId),
        Some(if s.useAuth then s.user else []), Some(if s.useAuth then s.pass else []));
      var login := LoginOf(client.target, client.will);
      assert login.FromApp() && login.Measured();
      MqttPacket.ConnectFits(login);
    }

    method MQTTAppStop()
      modifies this, client
      ensures View() == AppStep(old(View()), AppStop)
    {
      client.MQTTClientStop();
      wasConnected := false;
    }

    /** calls says whether product_on_connect was called. */
    method MQTTAppTick(ms: nat, env: Env) returns (calls: bool)
      requires Valid()
      modifies this, client, client.rx
      ensures Valid() && View() == AppStep(old(View()), AppTick(ms, env))
      ensures calls <==> |announced| == old(|announced|) + 1
    {
      var _ := client.MQTTClientTick(ms, env);
      var connected := client.state.Ready?;
      calls := connected && !wasConnected;
      if calls { announced := announced + [sessions]; }
      wasConnected := connected;
    }

    /** A delivery: every packet in it is one step of the machine. */
    method Arrives(segs: seq<Octets>)
      requires Valid()
      modifies this, client, client.rx, client.rx.rx
      ensures Valid()
      ensures View() ==
        ReceivedByApp(old(View()), MqttPacket.HandleAll(MqttFrame.Receive(old(client.rx.Buffered()), segs).0))
    {
      hide MqttFrame.Receive, MqttPacket.HandlePacket;
      var events := client.MQTTRecvCB(segs);
      SessionsCounted(old(View()), events);
      sessions := sessions + Accepts(events);
    }
  }

  function AppEventOf(e: MqttPacket.Event): Option<AppEvent> {
    match e
    case Accepted => Some(Network(ConnAck(true)))
    case Refused => Some(Network(ConnAck(false)))
    case PingResponse => Some(Network(PingResp))
    case _ => None
  }

  function ReceivedByApp(a: App, es: seq<MqttPacket.Event>): App
    decreases |es|
  {
    if es == [] then a
    else
      var e := AppEventOf(es[0]);
      ReceivedByApp(if e.Some? then AppStep(a, e.value) else a, es[1..])
  }

  function Accepts(es: seq<MqttPacket.Event>): nat {
    if es == [] then 0 else (if es[0].Accepted? then 1 else 0) + Accepts(es[1..])
  }

  lemma {:induction false} SessionsCounted(a: App, es: seq<MqttPacket.Event>)
    ensures ReceivedByApp(a, es) ==
      a.(cli := MqttLink.ReceivedAll(a.cli, es), sessions := a.sessions + Accepts(es))
    decreases |es|
  {
    if es != [] {
      var e := AppEventOf(es[0]);
      SessionsCounted(if e.Some? then AppStep(a, e.value) else a, es[1..]);
    }
  }
}
