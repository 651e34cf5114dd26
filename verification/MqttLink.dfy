/**
 Connections and their bytes.  A new connection block empties the assembly buffer, so what one
 connection left over never reaches the next.
 */
module MqttLink {
  import opened Common
  import MqttFrame
  import MqttPacket
  import opened MqttConn

  /** The connection machine with its assembly buffer. */
  datatype Link = Link(cli: Cli, buf: Octets)

  const LINK_INIT := Link(INIT, [])

  datatype LinkEvent =
    | Net(e: Event)
    | Data(segs: seq<Octets>)

  /** The step gets a new connection block from lwIP, whether or not the connect call then succeeds. */
  predicate NewBlock(c: Cli, e: Event) {
    match e
    case DnsFound(ok, env) => ok && env.newPcb
    case Tick(_, env) => Attempts(c, e) && (env.literal || env.dns.Cached?) && env.newPcb
    case _ => false
  }

  /** Whenever a TCP connect is under way, the buffer has been emptied for it. */
  lemma {:induction false} EmptyAtConnect(l: Link, e: Event)
    requires PcbInv(l.cli) && Legal(l.cli, e) && !l.cli.pcb
    ensures LinkStep(l, Net(e)).cli.pcb ==> LinkStep(l, Net(e)).buf == []
  {
  }

  /** What a dispatched packet does to the machine. */
  function Received(c: Cli, e: MqttPacket.Event): Cli {
    match e
    case Accepted => Step(c, ConnAck(true))
    case Refused => Step(c, ConnAck(false))
    case PingResponse => Step(c, PingResp)
    case Message(_, _) => c
    case Nothing => c
  }

  function ReceivedAll(c: Cli, es: seq<MqttPacket.Event>): Cli
    decreases |es|
  {
    if es == [] then c else ReceivedAll(Received(c, es[0]), es[1..])
  }

  function LinkStep(l: Link, e: LinkEvent): Link {
    match e
    case Net(ev) => Link(Step(l.cli, ev), if NewBlock(l.cli, ev) then [] else l.buf)
    case Data(segs) =>
      var (fs, rest) := MqttFrame.Receive(l.buf, segs);
      Link(ReceivedAll(l.cli, MqttPacket.HandleAll(fs)), rest)
  }

  function LinkRun(l: Link, es: seq<LinkEvent>): Link
    decreases |es|
  {
    if es == [] then l else LinkRun(LinkStep(l, es[0]), es[1..])
  }

  // ---------------------------------------------------------------------------
  // Each connection is parsed on its own
  // ---------------------------------------------------------------------------

  /** A connection: the bytes TCP delivered on it, and the packets dispatched meanwhile. */
  datatype Conversation = Conversation(stream: Octets, frames: seq<MqttFrame.Frame>)

  /** The link with a record of its conversations; the last one is under way. */
  datatype Recorded = Recorded(link: Link, past: seq<Conversation>, now: Conversation)

  const RECORDED_INIT := Recorded(LINK_INIT, [], Conversation([], []))

  function RecordedStep(r: Recorded, e: LinkEvent): Recorded {
    var link := LinkStep(r.link, e);
    match e
    case Net(ev) =>
      if NewBlock(r.link.cli, ev) then Recorded(link, r.past + [r.now], Conversation([], []))
      else Recorded(link, r.past, r.now)
    case Data(segs) =>
      var frames := MqttFrame.Receive(r.link.buf, segs).0;
      Recorded(link, r.past, Conversation(r.now.stream + MqttFrame.Join(segs), r.now.frames + frames))
  }

  function RecordedRun(r: Recorded, es: seq<LinkEvent>): Recorded
    decreases |es|
  {
    if es == [] then r else RecordedRun(RecordedStep(r, es[0]), es[1..])
  }

  predicate FitsOne(l: Link, e: LinkEvent) {
    e.Data? ==> |l.buf| + |MqttFrame.Join(e.segs)| <= MqttFrame.RX_SIZE
  }

  /** No delivery overflows the assembly buffer. */
  predicate Fitting(l: Link, es: seq<LinkEvent>)
    decreases |es|
  {
    es == [] || (FitsOne(l, es[0]) && Fitting(LinkStep(l, es[0]), es[1..]))
  }

  predicate OwnPackets(c: Conversation) {
    c.frames == MqttFrame.Drain(c.stream).0
  }

  ghost predicate RecordInv(r: Recorded) {
    && (forall c :: c in r.past ==> OwnPackets(c))
    && MqttFrame.Drain(r.now.stream) == (r.now.frames, r.link.buf)
  }

  lemma {:induction false} RecordStep(r: Recorded, e: LinkEvent)
    requires RecordInv(r) && FitsOne(r.link, e)
    ensures RecordInv(RecordedStep(r, e))
  {
    hide MqttFrame.Drain, MqttFrame.Front, MqttFrame.Append, MqttFrame.Join, ReceivedAll, Step, NewBlock;
    match e {
      case Net(ev) =>
        NothingYet();
        MqttFrame.DrainNone([]);
      case Data(segs) =>
        MqttFrame.AppendFits(r.link.buf, segs);
        MqttFrame.DrainConcat(r.now.stream, MqttFrame.Join(segs));
    }
  }

  lemma {:induction false} NothingYet()
    ensures MqttFrame.Front([]).None?
  {
  }

  lemma {:induction false} RecordRun(r: Recorded, es: seq<LinkEvent>)
    requires RecordInv(r) && Fitting(r.link, es)
    ensures RecordInv(RecordedRun(r, es))
    decreases |es|
  {
    hide RecordInv, LinkStep;
    if es != [] {
      RecordStep(r, es[0]);
      RecordRun(RecordedStep(r, es[0]), es[1..]);
    }
  }

  /**
   Over every run of connections, drops and deliveries, and for every connection in it: the packets
   dispatched while it lasted are those of its own bytes, and what waits in the buffer is the
   rest of the bytes of the connection under way.
   */
  lemma {:induction false} ConversationsApart(es: seq<LinkEvent>)
    requires Fitting(LINK_INIT, es)
    ensures
      var r := RecordedRun(RECORDED_INIT, es);
      && (forall c :: c in r.past ==> c.frames == MqttFrame.Drain(c.stream).0)
      && (r.now.frames, r.link.buf) == MqttFrame.Drain(r.now.stream)
  {
    NothingYet();
    MqttFrame.DrainNone([]);
    RecordRun(RECORDED_INIT, es);
  }

  /**
   The end of the handshake, from bytes to state: whatever the pieces in which the broker's
   CONNACK arrives, it makes a waiting client ready exactly when its return code is 0, and sends
   it back to wait out the reconnect delay otherwise.
   */
  lemma {:induction false} HandshakeEnds(c: Cli, ack: octet, code: octet, deliveries: seq<seq<Octets>>)
    requires MqttFrame.Stream(deliveries) == [0x20, 2, ack, code] && MqttFrame.NeverOverflows([], deliveries)
    ensures LinkRun(Link(c, []), Deliveries(deliveries)) == Link(if code == 0 then c.(state := Ready) else Fail(c), [])
  {
    hide MqttFrame.ReceiveAll, MqttFrame.NeverOverflows, MqttPacket.HandlePacket, LinkRun;
    var p := MqttPacket.ConnackPacket(ack, code);
    assert p.Wire() == [0x20, 2, ack, code];
    assert MqttFrame.Wires([p]) == p.Wire() + [];
    assert p.Wire() + [] + p.Wire()[..0] == p.Wire();
    MqttFrame.FramingIsExact([p], p, 0, deliveries);
    MqttPacket.RepliesHandled(ack, code);
    DeliveriesReceive(Link(c, []), deliveries);
    var es := MqttPacket.HandleAll([p.AsFrame()]);
    assert es == [MqttPacket.HandlePacket(p.AsFrame())];
    assert es[1..] == [];
    assert ReceivedAll(c, es) == ReceivedAll(Received(c, es[0]), []);
  }

  /**
   What any packet at all does to the connection.  A CONNACK (2) makes the client ready if it is long
   enough to carry return code 0 and does, and otherwise drops the link; a PINGRESP (13) ends the wait for
   it; a PUBLISH, the acknowledgements of quality of service 0 and any packet the client does not know
   leave the connection as it is.
   */
  lemma {:induction false} PacketEffectExact(c: Cli, f: MqttFrame.Frame)
    requires f.Valid()
    ensures
      var d := Received(c, MqttPacket.HandlePacket(f));
      var body := f.Body();
      if f.Kind() == 2 then
        if |body| >= 2 && body[1] == 0 then d == c.(state := Ready)
        else d == c.(state := Idle, pcb := false, reconnectMs := RECONNECT_MS)
      else if f.Kind() == 13 then d == c.(pingWaitMs := 0)
      else d == c
  {
  }

  /**
   The keep-alive of the CONNECT packet is one the client keeps: a broker that reads K seconds in it
   hears from a ready client in less than half of that, and the client waits K seconds for an
   answer to its ping.
   */
  lemma {:induction false} KeepAlivePromised(l: MqttPacket.Login, es: seq<Event>, ms: nat, env: Env)
    requires l.Measured() && LegalRun(INIT, es) && env.write
    ensures
      var t := TimedStep(TimedRun(TIMED_INIT, es), Tick(ms, env));
      match MqttPacket.DecodeConnect(MqttPacket.ConnectBody(l))
      case None => false
      case Some(fields) =>
        && fields.keepAlive > 0 && PING_TIMEOUT_MS == 1000 * fields.keepAlive
        && (t.cli.state.Ready? ==> 2 * (t.now - t.lastSent) < 1000 * fields.keepAlive)
  {
    hide MqttPacket.DecodeConnect, MqttPacket.ConnectBody, TimedStep, TimedRun;
    MqttPacket.ConnectRoundTrip(l);
    KeepAlive(es, ms, env);
  }

  function Deliveries(deliveries: seq<seq<Octets>>): seq<LinkEvent> {
    seq(|deliveries|, i requires 0 <= i < |deliveries| => Data(deliveries[i]))
  }

  /** Deliveries on one connection dispatch what the framing says, in order. */
  lemma {:induction false} DeliveriesReceive(l: Link, deliveries: seq<seq<Octets>>)
    ensures
      var (fs, rest) := MqttFrame.ReceiveAll(l.buf, deliveries);
      && (forall f :: f in fs ==> f.Valid())
      && LinkRun(l, Deliveries(deliveries)) == Link(ReceivedAll(l.cli, MqttPacket.HandleAll(fs)), rest)
    decreases |deliveries|
  {
    if deliveries != [] {
      hide MqttPacket.HandlePacket, MqttFrame.Receive;
      var (fs, rest) := MqttFrame.Receive(l.buf, deliveries[0]);
      ReceiveValid(l.buf, deliveries[0]);
      assert Deliveries(deliveries)[1..] == Deliveries(deliveries[1..]);
      DeliveriesReceive(LinkStep(l, Data(deliveries[0])), deliveries[1..]);
      var gs := MqttFrame.ReceiveAll(rest, deliveries[1..]).0;
      HandleAllConcat(fs, gs);
      ReceivedAllConcat(l.cli, MqttPacket.HandleAll(fs), MqttPacket.HandleAll(gs));
    }
  }

  lemma {:induction false} ReceiveValid(buf: Octets, segs: seq<Octets>)
    ensures forall f :: f in MqttFrame.Receive(buf, segs).0 ==> f.Valid()
  {
  }

  lemma {:induction false} HandleAllConcat(fs: seq<MqttFrame.Frame>, gs: seq<MqttFrame.Frame>)
    requires (forall f :: f in fs ==> f.Valid()) && (forall g :: g in gs ==> g.Valid())
    ensures MqttPacket.HandleAll(fs + gs) == MqttPacket.HandleAll(fs) + MqttPacket.HandleAll(gs)
  {
  }

  lemma {:induction false} ReceivedAllConcat(c: Cli, es: seq<MqttPacket.Event>, ds: seq<MqttPacket.Event>)
    ensures ReceivedAll(c, es + ds) == ReceivedAll(ReceivedAll(c, es), ds)
    decreases |es|
  {
    if es == [] {
      assert es + ds == ds;
    } else {
      assert (es + ds)[1..] == es[1..] + ds;
      ReceivedAllConcat(Received(c, es[0]), es[1..], ds);
    }
  }
}
