/** The packets the client builds and understands (sections 3.1 and 3.3 of MQTT 3.1.1). */
module MqttPacket {
  import opened Common
  import opened MqttFrame

  /** A string with its two-byte length. */
  function Str(s: Octets): (r: Octets)
    requires |s| < 0x1_0000
    ensures |r| == 2 + |s|
  {
    [|s| / 256, |s| % 256] + s
  }

  /** A 16-bit number, most significant byte first. */
  function Pair(b: Octets): (n: nat)
    requires |b| >= 2
  {
    var high: nat := b[0];
    var low: nat := b[1];
    high * 256 + low
  }

  // ---------------------------------------------------------------------------
  // Incoming packets
  // ---------------------------------------------------------------------------

  datatype Event =
    | Accepted
    | Refused
    | PingResponse
    | Message(topic: Octets, payload: Octets)
    | Nothing

  /** MQTTHandlePacket, up to its effects on the connection. */
  function HandlePacket(f: Frame): Event
    requires f.Valid()
  {
    var body := f.Body();
    match f.Kind()
    case 2 => if |body| >= 2 && body[1] == 0 then Accepted else Refused
    case 13 => PingResponse
    case 3 =>
      if |body| < 2 then Nothing
      else
        var n := Pair(body);
        if 2 + n <= |body| then Message(body[2..2 + n], body[2 + n..]) else Nothing
    case _ => Nothing
  }

  function HandleAll(fs: seq<Frame>): (es: seq<Event>)
    requires forall f :: f in fs ==> f.Valid()
    ensures |es| == |fs|
  {
    seq(|fs|, i requires 0 <= i < |fs| => HandlePacket(fs[i]))
  }

  // ---------------------------------------------------------------------------
  // PUBLISH, quality of service 0
  // ---------------------------------------------------------------------------

  datatype Publication = Publication(topic: Octets, payload: Octets, retain: bool)
  {
    /** The lengths fit the 16-bit variables of MQTTClientPublish. */
    predicate Measured() {
      2 + |topic| + |payload| < 0x1_0000
    }

    function AsPacket(): Packet
      requires Measured()
    {
      Packet(0x30 + (if retain then 1 else 0), Str(topic) + payload)
    }
  }

  const TX_SIZE: nat := 768

  predicate FitsTx(p: Publication) {
    2 + |p.topic| + |p.payload| + 5 <= TX_SIZE
  }

  /** The size check passes exactly the packets that leave two bytes of the transmit buffer free. */
  lemma {:induction false} PublishFits(p: Publication)
    requires p.Measured()
    ensures FitsTx(p) <==> |p.AsPacket().Wire()| <= TX_SIZE - 2
  {
    hide EncodeLen, Low7, High7;
    var n := |p.AsPacket().body|;
    Digits(n);
    Split7(n);
    Split7(High7(n));
  }

  /** Topic and payload come back as they were sent. */
  lemma {:induction false} PublishHandled(p: Publication)
    requires p.Measured()
    ensures p.AsPacket().AsFrame().Valid()
    ensures HandlePacket(p.AsPacket().AsFrame()) == Message(p.topic, p.payload)
  {
    hide EncodeLen;
    var w := p.AsPacket();
    var f := w.AsFrame();
    var e := EncodeLen(|w.body|);
    assert f.bytes == ([w.first] + e) + w.body;
    assert f.Body() == w.body;
    assert w.body[2..2 + |p.topic|] == p.topic;
    assert w.body[2 + |p.topic|..] == p.payload;
  }

  /**
   Publish round trip.  A stream of publications, cut by TCP in any way that never overflows
   the buffer, is delivered to the callback as the same topics and payloads in the same order.
   */
  lemma {:induction false} PublishRoundTrip(ps: seq<Publication>, deliveries: seq<seq<Octets>>)
    requires forall p :: p in ps ==> p.Measured()
    requires Stream(deliveries) == Wires(Packets(ps)) && NeverOverflows([], deliveries)
    ensures
      var (fs, rest) := ReceiveAll([], deliveries);
      && rest == []
      && |fs| == |ps|
      && forall i :: 0 <= i < |ps| ==> fs[i].Valid() && HandlePacket(fs[i]) == Message(ps[i].topic, ps[i].payload)
  {
    hide HandlePacket, EncodeLen, ReceiveAll, NeverOverflows, Wires;
    var qs := Packets(ps);
    var some := Packet(0, []);
    assert some.Wire()[..0] == [] && Wires(qs) + [] == Wires(qs);
    forall q | q in qs ensures |q.body| < LEN_LIMIT {
      var i :| 0 <= i < |qs| && q == qs[i];
      assert ps[i] in ps;
    }
    FramingIsExact(qs, some, 0, deliveries);
    forall i | 0 <= i < |ps|
      ensures Frames(qs)[i].Valid() && HandlePacket(Frames(qs)[i]) == Message(ps[i].topic, ps[i].payload)
    {
      assert ps[i] in ps;
      PublishHandled(ps[i]);
    }
  }

  function Packets(ps: seq<Publication>): (qs: seq<Packet>)
    requires forall p :: p in ps ==> p.Measured()
    ensures |qs| == |ps|
  {
    seq(|ps|, i requires 0 <= i < |ps| => assert ps[i] in ps; ps[i].AsPacket())
  }

  // A decoder that knows only section 3.3.

  /** The fields of a PUBLISH; above quality of service 0 a packet identifier would follow the topic. */
  datatype Published = Published(dup: bool, qos: nat, retain: bool, topic: Octets, payload: Octets)

  function DecodePublish(first: octet, body: Octets): Option<Published> {
    var qos := first / 2 % 4;
    if first / 16 != 3 || qos != 0 then None
    else
      match TakeStr(body)
      case None => None
      case Some((topic, payload)) => Some(Published(Bit(first, 8), qos, Bit(first, 1), topic, payload))
  }

  /**
   A broker that parses the bytes handed to TCP gets one PUBLISH, at quality of service 0 and no
   duplicate, with the topic, the payload and the retain flag of the publication.
   */
  lemma {:induction false} PublishOnWire(p: Publication)
    requires p.Measured()
    ensures
      var w := p.AsPacket().Wire();
      match Front(w)
      case None => false
      case Some((hdr, rem)) =>
        hdr + rem == |w| && DecodePublish(w[0], w[hdr..]) == Some(Published(false, 0, p.retain, p.topic, p.payload))
  {
    hide EncodeLen, Front;
    var q := p.AsPacket();
    var w := q.Wire();
    assert w + [] == w;
    FrontOfPacket(q, []);
    assert w == ([q.first] + EncodeLen(|q.body|)) + q.body;
    assert w[1 + |EncodeLen(|q.body|)|..] == q.body;
    hide Str, TakeStr;
    TakePut(p.topic, p.payload);
  }

  /**
   What the client makes of a PUBLISH of a broker: the message is delivered exactly when the
   body is a topic with its two-byte length and the payload behind it.
   */
  lemma {:induction false} MessageExact(f: Frame, topic: Octets, payload: Octets)
    requires f.Valid() && |topic| < 0x1_0000
    ensures HandlePacket(f) == Message(topic, payload) <==> f.Kind() == 3 && f.Body() == Str(topic) + payload
  {
    var body := f.Body();
    if f.Kind() == 3 && body == Str(topic) + payload {
      assert body[2..2 + |topic|] == topic && body[2 + |topic|..] == payload;
    }
    if HandlePacket(f) == Message(topic, payload) {
      PairBytes(body);
      assert body == body[..2] + body[2..2 + |topic|] + body[2 + |topic|..];
    }
  }

  lemma {:induction false} PairBytes(b: Octets)
    requires |b| >= 2
    ensures Pair(b) < 0x1_0000 && b[..2] == [Pair(b) / 256, Pair(b) % 256]
  {
  }

  // ---------------------------------------------------------------------------
  // Replies
  // ---------------------------------------------------------------------------

  /** A CONNACK with its session flag and return code (section 3.2). */
  function ConnackPacket(ack: octet, code: octet): Packet { Packet(0x20, [ack, code]) }

  const PINGREQ: Packet := Packet(0xC0, [])
  const PINGRESP: Packet := Packet(0xD0, [])

  /** A ping is one packet of type 12 with no flags and nothing in it (section 3.12). */
  lemma {:induction false} PingOnWire()
    ensures
      var w := PINGREQ.Wire();
      Front(w) == Some((2, 0)) && |w| == 2 && w[0] / 16 == 12 && w[0] % 16 == 0
  {
    var w := PINGREQ.Wire();
    assert w == [0xC0, 0];
    assert w + [] == w;
    FrontOfPacket(PINGREQ, []);
  }

  /** What the replies of a broker mean: only return code 0 accepts the connection. */
  lemma {:induction false} RepliesHandled(ack: octet, code: octet)
    ensures ConnackPacket(ack, code).AsFrame().Valid() && PINGRESP.AsFrame().Valid()
    ensures HandlePacket(ConnackPacket(ack, code).AsFrame()) == if code == 0 then Accepted else Refused
    ensures HandlePacket(PINGRESP.AsFrame()) == PingResponse
  {
    var w := ConnackPacket(ack, code).Wire();
    assert w == [0x20, 2, ack, code];
    assert w[2..] == [ack, code];
    assert PINGRESP.Wire() == [0xD0, 0];
  }

  // ---------------------------------------------------------------------------
  // CONNECT
  // ---------------------------------------------------------------------------

  datatype Will = Will(topic: Octets, message: Octets, retain: bool)

  /** The strings of the client state; an empty user or password is not sent. */
  datatype Login = Login(clientId: Octets, user: Octets, pass: Octets, will: Option<Will>)
  {
    predicate Measured() {
      && |clientId| < 0x1_0000 && |user| < 0x1_0000 && |pass| < 0x1_0000
      && (will.Some? ==> |will.value.topic| < 0x1_0000 && |will.value.message| < 0x1_0000)
    }

    /** What mqtt_app.c passes: strings of config.h, a status topic and "offline". */
    predicate FromApp() {
      && |clientId| <= 31 && |user| <= 31 && |pass| <= 31
      && (will.Some? ==> |will.value.topic| <= 63 && |will.value.message| == 7)
    }
  }

  const PROTOCOL: Octets := [0x4D, 0x51, 0x54, 0x54]
  const KEEPALIVE_S: nat := 60
  const VAR_SIZE: nat := 256

  function Flags(l: Login): octet {
    var will: nat := if l.will.Some? then 4 + (if l.will.value.retain then 32 else 0) else 0;
    var user: nat := if l.user != [] then 128 + (if l.pass != [] then 64 else 0) else 0;
    2 + will + user
  }

  function WillPart(l: Login): Octets
    requires l.Measured()
  {
    if l.will.Some? then Str(l.will.value.topic) + Str(l.will.value.message) else []
  }

  function UserPart(l: Login): Octets
    requires l.Measured()
  {
    if l.user != [] then Str(l.user) + (if l.pass != [] then Str(l.pass) else []) else []
  }

  /** Variable header and payload, as MQTTSendConnect lays them out. */
  function ConnectBody(l: Login): Octets
    requires l.Measured()
  {
    Str(PROTOCOL) + [4, Flags(l), 0, KEEPALIVE_S] + Str(l.clientId) + WillPart(l) + UserPart(l)
  }

  /** With the strings the application passes the variable part fits its buffer. */
  lemma {:induction false} ConnectFits(l: Login)
    requires l.Measured() && l.FromApp()
    ensures |ConnectBody(l)| <= 183 < VAR_SIZE
  {
  }

  // A decoder that knows only section 3.1.

  datatype Fields = Fields(
    clientId: Octets,
    will: Option<Will>,
    user: Option<Octets>,
    pass: Option<Octets>,
    cleanSession: bool,
    keepAlive: nat
  )

  /** Reads a length-prefixed string; the rest of the bytes follows. */
  function TakeStr(b: Octets): Option<(Octets, Octets)> {
    if |b| < 2 || |b| < 2 + Pair(b) then None
    else Some((b[2..2 + Pair(b)], b[2 + Pair(b)..]))
  }

  function TakeIf(flag: bool, b: Octets): Option<(Option<Octets>, Octets)> {
    if !flag then Some((None, b))
    else
      match TakeStr(b)
      case None => None
      case Some((s, rest)) => Some((Some(s), rest))
  }

  function Bit(flags: octet, weight: nat): bool
    requires weight > 0
  {
    flags / weight % 2 == 1
  }

  function DecodeConnect(b: Octets): Option<Fields> {
    match TakeStr(b)
    case None => None
    case Some((name, b1)) =>
      if name != PROTOCOL || |b1| < 4 || b1[0] != 4 || Bit(b1[1], 1) then None
      else
        var flags := b1[1];
        match TakeStr(b1[4..])
        case None => None
        case Some((id, b2)) =>
          match TakeIf(Bit(flags, 4), b2)
          case None => None
          case Some((topic, b3)) =>
            match TakeIf(Bit(flags, 4), b3)
            case None => None
            case Some((message, b4)) =>
              match TakeIf(Bit(flags, 128), b4)
              case None => None
              case Some((user, b5)) =>
                match TakeIf(Bit(flags, 64), b5)
                case None => None
                case Some((pass, b6)) =>
                  if b6 != [] then None
                  else
                    var will := if topic.Some? && message.Some?
                      then Some(Will(topic.value, message.value, Bit(flags, 32))) else None;
                    Some(Fields(id, will, user, pass, Bit(flags, 2), Pair(b1[2..])))
  }

  lemma {:induction false} TakePut(s: Octets, rest: Octets)
    requires |s| < 0x1_0000
    ensures TakeStr(Str(s) + rest) == Some((s, rest))
  {
    var b := Str(s) + rest;
    assert b[2..2 + |s|] == s && b[2 + |s|..] == rest;
  }

  /** The flag byte says which strings follow. */
  lemma {:induction false} FlagBits(l: Login)
    ensures !Bit(Flags(l), 1) && Bit(Flags(l), 2)
    ensures Bit(Flags(l), 4) == l.will.Some?
    ensures Bit(Flags(l), 32) == (l.will.Some? && l.will.value.retain)
    ensures Bit(Flags(l), 128) == (l.user != [])
    ensures Bit(Flags(l), 64) == (l.user != [] && l.pass != [])
  {
  }

  /** What a broker should read out of the login: an empty string is not sent. */
  function FieldsOf(l: Login): Fields {
    Fields(
      l.clientId,
      l.will,
      if l.user == [] then None else Some(l.user),
      if l.user == [] || l.pass == [] then None else Some(l.pass),
      true,
      KEEPALIVE_S)
  }

  /** CONNECT round trip: a decoder of the standard recovers exactly the client's fields. */
  lemma {:induction false} ConnectRoundTrip(l: Login)
    requires l.Measured()
    ensures DecodeConnect(ConnectBody(l)) == Some(FieldsOf(l))
  {
    hide Flags, Bit, Str, TakeStr;
    FlagBits(l);
    var tail := UserPart(l);
    var b4 := WillPart(l) + tail;
    var b2 := Str(l.clientId) + b4;
    var head := [4, Flags(l), 0, KEEPALIVE_S];
    assert ConnectBody(l) == Str(PROTOCOL) + (head + b2);
    TakePut(PROTOCOL, head + b2);
    assert (head + b2)[4..] == b2;
    TakePut(l.clientId, b4);
    if l.will.Some? {
      var w := l.will.value;
      assert b4 == Str(w.topic) + (Str(w.message) + tail);
      TakePut(w.topic, Str(w.message) + tail);
      TakePut(w.message, tail);
    } else {
      assert b4 == tail;
    }
    if l.user != [] {
      if l.pass != [] {
        TakePut(l.user, Str(l.pass));
        assert Str(l.pass) + [] == Str(l.pass);
        TakePut(l.pass, []);
      } else {
        TakePut(l.user, []);
      }
    }
  }

  function ConnectPacket(l: Login): Packet
    requires l.Measured()
  {
    Packet(0x10, ConnectBody(l))
  }

  /** A broker that parses the bytes of the whole packet gets one CONNECT with exactly those fields. */
  lemma {:induction false} ConnectOnWire(l: Login)
    requires l.Measured() && |ConnectBody(l)| < LEN_LIMIT
    ensures
      var w := ConnectPacket(l).Wire();
      match Front(w)
      case None => false
      case Some((hdr, rem)) => hdr + rem == |w| && w[0] == 0x10 && DecodeConnect(w[hdr..]) == Some(FieldsOf(l))
  {
    hide EncodeLen, ConnectBody, Front, DecodeConnect;
    var p := ConnectPacket(l);
    var w := p.Wire();
    assert w + [] == w;
    FrontOfPacket(p, []);
    assert w == ([p.first] + EncodeLen(|p.body|)) + p.body;
    assert w[1 + |EncodeLen(|p.body|)|..] == p.body;
    ConnectRoundTrip(l);
  }
}
