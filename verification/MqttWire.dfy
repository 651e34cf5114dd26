/** The client's buffers: the assembly buffer of the receive callback and the encoders. */
module MqttWire {
  import opened Common
  import opened MqttFrame
  import opened MqttPacket

  // ---------------------------------------------------------------------------
  // Receiving
  // ---------------------------------------------------------------------------

  class Receiver {
    const rx: array<octet>
    var rxLen: nat

    ghost predicate Valid()
      reads this
    {
      rx.Length == RX_SIZE && rxLen <= RX_SIZE
    }

    /** The bytes waiting for the rest of their packet. */
    ghost function Buffered(): Octets
      reads this, rx
      requires Valid()
    {
      rx[..rxLen]
    }

    /** A new connection starts with an empty buffer. */
    method Reset()
      requires Valid()
      modifies this
      ensures Valid() && Buffered() == []
    {
      rxLen := 0;
    }

    constructor ()
      ensures Valid() && fresh(rx) && Buffered() == []
    {
      rx := new octet[RX_SIZE](_ => 0);
      rxLen := 0;
    }

    /** Copies a chain of segments in; what does not fit empties the buffer. */
    method Assemble(segs: seq<Octets>)
      requires Valid()
      modifies this, rx
      ensures Valid() && Buffered() == Append(old(Buffered()), segs)
    {
      for k := 0 to |segs|
        invariant Valid()
        invariant Append(Buffered(), segs[k..]) == Append(old(Buffered()), segs)
      {
        var seg := segs[k];
        ghost var before := Buffered();
        assert segs[k..][0] == seg && segs[k..][1..] == segs[k + 1..];
        if rxLen + |seg| <= RX_SIZE {
          forall i | 0 <= i < |seg| {
            rx[rxLen + i] := seg[i];
          }
          rxLen := rxLen + |seg|;
          assert Buffered() == before + seg;
        } else {
          rxLen := 0;
          assert Buffered() == [];
        }
      }
    }

    /** Decodes the length field at the front of the buffer, as far as it has arrived. */
    method Scan() returns (hdr: nat, rem: nat)
      requires Valid() && rxLen >= 2
      ensures (hdr, rem) == ScanLen(Buffered(), 1, 1, 0)
    {
      hdr, rem := 1, 0;
      var mult: nat := 1;
      while hdr < rxLen && hdr <= 4
        invariant 1 <= hdr <= rxLen
        invariant ScanLen(Buffered(), 1, 1, 0) == ScanLen(Buffered(), hdr, mult, rem)
        decreases rxLen - hdr
      {
        var b: nat := rx[hdr];
        rem := rem + b % 128 * mult;
        hdr := hdr + 1;
        if b < 128 {
          break;
        }
        mult := mult * 128 % 0x1_0000;
      }
    }

    /** Drops the first n bytes by moving the others to the front. */
    method Shift(n: nat)
      requires Valid() && n <= rxLen
      modifies this, rx
      ensures Valid() && Buffered() == old(Buffered())[n..]
    {
      var left := rxLen - n;
      forall i | 0 <= i < left {
        rx[i] := rx[n + i];
      }
      rxLen := left;
    }

    /** Takes the first packet out of the buffer, if it is complete. */
    method TakePacket() returns (frame: Option<Frame>)
      requires Valid() && rxLen >= 2
      modifies this, rx
      ensures Valid()
      ensures
        var buf := old(Buffered());
        match Front(buf)
        case None => frame == None && Buffered() == buf
        case Some((hdr, rem)) => frame == Some(Frame(buf[..hdr + rem], hdr)) && Buffered() == buf[hdr + rem..]
    {
      hide ScanLen;
      var hdr, rem := Scan();
      if (rx[hdr - 1] >= 128 && rxLen <= hdr) || rxLen < hdr + rem {
        return None;
      }
      frame := Some(Frame(rx[..hdr + rem], hdr));
      assert rx[..hdr + rem] == Buffered()[..hdr + rem];
      Shift(hdr + rem);
    }

    /** MQTTRecvCB on a delivery: every complete packet is dispatched, in order. */
    method RecvCB(segs: seq<Octets>) returns (events: seq<Event>)
      requires Valid()
      modifies this, rx
      ensures Valid()
      ensures Buffered() == Receive(old(Buffered()), segs).1
      ensures events == HandleAll(Receive(old(Buffered()), segs).0)
    {
      hide HandlePacket, Front, Drain;
      Assemble(segs);
      ghost var all := Buffered();
      ghost var done: seq<Frame> := [];
      events := [];
      assert [] + Drain(all).0 == Drain(all).0;
      while rxLen >= 2
        invariant Valid() && forall f :: f in done ==> f.Valid()
        invariant events == HandleAll(done)
        invariant Drain(all) == (done + Drain(Buffered()).0, Drain(Buffered()).1)
        decreases rxLen
      {
        ghost var buf := Buffered();
        var frame := TakePacket();
        if frame.None? {
          break;
        }
        OneTaken(all, done, buf, frame.value, Buffered());
        OneMore(done, frame.value, events);
        events := events + [HandlePacket(frame.value)];
        done := done + [frame.value];
      }
      ShortHasNoPacket(Buffered());
      DrainNone(Buffered());
      assert done + [] == done;
    }
  }

  lemma {:induction false} ShortHasNoPacket(buf: Octets)
    ensures |buf| < 2 ==> Front(buf).None?
  {
  }

  /** Taking the first packet moves it from the bytes still to parse to the packets done. */
  lemma {:induction false} OneTaken(all: Octets, done: seq<Frame>, buf: Octets, frame: Frame, rest: Octets)
    requires Drain(all) == (done + Drain(buf).0, Drain(buf).1) && Front(buf).Some?
    requires
      var (hdr, rem) := Front(buf).value;
      frame == Frame(buf[..hdr + rem], hdr) && rest == buf[hdr + rem..]
    ensures Drain(all) == (done + [frame] + Drain(rest).0, Drain(rest).1)
  {
    hide Drain, Front;
    DrainOne(buf);
    assert done + ([frame] + Drain(rest).0) == done + [frame] + Drain(rest).0;
  }

  lemma {:induction false} OneMore(fs: seq<Frame>, f: Frame, es: seq<Event>)
    requires f.Valid() && (forall g :: g in fs ==> g.Valid()) && es == HandleAll(fs)
    ensures HandleAll(fs + [f]) == es + [HandlePacket(f)]
  {
  }

  // ---------------------------------------------------------------------------
  // Sending
  // ---------------------------------------------------------------------------

  /** MQTTPutStr. */
  method PutStr(buf: array<octet>, pos: nat, s: Octets) returns (end: nat)
    requires |s| < 0x1_0000 && pos + 2 + |s| <= buf.Length
    modifies buf
    ensures end == pos + 2 + |s| && buf[..end] == old(buf[..pos]) + Str(s)
  {
    buf[pos] := |s| / 256;
    buf[pos + 1] := |s| % 256;
    end := PutOctets(buf, pos + 2, s);
  }

  lemma {:induction false} EncodeStep(done: Octets, n: nat)
    ensures
      var digit, rest := n % 128, n / 128;
      done + EncodeLen(n) == if rest == 0 then done + [digit] else (done + [digit + 128]) + EncodeLen(rest)
  {
  }

  /** MQTTEncodeLen, behind pos bytes that are already in place. */
  method PutLen(buf: array<octet>, pos: nat, n: nat) returns (end: nat)
    requires pos + |EncodeLen(n)| <= buf.Length
    modifies buf
    ensures end == pos + |EncodeLen(n)| && buf[..end] == old(buf[..pos]) + EncodeLen(n)
  {
    hide EncodeLen;
    var left, more := n, true;
    end := pos;
    ghost var done: Octets := [];
    while more
      invariant end == pos + |done| <= buf.Length
      invariant if more then done + EncodeLen(left) == EncodeLen(n) else done == EncodeLen(n)
      invariant buf[..end] == old(buf[..pos]) + done
      decreases more, left
    {
      EncodeStep(done, left);
      var digit, rest := left % 128, left / 128;
      assert |done + EncodeLen(left)| > |done|;
      var b: octet := if rest > 0 then digit + 128 else digit;
      end := PutOctets(buf, end, [b]);
      done := done + [b];
      left, more := rest, rest > 0;
    }
  }

  class Transmitter {
    const tx: array<octet>

    ghost predicate Valid() {
      tx.Length == TX_SIZE
    }

    constructor ()
      ensures Valid() && fresh(tx)
    {
      tx := new octet[TX_SIZE](_ => 0);
    }

    /**
     MQTTClientPublish: the bytes handed to TCP, or nothing when not connected or too long.
     The caller keeps topic and payload within the 16-bit length variables.
     */
    method Publish(ready: bool, p: Publication) returns (sent: Option<Octets>)
      requires Valid() && p.Measured()
      modifies tx
      ensures sent == if ready && FitsTx(p) then Some(p.AsPacket().Wire()) else None
    {
      hide EncodeLen;
      if !ready {
        return None;
      }
      var rem := 2 + |p.topic| + |p.payload|;
      if rem + 5 > TX_SIZE {
        return None;
      }
      PublishFits(p);
      tx[0] := 0x30 + (if p.retain then 1 else 0);
      var pos := PutLen(tx, 1, rem);
      pos := PutStr(tx, pos, p.topic);
      pos := PutOctets(tx, pos, p.payload);
      assert tx[..pos] == p.AsPacket().Wire();
      return Some(tx[..pos]);
    }

    /** MQTTSendConnect: the strings fit its 256-byte variable part. */
    method SendConnect(l: Login) returns (sent: Octets)
      requires Valid() && l.Measured() && |ConnectBody(l)| <= VAR_SIZE
      modifies tx
      ensures sent == ConnectPacket(l).Wire()
    {
      hide EncodeLen, ConnectBody;
      var body, pos := BuildConnect(l);
      Digits(pos);
      tx[0] := 0x10;
      var hdr := PutLen(tx, 1, pos);
      var end := PutOctets(tx, hdr, body[..pos]);
      sent := tx[..end];
    }
  }

  lemma {:induction false} ConnectLength(l: Login)
    requires l.Measured()
    ensures |ConnectBody(l)| == 12 + |l.clientId| + |WillPart(l)| + |UserPart(l)|
  {
  }

  /** The variable header and payload, in a local buffer. */
  method BuildConnect(l: Login) returns (body: array<octet>, pos: nat)
    requires l.Measured() && |ConnectBody(l)| <= VAR_SIZE
    ensures fresh(body) && pos <= body.Length && body[..pos] == ConnectBody(l)
  {
    hide Flags, WillPart, UserPart, Str;
    ConnectLength(l);
    body := new octet[VAR_SIZE](_ => 0);
    pos := PutStr(body, 0, PROTOCOL);
    pos := PutOctets(body, pos, [4, Flags(l), 0, KEEPALIVE_S]);
    pos := PutStr(body, pos, l.clientId);
    pos := PutWill(body, pos, l);
    pos := PutUser(body, pos, l);
  }

  method PutWill(buf: array<octet>, pos: nat, l: Login) returns (end: nat)
    requires l.Measured() && pos + |WillPart(l)| <= buf.Length
    modifies buf
    ensures end == pos + |WillPart(l)| && buf[..end] == old(buf[..pos]) + WillPart(l)
  {
    hide Str;
    end := pos;
    if l.will.Some? {
      end := PutStr(buf, end, l.will.value.topic);
      end := PutStr(buf, end, l.will.value.message);
    }
  }

  method PutUser(buf: array<octet>, pos: nat, l: Login) returns (end: nat)
    requires l.Measured() && pos + |UserPart(l)| <= buf.Length
    modifies buf
    ensures end == pos + |UserPart(l)| && buf[..end] == old(buf[..pos]) + UserPart(l)
  {
    hide Str;
    end := pos;
    if l.user != [] {
      end := PutStr(buf, end, l.user);
      if l.pass != [] {
        end := PutStr(buf, end, l.pass);
      }
    }
  }
}
