/** The NetBIOS name responder: name decoding, matching, and the reply it builds. */
module Netbios {
  import opened Common

  const NAME_LEN: nat := 16
  const ENC_LEN: nat := 32
  const MIN_QUERY_LEN: nat := 50
  const SPACE: octet := 0x20

  // ---------------------------------------------------------------------------
  // First-level encoding (section 14.1 of RFC 1001)
  // ---------------------------------------------------------------------------

  /** Each octet becomes two letters, one for each half. */
  function FirstLevel(raw: Octets): (enc: Octets)
    ensures |enc| == 2 * |raw|
  {
    if raw == [] then [] else [0x41 + raw[0] / 16, 0x41 + raw[0] % 16] + FirstLevel(raw[1..])
  }

  /** The distance from 'A', in 8 bits. */
  function FromA(c: octet): octet {
    if c >= 0x41 then c - 0x41 else c + 256 - 0x41
  }

  /** The firmware's arithmetic on one pair of letters; nothing checks that they are letters. */
  function Pair(hi: octet, lo: octet): octet {
    FromA(hi) * 16 % 256 + FromA(lo) % 16
  }

  lemma {:induction false} PairInverts(c: octet)
    ensures Pair(0x41 + c / 16, 0x41 + c % 16) == c
  {
  }

  function Nibble(c: octet): (n: nat)
    ensures n < 16
  {
    FromA(c) % 16
  }

  /** Shifting an octet left by four keeps its lower half. */
  lemma {:induction false} ShiftedByte(x: nat)
    ensures x * 16 % 256 == x % 16 * 16
  {
    var q, r := x / 16, x % 16;
    assert x * 16 == 256 * q + 16 * r;
    Modulo256(q, 16 * r);
  }

  lemma {:induction false} Modulo256(q: nat, r: nat)
    requires r < 256
    ensures (256 * q + r) % 256 == r
  {
  }

  lemma {:induction false} PairByNibbles(hi: octet, lo: octet)
    ensures Pair(hi, lo) == Nibble(hi) * 16 + Nibble(lo)
  {
    ShiftedByte(FromA(hi));
  }

  lemma {:induction false} PairsEqual(hi: octet, lo: octet, hi': octet, lo': octet)
    ensures Pair(hi, lo) == Pair(hi', lo') <==> Nibble(hi) == Nibble(hi') && Nibble(lo) == Nibble(lo')
  {
    PairByNibbles(hi, lo);
    PairByNibbles(hi', lo');
    hide Pair, Nibble;
  }

  function Unlevel(enc: Octets): (raw: Octets)
    requires |enc| % 2 == 0
    ensures |raw| == |enc| / 2
  {
    if enc == [] then [] else [Pair(enc[0], enc[1])] + Unlevel(enc[2..])
  }

  lemma {:induction false} UnlevelAt(enc: Octets, i: nat)
    requires |enc| % 2 == 0 && i < |enc| / 2
    ensures Unlevel(enc)[i] == Pair(enc[2 * i], enc[2 * i + 1])
  {
    if i > 0 { UnlevelAt(enc[2..], i - 1); }
  }

  lemma {:induction false} UnlevelInverts(raw: Octets)
    ensures Unlevel(FirstLevel(raw)) == raw
  {
    if raw != [] {
      var enc := FirstLevel(raw);
      assert enc[2..] == FirstLevel(raw[1..]);
      PairInverts(raw[0]);
      hide Pair, FirstLevel;
      UnlevelInverts(raw[1..]);
    }
  }

  function Nibbles(s: Octets): seq<nat> {
    seq(|s|, i requires 0 <= i < |s| => Nibble(s[i]))
  }

  /** Two labels are the same name to the firmware exactly when their octets agree modulo 16. */
  lemma {:induction false} SameName(a: Octets, b: Octets)
    requires |a| == |b| && |a| % 2 == 0
    ensures Unlevel(a) == Unlevel(b) <==> Nibbles(a) == Nibbles(b)
  {
    hide Pair, Nibble, Unlevel;
    forall i | 0 <= i < |a| / 2
      ensures Unlevel(a)[i] == Unlevel(b)[i] <==>
        Nibbles(a)[2 * i] == Nibbles(b)[2 * i] && Nibbles(a)[2 * i + 1] == Nibbles(b)[2 * i + 1]
    {
      UnlevelAt(a, i);
      UnlevelAt(b, i);
      PairsEqual(a[2 * i], a[2 * i + 1], b[2 * i], b[2 * i + 1]);
    }
    if Unlevel(a) == Unlevel(b) {
      forall i | 0 <= i < |a| ensures Nibbles(a)[i] == Nibbles(b)[i] {
        assert Unlevel(a)[i / 2] == Unlevel(b)[i / 2];
        assert i == 2 * (i / 2) || i == 2 * (i / 2) + 1;
      }
      assert Nibbles(a) == Nibbles(b);
    } else {
      var i :| 0 <= i < |a| / 2 && Unlevel(a)[i] != Unlevel(b)[i];
    }
  }

  /** NbDecodeName. */
  method NbDecodeName(enc: Octets) returns (raw: array<octet>)
    requires |enc| == ENC_LEN
    ensures fresh(raw) && raw[..] == Unlevel(enc)
  {
    hide Pair, Unlevel;
    raw := new octet[NAME_LEN](_ => 0);
    var i := 0;
    while i < NAME_LEN
      invariant i <= NAME_LEN
      invariant forall k :: 0 <= k < i ==> raw[k] == Unlevel(enc)[k]
    {
      UnlevelAt(enc, i);
      raw[i] := Pair(enc[i * 2], enc[i * 2 + 1]);
      i := i + 1;
    }
  }

  // ---------------------------------------------------------------------------
  // Names
  // ---------------------------------------------------------------------------

  function NbUpper(c: octet): octet {
    if 0x61 <= c <= 0x7A then c - 0x20 else c
  }

  function Upper(s: Octets): (u: Octets)
    ensures |u| == |s|
  {
    seq(|s|, i requires 0 <= i < |s| => NbUpper(s[i]))
  }

  /** Without trailing spaces. */
  function Trim(s: Octets): (t: Octets)
    ensures t <= s
  {
    if s != [] && s[|s| - 1] == SPACE then Trim(s[..|s| - 1]) else s
  }

  /** The part of the client id that the node keeps. */
  function Kept(id: Octets): Octets {
    if |id| <= 15 then id else id[..15]
  }

  /** What the node answers to: the first 15 characters of its client id, in upper case. */
  function Snapshot(id: Octets): Octets {
    Upper(Kept(id))
  }

  /** A decoded name means this node: the service type in its last octet is ignored. */
  predicate Matches(raw: Octets, name: Octets)
    requires |raw| == NAME_LEN
  {
    Upper(Trim(raw[..15])) == name
  }

  /** A name as a client asks for it: padded with spaces to 15 characters, then the service type. */
  function Asked(name: Octets, service: octet): (raw: Octets)
    requires |name| <= 15
    ensures |raw| == NAME_LEN
  {
    name + seq(15 - |name|, _ => SPACE) + [service]
  }

  lemma {:induction false} TrimPadded(s: Octets, n: nat)
    requires s == [] || s[|s| - 1] != SPACE
    ensures Trim(s + seq(n, _ => SPACE)) == s
    decreases n
  {
    var padded := s + seq(n, _ => SPACE);
    if n == 0 {
      assert padded == s;
    } else {
      assert padded[..|padded| - 1] == s + seq(n - 1, _ => SPACE);
      TrimPadded(s, n - 1);
    }
  }

  lemma {:induction false} TrimEnds(s: Octets)
    ensures Trim(s) == [] || Trim(s)[|Trim(s)| - 1] != SPACE
  {
    if s != [] && s[|s| - 1] == SPACE { TrimEnds(s[..|s| - 1]); }
  }

  /**
   A query for a name, for any service and whatever its case, matches exactly the nodes whose
   client id has that name as its first 15 characters, case apart.
   */
  lemma {:induction false} QueryMatches(name: Octets, service: octet, id: Octets)
    requires |name| <= 15 && (name == [] || name[|name| - 1] != SPACE)
    ensures
      Matches(Unlevel(FirstLevel(Asked(name, service))), Snapshot(id)) <==>
        Upper(name) == Snapshot(id)
  {
    var raw := Asked(name, service);
    UnlevelInverts(raw);
    assert raw[..15] == name + seq(15 - |name|, _ => SPACE);
    TrimPadded(name, 15 - |name|);
  }

  /** The same character, or a letter of A to Z in its two cases. */
  predicate SameLetter(c: octet, d: octet) {
    c == d || (0x41 <= c <= 0x5A && d == c + 0x20) || (0x41 <= d <= 0x5A && c == d + 0x20)
  }

  /** Names agree in upper case exactly when they agree letter by letter, case apart. */
  lemma {:induction false} CaseApart(a: Octets, b: Octets)
    ensures Upper(a) == Upper(b) <==> |a| == |b| && forall i :: 0 <= i < |a| ==> SameLetter(a[i], b[i])
  {
    if Upper(a) == Upper(b) {
      assert |Upper(a)| == |a| && |Upper(b)| == |b|;
      forall i | 0 <= i < |a| ensures SameLetter(a[i], b[i]) {
        assert Upper(a)[i] == Upper(b)[i];
      }
    }
  }

  // ---------------------------------------------------------------------------
  // The responder
  // ---------------------------------------------------------------------------

  function Short(d: Octets, at: nat): nat
    requires at + 1 < |d|
  {
    var high: nat := d[at];
    high * 256 + d[at + 1]
  }

  /** An NB question in a request: no response bit, opcode 0, at least one question, a 32-octet label. */
  predicate IsQuery(d: Octets) {
    && |d| >= MIN_QUERY_LEN
    && d[2] < 0x80 && d[2] / 8 % 16 == 0
    && Short(d, 4) >= 1
    && d[12] == ENC_LEN && Short(d, 46) == 0x0020
  }

  function Response(d: Octets, ip: Octets): (r: Octets)
    requires |d| >= MIN_QUERY_LEN && |ip| == 4
    ensures |r| == 62
  {
    d[..2] + [0x85, 0, 0, 0, 0, 1, 0, 0, 0, 0] + [ENC_LEN] + d[13..45] + [0, 0, 0x20, 0, 1]
      + [0, 4, 0x93, 0xE0, 0, 6, 0, 0] + ip
  }

  // The header of section 4.2.1.1 of RFC 1002.

  /** The first bit of the flags. */
  predicate IsResponse(d: Octets)
    requires |d| >= 12
  {
    d[2] / 128 == 1
  }

  /** The four bits behind it. */
  function Opcode(d: Octets): nat
    requires |d| >= 12
  {
    d[2] / 8 % 16
  }

  /**
   The reply r answers the question d, with authority and no error: same transaction, one answer, a name
   that decodes as the one asked for, 300000 seconds to live, and the node's address.
   */
  predicate Answers(r: Octets, d: Octets, ip: Octets)
    requires |d| >= MIN_QUERY_LEN && |ip| == 4
  {
    && |r| == 62
    && r[..2] == d[..2] && IsResponse(r) && Opcode(r) == 0 && r[2] / 4 % 2 == 1 && r[3] % 16 == 0
    && Short(r, 4) == 0 && Short(r, 6) == 1 && Short(r, 8) == 0 && Short(r, 10) == 0
    && r[12] == ENC_LEN && Unlevel(r[13..45]) == Unlevel(d[13..45]) && r[45] == 0
    && Short(r, 46) == 0x0020 && Short(r, 48) == 1
    && Short(r, 50) * 65536 + Short(r, 52) == 300_000
    && Short(r, 54) == 2 + |ip| && r[58..] == ip
  }

  lemma {:induction false} ResponseAnswers(d: Octets, ip: Octets)
    requires |d| >= MIN_QUERY_LEN && |ip| == 4
    ensures Answers(Response(d, ip), d, ip)
  {
    var r := Response(d, ip);
    hide Unlevel;
    assert r[13..45] == d[13..45];
    assert r[..2] == d[..2];
    assert r[58..] == ip;
  }

  /** What lwIP hands over: the first buffer of the datagram, and whether that is all of it. */
  datatype Datagram = Datagram(bytes: Octets, whole: bool)

  /** The node's address when one is bound, and whether a buffer for the reply can be had. */
  datatype Env = Env(ip: Option<Octets>, room: bool)
  {
    predicate Valid() { ip.Some? ==> |ip.value| == 4 }
  }

  function Reply(name: Octets, d: Datagram, env: Env): Option<Octets>
    requires env.Valid()
  {
    if d.whole && IsQuery(d.bytes) && Matches(Unlevel(d.bytes[13..45]), name) && env.ip.Some? && env.room then
      Some(Response(d.bytes, env.ip.value))
    else None
  }

  /** A node with an empty name, or without a socket, opens no listener. */
  predicate Listens(id: Octets, socket: bool) {
    Snapshot(id) != [] && socket
  }

  /** What a node configured with this client id sends back. */
  function Answer(id: Octets, socket: bool, d: Datagram, env: Env): Option<Octets>
    requires env.Valid()
  {
    if Listens(id, socket) then Reply(Snapshot(id), d, env) else None
  }

  /**
   What must be left alone is: responses, other operations than a query, datagrams without a question,
   split or too short ones, questions of another type and names of another length; a node without
   an address, or without a buffer to be had, is silent too.
   */
  lemma {:induction false} OthersIgnored(id: Octets, socket: bool, d: Datagram, env: Env)
    requires env.Valid()
    requires |d.bytes| < MIN_QUERY_LEN || !d.whole
      || IsResponse(d.bytes) || Opcode(d.bytes) != 0 || Short(d.bytes, 4) == 0
      || d.bytes[12] != ENC_LEN || Short(d.bytes, 46) != 0x0020 || env.ip.None? || !env.room
    ensures Answer(id, socket, d, env).None?
  {
  }

  /** No node answers an answer, so two responders never keep each other busy. */
  lemma {:induction false} AnswersUnanswered(id: Octets, d: Datagram, env: Env, id': Octets, socket': bool, env': Env)
    requires env.Valid() && env'.Valid() && Answer(id, true, d, env).Some?
    ensures Answer(id', socket', Datagram(Answer(id, true, d, env).value, true), env').None?
  {
    hide Snapshot, Matches, Unlevel, Response;
    ResponseAnswers(d.bytes, env.ip.value);
    OthersIgnored(id', socket', Datagram(Answer(id, true, d, env).value, true), env');
  }

  // ---------------------------------------------------------------------------
  // Who is found
  // ---------------------------------------------------------------------------

  /** A name query (section 4.2.12 of RFC 1002). */
  function Query(name: Octets, service: octet): (d: Octets)
    requires |name| <= 15
    ensures |d| == 50
  {
    [0, 1, 1, 0x10, 0, 1, 0, 0, 0, 0, 0, 0, ENC_LEN] + FirstLevel(Asked(name, service)) + [0, 0, 0x20, 0, 1]
  }

  lemma {:induction false} QueryIsQuery(name: Octets, service: octet)
    requires |name| <= 15
    ensures IsQuery(Query(name, service)) && Query(name, service)[13..45] == FirstLevel(Asked(name, service))
  {
    hide FirstLevel, Asked;
  }

  /**
   From datagram to reply: a query for a name, for any service and whatever its case, is answered by
   exactly the nodes that keep that name, not empty, of their client id, and the answer gives the name
   asked for the node's address.
   */
  lemma {:induction false} QueryAnswered(name: Octets, service: octet, id: Octets, ip: Octets)
    requires |name| <= 15 && (name == [] || name[|name| - 1] != SPACE) && |ip| == 4
    ensures
      var q := Query(name, service);
      match Answer(id, true, Datagram(q, true), Env(Some(ip), true))
      case Some(r) => name != [] && Upper(name) == Snapshot(id)
        && Answers(r, q, ip) && Unlevel(r[13..45]) == Asked(name, service)
      case None => name == [] || Upper(name) != Snapshot(id)
  {
    hide IsQuery, Response, Query, Matches, Unlevel, FirstLevel, Asked, Snapshot, Short;
    QueryIsQuery(name, service);
    QueryMatches(name, service, id);
    UnlevelInverts(Asked(name, service));
    ResponseAnswers(Query(name, service), ip);
  }

  /** A node answers to its own client id, in any case of the letters, over its first 15 characters. */
  lemma {:induction false} OwnNameAnswered(name: Octets, service: octet, id: Octets, ip: Octets)
    requires name != [] && name[|name| - 1] != SPACE && |name| == (if |id| < 15 then |id| else 15) && |ip| == 4
    requires forall i :: 0 <= i < |name| ==> SameLetter(name[i], id[i])
    ensures Answer(id, true, Datagram(Query(name, service), true), Env(Some(ip), true)).Some?
  {
    CaseApart(name, id[..|name|]);
    assert Kept(id) == id[..|name|];
    hide Answer, Query, Upper, Answers;
    QueryAnswered(name, service, id, ip);
  }

  /** Some datagram gets a reply. */
  ghost predicate Reachable(id: Octets, env: Env)
    requires env.Valid()
  {
    exists d: Datagram :: Answer(id, true, d, env).Some?
  }

  /**
   A node can be found at all exactly when what it keeps of its client id is not empty and does not
   end in a space: the query loses its trailing spaces, the snapshot keeps them.
   */
  lemma {:induction false} CanBeFound(id: Octets, ip: Octets)
    requires |ip| == 4
    ensures Reachable(id, Env(Some(ip), true)) <==> Kept(id) != [] && Kept(id)[|Kept(id)| - 1] != SPACE
  {
    var kept := Kept(id);
    var env := Env(Some(ip), true);
    if kept != [] && kept[|kept| - 1] != SPACE {
      AnswersItsName(id, ip);
    }
    hide Answer;
    forall d: Datagram | Answer(id, true, d, env).Some? ensures kept != [] && kept[|kept| - 1] != SPACE {
      AnsweredName(id, d, env);
    }
  }

  lemma {:induction false} AnswersItsName(id: Octets, ip: Octets)
    requires |ip| == 4 && Kept(id) != [] && Kept(id)[|Kept(id)| - 1] != SPACE
    ensures Reachable(id, Env(Some(ip), true))
  {
    QueryAnswered(Kept(id), 0, id, ip);
    hide Query, Answer, Answers;
    assert Answer(id, true, Datagram(Query(Kept(id), 0), true), Env(Some(ip), true)).Some?;
  }

  lemma {:induction false} AnsweredName(id: Octets, d: Datagram, env: Env)
    requires env.Valid() && Answer(id, true, d, env).Some?
    ensures Kept(id) != [] && Kept(id)[|Kept(id)| - 1] != SPACE
  {
    hide Response, Unlevel, Upper, Matches;
    MatchedName(Unlevel(d.bytes[13..45]), Kept(id));
    UpperEmpty();
  }

  lemma {:induction false} UpperEmpty()
    ensures Upper([]) == []
  {
  }

  /** A name that some query matches does not end in a space. */
  lemma {:induction false} MatchedName(raw: Octets, kept: Octets)
    requires |raw| == NAME_LEN && Matches(raw, Upper(kept))
    ensures kept == [] || kept[|kept| - 1] != SPACE
  {
    TrimEnds(raw[..15]);
    var t := Trim(raw[..15]);
    assert |t| == |kept|;
    if t != [] { assert Upper(t)[|t| - 1] == Upper(kept)[|t| - 1]; }
  }

  class Responder {
    const name: array<octet>
    var len: nat
    var listening: bool

    ghost predicate Valid()
      reads this
    {
      name.Length == NAME_LEN && len <= 15
    }

    ghost function Name(): Octets
      reads this, name
      requires Valid()
    {
      name[..len]
    }

    /** NetbiosnsInit: id is the client id up to its terminator, socket says whether one can be had. */
    constructor (id: Octets, socket: bool)
      ensures Valid() && fresh(name) && Name() == Snapshot(id)
      ensures listening == Listens(id, socket)
    {
      name := new octet[NAME_LEN](_ => 0);
      len, listening := 0, false;
      new;
      var i := 0;
      while i < |id| && len < 15
        invariant i == len <= |id| && len <= 15 && name.Length == NAME_LEN && fresh(name) && !listening
        invariant forall k :: 0 <= k < len ==> name[k] == NbUpper(id[k])
      {
        name[len] := NbUpper(id[i]);
        len := len + 1;
        i := i + 1;
      }
      name[len] := 0;
      assert name[..len] == Snapshot(id);
      if len > 0 {
        listening := socket;
      }
    }

    method NbNameMatches(raw: array<octet>) returns (r: bool)
      requires Valid() && raw.Length == NAME_LEN
      ensures r <==> Matches(raw[..], Name())
    {
      var n := 15;
      while n > 0 && raw[n - 1] == SPACE
        invariant n <= 15
        invariant Trim(raw[..n]) == Trim(raw[..15])
      {
        assert raw[..n][..n - 1] == raw[..n - 1];
        n := n - 1;
      }
      assert raw[..][..15] == raw[..15];
      ghost var t := raw[..n];
      if n != len { return false; }
      while n > 0
        invariant n <= len
        invariant forall k :: n <= k < len ==> NbUpper(raw[k]) == name[k]
      {
        n := n - 1;
        if NbUpper(raw[n]) != name[n] {
          assert Upper(t)[n] != Name()[n];
          return false;
        }
      }
      assert Upper(t) == Name();
      return true;
    }

    method NbReceive(d: Datagram, env: Env) returns (reply: Option<Octets>)
      requires Valid() && env.Valid()
      ensures reply == Reply(Name(), d, env)
    {
      var bytes := d.bytes;
      if |bytes| < MIN_QUERY_LEN || !d.whole { return None; }
      if bytes[2] >= 0x80 || bytes[2] / 8 % 16 != 0 || Short(bytes, 4) < 1 { return None; }
      if bytes[12] != ENC_LEN || Short(bytes, 46) != 0x0020 { return None; }
      assert IsQuery(bytes);
      hide IsQuery, Response, Unlevel, Matches;
      var raw := NbDecodeName(bytes[13..45]);
      var matches := NbNameMatches(raw);
      if !matches { return None; }
      if env.ip.None? { return None; }
      if !env.room { return None; }
      var r := Build(bytes, env.ip.value);
      return Some(r[..]);
    }

    /** lwIP calls NbReceive only where a listener was opened. */
    method Deliver(d: Datagram, env: Env) returns (reply: Option<Octets>)
      requires Valid() && env.Valid()
      ensures reply == if listening then Reply(Name(), d, env) else None
    {
      if !listening { return None; }
      reply := NbReceive(d, env);
    }
  }

  method Build(d: Octets, ip: Octets) returns (r: array<octet>)
    requires |d| >= MIN_QUERY_LEN && |ip| == 4
    ensures fresh(r) && r[..] == Response(d, ip)
  {
    hide Response;
    r := new octet[62](_ => 0);
    var n := PutOctets(r, 0, d[..2]);
    n := PutOctets(r, n, [0x85, 0, 0, 0, 0, 1, 0, 0, 0, 0]);
    n := PutOctets(r, n, [ENC_LEN]);
    n := PutOctets(r, n, d[13..45]);
    n := PutOctets(r, n, [0, 0, 0x20, 0, 1]);
    n := PutOctets(r, n, [0, 4, 0x93, 0xE0, 0, 6, 0, 0]);
    n := PutOctets(r, n, ip);
    assert r[..n] == r[..];
    ResponseParts(d, ip);
  }

  lemma {:induction false} ResponseParts(d: Octets, ip: Octets)
    requires |d| >= MIN_QUERY_LEN && |ip| == 4
    ensures Response(d, ip) ==
      [] + d[..2] + [0x85, 0, 0, 0, 0, 1, 0, 0, 0, 0] + [ENC_LEN] + d[13..45] + [0, 0, 0x20, 0, 1]
        + [0, 4, 0x93, 0xE0, 0, 6, 0, 0] + ip
  {
    assert [] + d[..2] == d[..2];
  }
}
