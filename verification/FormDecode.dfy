/**
 URL decoding of form fields (section 2.2 of RFC 1738): the loop over an output buffer, and
 the encodings it inverts.
 */
module FormDecode {

  // ---------------------------------------------------------------------------
  // What a text decodes to when there is room for all of it
  // ---------------------------------------------------------------------------

  predicate IsValidHexDigit(c: char) {
    '0' <= c <= '9' || 'a' <= c <= 'f' || 'A' <= c <= 'F'
  }

  /** 0xFF for a character that is no hexadecimal digit. */
  function HexDigit(c: char): (n: nat)
    ensures n < 16 <==> IsValidHexDigit(c)
  {
    if '0' <= c <= '9' then c as int - '0' as int
    else if 'a' <= c <= 'f' then c as int - 'a' as int + 10
    else if 'A' <= c <= 'F' then c as int - 'A' as int + 10
    else 0xFF
  }

  function Unescape(hi: char, lo: char): (c: char)
    requires IsValidHexDigit(hi) && IsValidHexDigit(lo)
  {
    (HexDigit(hi) * 16 + HexDigit(lo)) as char
  }

  /** A bad escape yields nothing and is skipped whole; one cut off by the end stops the decoding. */
  function Decoded(text: string): string {
    if text == "" then ""
    else if text[0] == '+' then " " + Decoded(text[1..])
    else if text[0] != '%' then [text[0]] + Decoded(text[1..])
    else if |text| < 3 then ""
    else if IsValidHexDigit(text[1]) && IsValidHexDigit(text[2]) then
      [Unescape(text[1], text[2])] + Decoded(text[3..])
    else Decoded(text[3..])
  }

  // ---------------------------------------------------------------------------
  // The encodings
  // ---------------------------------------------------------------------------

  /** How one character is put on the wire. */
  datatype Spelling = Plain | Plus | Escape(upperHi: bool, upperLo: bool)

  function HexChar(n: nat, upper: bool): (c: char)
    requires n < 16
    ensures IsValidHexDigit(c) && HexDigit(c) == n
  {
    if n < 10 then (n + '0' as int) as char
    else (n - 10 + (if upper then 'A' as int else 'a' as int)) as char
  }

  predicate Allowed(c: char, how: Spelling) {
    match how
    case Plain => c != '+' && c != '%' && c != '\0'
    case Plus => c == ' '
    case Escape(_, _) => c as int < 256
  }

  function Spelled(c: char, how: Spelling): string
    requires Allowed(c, how)
  {
    match how
    case Plain => [c]
    case Plus => "+"
    case Escape(hi, lo) => ['%', HexChar(c as int / 16, hi), HexChar(c as int % 16, lo)]
  }

  ghost predicate AllAllowed(s: string, how: seq<Spelling>) {
    |how| == |s| && forall i :: 0 <= i < |s| ==> Allowed(s[i], how[i])
  }

  ghost function Encoded(s: string, how: seq<Spelling>): string
    requires AllAllowed(s, how)
  {
    if s == "" then "" else Spelled(s[0], how[0]) + Encoded(s[1..], how[1..])
  }

  lemma {:induction false} SpelledOne(c: char, how: Spelling, rest: string)
    requires Allowed(c, how)
    ensures Decoded(Spelled(c, how) + rest) == [c] + Decoded(rest)
  {
    var text := Spelled(c, how) + rest;
    match how
    case Plain => assert text[1..] == rest;
    case Plus => assert text[1..] == rest;
    case Escape(hi, lo) => assert text[3..] == rest;
  }

  /** Decoding inverts every mix of plain, plus and either-case percent encodings. */
  lemma {:induction false} DecodedInverts(s: string, how: seq<Spelling>)
    requires AllAllowed(s, how)
    ensures Decoded(Encoded(s, how)) == s
  {
    if s != "" {
      SpelledOne(s[0], how[0], Encoded(s[1..], how[1..]));
      DecodedInverts(s[1..], how[1..]);
    }
  }

  /** An encoding never holds the terminator. */
  lemma {:induction false} EncodedHasNoNul(s: string, how: seq<Spelling>)
    requires AllAllowed(s, how)
    ensures '\0' !in Encoded(s, how)
  {
    if s != "" {
      EncodedHasNoNul(s[1..], how[1..]);
      assert '\0' !in Spelled(s[0], how[0]);
    }
  }

  /** Two strings that can be put on the wire the same way are the same string. */
  lemma {:induction false} EncodedUnambiguous(s: string, how: seq<Spelling>, s': string, how': seq<Spelling>)
    requires AllAllowed(s, how) && AllAllowed(s', how')
    requires Encoded(s, how) == Encoded(s', how')
    ensures s == s'
  {
    DecodedInverts(s, how);
    DecodedInverts(s', how');
  }

  /** Decoding is of one mind about a text cut between two spelled characters. */
  lemma {:induction false} DecodedAfter(s: string, how: seq<Spelling>, rest: string)
    requires AllAllowed(s, how)
    ensures Decoded(Encoded(s, how) + rest) == s + Decoded(rest)
  {
    if s == "" {
      assert Encoded(s, how) + rest == rest;
    } else {
      hide Decoded, Spelled;
      var tail := Encoded(s[1..], how[1..]);
      assert Encoded(s, how) == Spelled(s[0], how[0]) + tail;
      hide Encoded;
      Regroup(Spelled(s[0], how[0]), tail, rest);
      SpelledOne(s[0], how[0], tail + rest);
      DecodedAfter(s[1..], how[1..], rest);
      Regroup([s[0]], s[1..], Decoded(rest));
      assert [s[0]] + s[1..] == s;
    }
  }

  lemma {:induction false} Regroup(a: string, b: string, c: string)
    ensures (a + b) + c == a + (b + c)
  {
  }

  /** An escape with a digit that is not hexadecimal leaves no trace in the output. */
  lemma {:induction false} BadEscapeVanishes(s: string, how: seq<Spelling>, a: char, b: char, rest: string)
    requires AllAllowed(s, how) && !(IsValidHexDigit(a) && IsValidHexDigit(b))
    ensures Decoded(Encoded(s, how) + ['%', a, b] + rest) == s + Decoded(rest)
  {
    hide Encoded;
    var text := ['%', a, b] + rest;
    assert Encoded(s, how) + ['%', a, b] + rest == Encoded(s, how) + text;
    assert text[3..] == rest;
    DecodedAfter(s, how, text);
  }

  /** A text that ends in the middle of an escape ends before it. */
  lemma {:induction false} CutEscapeVanishes(s: string, how: seq<Spelling>, cut: string)
    requires AllAllowed(s, how) && |cut| < 2
    ensures Decoded(Encoded(s, how) + "%" + cut) == s
  {
    hide Encoded;
    var text := "%" + cut;
    assert Encoded(s, how) + "%" + cut == Encoded(s, how) + text;
    DecodedAfter(s, how, text);
    assert Decoded(text) == "";
    assert s + "" == s;
  }

  // ---------------------------------------------------------------------------
  // The code
  // ---------------------------------------------------------------------------

  method DecodeHexEscape(text: string, i: nat, dst: array<char>, at: nat) returns (valid: bool)
    requires i + 2 < |text| && at < dst.Length
    modifies dst
    ensures valid <==> text[i] == '%' && IsValidHexDigit(text[i + 1]) && IsValidHexDigit(text[i + 2])
    ensures dst[..] == if valid then old(dst[..])[at := Unescape(text[i + 1], text[i + 2])] else old(dst[..])
  {
    if text[i] != '%' || !IsValidHexDigit(text[i + 1]) || !IsValidHexDigit(text[i + 2]) {
      return false;
    }
    dst[at] := (HexDigit(text[i + 1]) * 16 + HexDigit(text[i + 2])) as char;
    return true;
  }

  /** memory holds a terminated string of n characters. */
  predicate CString(memory: string, n: nat) {
    n < |memory| && memory[n] == '\0' && forall i :: 0 <= i < n ==> memory[i] != '\0'
  }

  function Min(a: nat, b: nat): nat { if a <= b then a else b }

  /** The longest prefix of the decoded text that leaves room for the terminator. */
  function Stored(text: string, size: nat): string
    requires size >= 1
  {
    Decoded(text)[..Min(|Decoded(text)|, size - 1)]
  }

  /** The text is terminated and nothing behind the terminator is written. */
  method DecodeFormString(encoded: string, ghost n: nat, dst: array<char>) returns (count: nat)
    requires CString(encoded, n) && dst.Length >= 1
    modifies dst
    ensures count == |Stored(encoded[..n], dst.Length)| && dst[..count] == Stored(encoded[..n], dst.Length)
    ensures dst[count] == '\0'
    ensures dst[count + 1..] == old(dst[count + 1..])
  {
    hide Decoded, HexDigit, Unescape, Progress, IsValidHexDigit, Stored;
    count := 0;
    var i := 0;
    ghost var text := encoded[..n];
    ghost var all := Decoded(text);
    Begin(dst[..], text);
    while encoded[i] != '\0' && count < dst.Length - 1
      invariant i <= n && count <= dst.Length - 1
      invariant Progress(old(dst[..]), dst[..], count, Decoded(text[i..]), all)
      decreases n - i
    {
      ghost var before := dst[..];
      DecodedStep(text, i);
      if encoded[i] == '+' {
        dst[count] := ' ';
        Advance(old(dst[..]), before, dst[..], count, ' ', Decoded(text[i + 1..]), all);
        count, i := count + 1, i + 1;
      } else if encoded[i] == '%' {
        if encoded[i + 1] != '\0' && encoded[i + 2] != '\0' {
          var valid := DecodeHexEscape(encoded, i, dst, count);
          if valid {
            Advance(old(dst[..]), before, dst[..], count, Unescape(text[i + 1], text[i + 2]),
              Decoded(text[i + 3..]), all);
            count := count + 1;
          }
          i := i + 3;
        } else {
          Finish(old(dst[..]), before, count, "", text);
          dst[count] := '\0';
          return;
        }
      } else {
        dst[count] := encoded[i];
        Advance(old(dst[..]), before, dst[..], count, encoded[i], Decoded(text[i + 1..]), all);
        count, i := count + 1, i + 1;
      }
    }
    DecodedEnd(text, i);
    Finish(old(dst[..]), dst[..], count, Decoded(text[i..]), text);
    dst[count] := '\0';
  }

  /** What remains to decode, one character or escape further on. */
  lemma {:induction false} DecodedStep(text: string, i: nat)
    requires i < |text|
    ensures
      var c := text[i];
      Decoded(text[i..]) ==
        if c == '+' then " " + Decoded(text[i + 1..])
        else if c != '%' then [c] + Decoded(text[i + 1..])
        else if |text| < i + 3 then ""
        else if IsValidHexDigit(text[i + 1]) && IsValidHexDigit(text[i + 2]) then
          [Unescape(text[i + 1], text[i + 2])] + Decoded(text[i + 3..])
        else Decoded(text[i + 3..])
  {
    hide Unescape, IsValidHexDigit;
    var rest := text[i..];
    assert rest[1..] == text[i + 1..];
    if |rest| >= 3 {
      assert rest[3..] == text[i + 3..];
    }
  }

  lemma {:induction false} DecodedEnd(text: string, i: nat)
    requires i <= |text|
    ensures i == |text| ==> Decoded(text[i..]) == ""
  {
  }

  /** count characters of all are stored, rest is still to come, and nothing else has been written. */
  ghost predicate Progress(start: string, now: string, count: nat, rest: string, all: string) {
    count < |now| == |start| && now[..count] + rest == all && now[count..] == start[count..]
  }

  lemma {:induction false} Begin(start: string, text: string)
    requires start != ""
    ensures Progress(start, start, 0, Decoded(text[0..]), Decoded(text))
  {
    assert text[0..] == text;
  }

  lemma {:induction false} Advance(start: string, before: string, after: string, count: nat, c: char, rest: string,
                                   all: string)
    requires Progress(start, before, count, [c] + rest, all) && count + 1 < |before|
    requires after == before[count := c]
    ensures Progress(start, after, count + 1, rest, all)
  {
    assert after[..count + 1] == before[..count] + [c];
    assert after[count + 1..] == before[count..][1..] == start[count + 1..];
  }

  lemma {:induction false} Finish(start: string, now: string, count: nat, rest: string, text: string)
    requires Progress(start, now, count, rest, Decoded(text)) && (rest == "" || count == |now| - 1)
    ensures count == |Stored(text, |now|)| && now[..count] == Stored(text, |now|)
    ensures now[count + 1..] == start[count + 1..]
  {
    hide Decoded;
    assert now[count + 1..] == now[count..][1..];
    assert start[count + 1..] == start[count..][1..];
  }

  /**
   The round trip: any encoding of s is a terminated string, and decoding it into a buffer of any
   size stores the longest prefix of s that fits.
   */
  lemma {:induction false} FormRoundTrip(s: string, how: seq<Spelling>, size: nat)
    requires AllAllowed(s, how) && size >= 1
    ensures CString(Encoded(s, how) + "\0", |Encoded(s, how)|)
    ensures Stored(Encoded(s, how), size) == s[..Min(|s|, size - 1)]
  {
    EncodedHasNoNul(s, how);
    DecodedInverts(s, how);
  }
}
