/** What several components share: options, octets, and appending octets to a buffer. */
module Common {
  datatype Option<T> = None | Some(value: T)

  type octet = n: int | 0 <= n < 256
  type Octets = seq<octet>

  /** Writes s at pos, behind what the buffer already holds. */
  method PutOctets(buf: array<octet>, pos: nat, s: Octets) returns (end: nat)
    requires pos + |s| <= buf.Length
    modifies buf
    ensures end == pos + |s| && buf[..end] == old(buf[..pos]) + s
  {
    forall i | 0 <= i < |s| {
      buf[pos + i] := s[i];
    }
    end := pos + |s|;
  }
}
