/** The checksums by the bytes they cover: the sum as a number, and the TCP pseudo-header. */
module PacketSums {
  import opened Bytes
  import opened Types
  import opened Checksum
  import opened RawPacket

  /** The bytes as one big-endian number. */
  function Value(s: seq<Byte>): nat {
    if s == [] then 0 else 256 * Value(s[..|s| - 1]) + s[|s| - 1] as int
  }

  /** The bytes in whole words: an odd last byte is followed by a zero. */
  function Padded(s: seq<Byte>): seq<Byte> {
    if |s| % 2 == 0 then s else s + [0]
  }

  lemma {:induction false} SumSnoc(p: seq<Byte>, i: nat, end: nat)
    requires i + 2 <= end <= |p| && (end - i) % 2 == 0
    ensures Sum(p, i, end) == Sum(p, i, end - 2) + Word(p, end - 2)
    decreases end - i
  {
    if i + 2 < end {
      SumSnoc(p, i + 2, end);
    }
  }

  lemma LastWord(s: seq<Byte>)
    requires |s| >= 2
    ensures Value(s) == 65536 * Value(s[..|s| - 2]) + Word(s, |s| - 2)
  {
    var t := s[..|s| - 1];
    assert t[..|t| - 1] == s[..|s| - 2];
  }

  lemma {:induction false} WordsAreValue(s: seq<Byte>) returns (k: nat)
    requires |s| % 2 == 0
    ensures Value(s) == Sum(s, 0, |s|) + 0xFFFF * k
    decreases |s|
  {
    if s == [] {
      k := 0;
    } else {
      var t := s[..|s| - 2];
      var j := WordsAreValue(t);
      LastWord(s);
      SumSnoc(s, 0, |s|);
      SumSame(t, s, 0, |t|);
      k := j + Value(t);
    }
  }

  lemma {:induction false} SumPadded(s: seq<Byte>, i: nat)
    requires i <= |s| && i % 2 == 0
    ensures Sum(Padded(s), i, |Padded(s)|) == Sum(s, i, |s|)
    decreases |s| - i
  {
    if |s| % 2 == 1 {
      if i + 1 < |s| {
        SumPadded(s, i + 2);
      }
    }
  }

  lemma FoldedResidue(n: nat)
    ensures Fold(n) % 0xFFFF == n % 0xFFFF
  {
    FoldIsResidue(n);
    if n > 0 {
      OneMore(n - 1);
    }
  }

  lemma OneMore(m: nat)
    ensures (m % 0xFFFF + 1) % 0xFFFF == (m + 1) % 0xFFFF
  {
  }

  lemma SameNumber(n: nat, v: nat, k: nat)
    requires v == n + 0xFFFF * k
    ensures Fold(n) % 0xFFFF == v % 0xFFFF
  {
    FoldedResidue(n);
    SameResidue(n, k);
  }

  /** The folded sum is the residue modulo 65535 of the number the bytes are. */
  lemma {:induction false} SumIsValue(s: seq<Byte>)
    ensures Fold(Sum(s, 0, |s|)) % 0xFFFF == Value(Padded(s)) % 0xFFFF
  {
    var k := WordsAreValue(Padded(s));
    SumPadded(s, 0);
    SameNumber(Sum(s, 0, |s|), Value(Padded(s)), k);
  }

  // ---------- The TCP pseudo-header ----------

  /** Addresses, a zero, the protocol and the length of the segment, section 3.1 of RFC 793. */
  function PseudoHeader(p: seq<Byte>, ip: nat): (h: seq<Byte>)
    requires 20 <= ip <= |p|
    ensures |h| == 12
  {
    p[12..20] + [0, 6] + U16Bytes(|p| - ip)
  }

  lemma PseudoHeaderSum(p: seq<Byte>, ip: nat)
    requires 20 <= ip <= |p| && |p| - ip < 0x1_0000
    ensures Sum(PseudoHeader(p, ip), 0, 12) == PseudoSum(p, ip)
  {
    var h, n := PseudoHeader(p, ip), |p| - ip;
    U16RoundTrip(n);
    assert h[10] == U16Bytes(n)[0] && h[11] == U16Bytes(n)[1];
    assert Sum(h, 12, 12) == 0 && Sum(h, 10, 12) == n && Sum(h, 8, 12) == 6 + n;
    assert h[6] == p[18] && h[7] == p[19] && h[4] == p[16] && h[5] == p[17];
    assert h[2] == p[14] && h[3] == p[15] && h[0] == p[12] && h[1] == p[13];
    assert Sum(h, 4, 12) == Word(p, 16) + Word(p, 18) + 6 + n;
    assert Sum(h, 2, 12) == Word(p, 14) + Sum(h, 4, 12);
  }

  lemma {:induction false} SumBehind(a: seq<Byte>, b: seq<Byte>, i: nat)
    requires i <= |a| && |a| % 2 == 0 && i % 2 == 0
    ensures Sum(a + b, i, |a + b|) == Sum(a, i, |a|) + Sum(a + b, |a|, |a + b|)
    decreases |a| - i
  {
    if i < |a| {
      SumBehind(a, b, i + 2);
    }
  }

  lemma {:induction false} SumShift(s: seq<Byte>, t: seq<Byte>, from: nat, i: nat)
    requires 0 < from <= |s| && t == s[from..] && i <= |t|
    ensures Sum(s, from + i, |s|) == Sum(t, i, |t|)
    decreases |t| - i
  {
    if i + 1 < |t| {
      SumShift(s, t, from, i + 2);
    }
  }

  lemma {:induction false} SegmentSum(p: seq<Byte>, ip: nat, h: seq<Byte>, t: seq<Byte>, segment: seq<Byte>)
    requires 20 <= ip <= |p| && |p| - ip < 0x1_0000
    requires h == PseudoHeader(p, ip) && t == p[ip..] && segment == h + t
    ensures Sum(segment, 0, |segment|) == PseudoSum(p, ip) + Sum(p, ip, |p|)
  {
    PseudoHeaderSum(p, ip);
    SumBehind(h, t, 0);
    assert segment[12..] == t;
    SumShift(segment, t, 12, 0);
    SumShift(p, t, ip, 0);
  }

  /**
   * What the receiver checks, by bytes: the words of the IP header, and those of the pseudo-header followed by
   * the segment, add up to all ones.
   */
  lemma VerifiesByBytes(p: seq<Byte>, ip: nat)
    requires 20 <= ip <= |p| && |p| - ip < 0x1_0000
    ensures var segment := PseudoHeader(p, ip) + p[ip..];
            Verifies(p, ip) <==> Fold(Sum(p[..ip], 0, ip)) == 0xFFFF && Fold(Sum(segment, 0, |segment|)) == 0xFFFF
  {
    SegmentSum(p, ip, PseudoHeader(p, ip), p[ip..], PseudoHeader(p, ip) + p[ip..]);
    SumSame(p, p[..ip], 0, ip);
  }
}
