/** Parsing and rebuilding raw IPv4 + TCP packets. */
module RawPacket {
  import opened Bytes
  import opened Types
  import opened Checksum

  /** An IPv4 address and a port. */
  datatype Endpoint = Endpoint(ip: seq<Byte>, port: nat)

  datatype ParsedPacket = ParsedPacket(
    src: Endpoint, dst: Endpoint,
    payloadOffset: nat, payload: seq<Byte>,
    ipHeaderLen: nat, tcpHeaderLen: nat,
    seqNo: nat, ackNo: nat)

  function U32(s: seq<Byte>, i: nat): nat
    requires i + 4 <= |s|
  {
    0x1_0000 * Word(s, i) + Word(s, i + 2)
  }

  const TCP: Byte := 6

  function ParseIpTcp(d: seq<Byte>): (r: Option<ParsedPacket>)
    ensures r.Some? ==>
              var p := r.value;
              && 20 <= p.ipHeaderLen && p.ipHeaderLen + 20 <= |d| && p.ipHeaderLen == 4 * LowNibble(d[0])
              && 20 <= p.tcpHeaderLen && p.payloadOffset == p.ipHeaderLen + p.tcpHeaderLen
  {
    if |d| < 20 || HighNibble(d[0]) != 4 then None
    else
      var ip := 4 * LowNibble(d[0]);
      if ip < 20 || |d| < ip || d[9] != TCP || |d| < ip + 20 then None
      else
        var tcp := 4 * HighNibble(d[ip + 12]);
        if tcp < 20 then None
        else Some(ParsedPacket(
          Endpoint(d[12..16], Word(d, ip)),
          Endpoint(d[16..20], Word(d, ip + 2)),
          ip + tcp, if ip + tcp < |d| then d[ip + tcp..] else [],
          ip, tcp, U32(d, ip + 4), U32(d, ip + 8)))
  }

  /** The sum of the TCP pseudo-header. */
  function PseudoSum(p: seq<Byte>, ip: nat): nat
    requires 20 <= |p| && ip <= |p|
  {
    Word(p, 12) + Word(p, 14) + Word(p, 16) + Word(p, 18) + TCP + (|p| - ip)
  }

  /** `compute_checksum(&p[..ip])` */
  function IpChecksum(p: seq<Byte>, ip: nat): nat
    requires ip <= |p|
  {
    Complement(Sum(p, 0, ip))
  }

  /** `compute_tcp_checksum(&p, ip)` */
  function TcpChecksum(p: seq<Byte>, ip: nat): nat {
    if |p| < 20 || |p| < ip + 20 then 0
    else Complement(PseudoSum(p, ip) + Sum(p, ip, |p|))
  }

  function PutWord(s: seq<Byte>, at: nat, v: nat): (r: seq<Byte>)
    requires at + 1 < |s|
    ensures |r| == |s|
  {
    Write(s, at, High(v), Low(v))
  }

  /** The new total length, the IP checksum still zero. */
  function Relabelled(p: seq<Byte>): (r: seq<Byte>)
    requires |p| >= 20
    ensures |r| == |p|
  {
    Write(PutWord(p, 2, |p|), 10, 0, 0)
  }

  /** The IP checksum filled in, the TCP checksum still zero. */
  function IpClosed(p: seq<Byte>, ip: nat): (r: seq<Byte>)
    requires 20 <= ip && ip + 20 <= |p|
    ensures |r| == |p|
  {
    Write(PutWord(p, 10, IpChecksum(p, ip)), ip + 16, 0, 0)
  }

  function TcpClosed(p: seq<Byte>, ip: nat): (r: seq<Byte>)
    requires 20 <= ip && ip + 20 <= |p|
    ensures |r| == |p|
  {
    PutWord(p, ip + 16, TcpChecksum(p, ip))
  }

  function Rebuilt(original: seq<Byte>, parsed: ParsedPacket, payload: seq<Byte>): Option<seq<Byte>>
    requires 20 <= parsed.ipHeaderLen && parsed.ipHeaderLen + 20 <= parsed.payloadOffset
  {
    if |original| < parsed.payloadOffset then None
    else
      var packet := Relabelled(original[..parsed.payloadOffset] + payload);
      Some(TcpClosed(IpClosed(packet, parsed.ipHeaderLen), parsed.ipHeaderLen))
  }

  // ---------- The algorithm, in place ----------

  method RebuildPacket(original: seq<Byte>, parsed: ParsedPacket, newPayload: seq<Byte>) returns (r: Option<seq<Byte>>)
    requires 20 <= parsed.ipHeaderLen && parsed.ipHeaderLen + 20 <= parsed.payloadOffset
    ensures r == Rebuilt(original, parsed, newPayload)
  {
    var headerLen := parsed.payloadOffset;
    if |original| < headerLen {
      return None;
    }
    var start := original[..headerLen] + newPayload;
    var packet := new Byte[|start|](i requires 0 <= i < |start| => start[i]);
    assert packet[..] == start;
    var ip := parsed.ipHeaderLen;
    Put(packet, 2, High(packet.Length), Low(packet.Length));
    Put(packet, 10, 0, 0);
    var ipChecksum := ComputeChecksum(packet[..], ip);
    Put(packet, 10, High(ipChecksum), Low(ipChecksum));
    Put(packet, ip + 16, 0, 0);
    var tcpChecksum := ComputeTcpChecksum(packet[..], ip);
    Put(packet, ip + 16, High(tcpChecksum), Low(tcpChecksum));
    return Some(packet[..]);
  }

  /** Write a word into the packet. */
  method Put(packet: array<Byte>, at: nat, hi: Byte, lo: Byte)
    requires at + 1 < packet.Length
    modifies packet
    ensures packet[..] == Write(old(packet[..]), at, hi, lo)
  {
    packet[at] := hi;
    packet[at + 1] := lo;
  }

  method ComputeChecksum(p: seq<Byte>, end: nat) returns (c: nat)
    requires end <= |p|
    ensures c == IpChecksum(p, end)
  {
    var sum := AddWords(p, 0, end, 0);
    sum := FoldCarries(sum);
    return 0xFFFF - sum;
  }

  method ComputeTcpChecksum(p: seq<Byte>, ip: nat) returns (c: nat)
    ensures c == TcpChecksum(p, ip)
  {
    if |p| < 20 || |p| < ip + 20 {
      return 0;
    }
    var sum := 0;
    sum := sum + Word(p, 12);
    sum := sum + Word(p, 14);
    sum := sum + Word(p, 16);
    sum := sum + Word(p, 18);
    sum := sum + TCP;
    sum := sum + (|p| - ip);
    sum := AddWords(p, ip, |p|, sum);
    sum := FoldCarries(sum);
    return 0xFFFF - sum;
  }

  // ---------- The receiver's view ----------

  /** Both checksums verify at the receiver. */
  predicate Verifies(p: seq<Byte>, ip: nat)
    requires 20 <= ip <= |p|
  {
    Fold(Sum(p, 0, ip)) == 0xFFFF && Fold(PseudoSum(p, ip) + Sum(p, ip, |p|)) == 0xFFFF
  }

  lemma IpClosedVerifies(p: seq<Byte>, ip: nat)
    requires 20 <= ip && ip + 20 <= |p| && p[10] == 0 && p[11] == 0
    ensures Fold(Sum(IpClosed(p, ip), 0, ip)) == 0xFFFF
  {
    var c := IpChecksum(p, ip);
    var q := PutWord(p, 10, c);
    SumWrite(p, q, 0, ip, 10, High(c), Low(c));
    SumSame(q, IpClosed(p, ip), 0, ip);
    HighLow(c);
    ComplementCloses(Sum(p, 0, ip));
  }

  /** Writing the checksum word `(hi, lo)` over the zeroed one leaves everything else summed the same. */
  lemma TcpWordAdds(p: seq<Byte>, q: seq<Byte>, ip: nat, hi: Byte, lo: Byte)
    requires 20 <= ip && ip + 20 <= |p| && p[ip + 16] == 0 && p[ip + 17] == 0
    requires q == Write(p, ip + 16, hi, lo)
    ensures PseudoSum(q, ip) == PseudoSum(p, ip) && Sum(q, 0, ip) == Sum(p, 0, ip)
    ensures Sum(q, ip, |q|) == Sum(p, ip, |p|) + U16(hi, lo)
  {
    SumWrite(p, q, ip, |p|, ip + 16, hi, lo);
    SumSame(p, q, 0, ip);
  }

  lemma TcpClosedVerifies(p: seq<Byte>, ip: nat)
    requires 20 <= ip && ip + 20 <= |p| && p[ip + 16] == 0 && p[ip + 17] == 0
    ensures var q := TcpClosed(p, ip);
            && Fold(PseudoSum(q, ip) + Sum(q, ip, |q|)) == 0xFFFF
            && Sum(q, 0, ip) == Sum(p, 0, ip)
  {
    var c := TcpChecksum(p, ip);
    TcpWordAdds(p, TcpClosed(p, ip), ip, High(c), Low(c));
    HighLow(c);
    ComplementCloses(PseudoSum(p, ip) + Sum(p, ip, |p|));
  }

  /** Nothing but total length and checksums is written; the length is right whenever it fits its field. */
  lemma Untouched(s: seq<Byte>, ip: nat)
    requires 20 <= ip && ip + 20 <= |s|
    ensures var q := TcpClosed(IpClosed(Relabelled(s), ip), ip);
            && |q| == |s|
            && (forall i :: 0 <= i < |s| && i !in {2, 3, 10, 11, ip + 16, ip + 17} ==> q[i] == s[i])
            && (Word(q, 2) == |s| <==> |s| <= 0xFFFF)
  {
    HighLow(|s|);
  }

  lemma RebuiltCloses(s: seq<Byte>, ip: nat)
    requires 20 <= ip && ip + 20 <= |s|
    ensures Verifies(TcpClosed(IpClosed(Relabelled(s), ip), ip), ip)
  {
    IpClosedVerifies(Relabelled(s), ip);
    TcpClosedVerifies(IpClosed(Relabelled(s), ip), ip);
  }

  /**
   * The first `n` bytes, the headers with all their options, are the original's, but for total length, header
   * checksum and TCP checksum.
   */
  predicate HeadersKept(original: seq<Byte>, q: seq<Byte>, ip: nat, n: nat) {
    n <= |original| && n <= |q|
    && forall i :: 0 <= i < n && i !in {2, 3, 10, 11, ip + 16, ip + 17} ==> q[i] == original[i]
  }

  /**
   * A rebuilt packet verifies at the receiver and parses to the same connection, sequence and
   * acknowledgement numbers and header lengths, with exactly the new payload; no other header byte changes,
   * and its total length is right exactly up to 65535 bytes. Rebuilding fails exactly when the TCP header claims more than
   * the packet has.
   */
  lemma RebuiltVerifies(original: seq<Byte>, payload: seq<Byte>, parsed: ParsedPacket)
    requires ParseIpTcp(original) == Some(parsed)
    ensures Rebuilt(original, parsed, payload).None? <==> parsed.payloadOffset > |original|
    ensures parsed.payloadOffset <= |original| ==>
              var q := Rebuilt(original, parsed, payload).value;
              && |q| == parsed.payloadOffset + |payload| && Verifies(q, parsed.ipHeaderLen)
              && ParseIpTcp(q) == Some(parsed.(payload := payload))
              && HeadersKept(original, q, parsed.ipHeaderLen, parsed.payloadOffset) && q[parsed.payloadOffset..] == payload
              && (Word(q, 2) == |q| <==> |q| <= 0xFFFF)
  {
    if parsed.payloadOffset <= |original| {
      var s, ip := original[..parsed.payloadOffset] + payload, parsed.ipHeaderLen;
      var q := Rebuilt(original, parsed, payload).value;
      Untouched(s, ip);
      RebuiltCloses(s, ip);
      assert forall i :: parsed.payloadOffset <= i < |q| ==> q[i] == s[i];
      assert q[parsed.payloadOffset..] == payload;
      SameHeaders(original, q, payload, parsed);
    }
  }

  /** Packets that agree outside the length and checksum fields parse alike. */
  lemma SameHeaders(d: seq<Byte>, q: seq<Byte>, payload: seq<Byte>, parsed: ParsedPacket)
    requires ParseIpTcp(d) == Some(parsed) && parsed.payloadOffset <= |d|
    requires parsed.payloadOffset <= |q| && q[parsed.payloadOffset..] == payload
    requires HeadersKept(d, q, parsed.ipHeaderLen, parsed.payloadOffset)
    ensures ParseIpTcp(q) == Some(parsed.(payload := payload))
  {
    var ip := parsed.ipHeaderLen;
    SameAddresses(d, q, ip, parsed.payloadOffset);
    SameFields(d, q, payload, parsed);
  }

  /** The fields of the packet are those of the parsed form. */
  predicate HasFields(d: seq<Byte>, parsed: ParsedPacket) {
    var ip := parsed.ipHeaderLen;
    && 20 <= ip && ip + 20 <= |d| && 20 <= parsed.tcpHeaderLen && parsed.payloadOffset == ip + parsed.tcpHeaderLen
    && HighNibble(d[0]) == 4 && 4 * LowNibble(d[0]) == ip && d[9] == TCP && 4 * HighNibble(d[ip + 12]) == parsed.tcpHeaderLen
    && parsed.src == Endpoint(d[12..16], Word(d, ip)) && parsed.dst == Endpoint(d[16..20], Word(d, ip + 2))
    && U32(d, ip + 4) == parsed.seqNo && U32(d, ip + 8) == parsed.ackNo
  }

  lemma ParsedHasFields(d: seq<Byte>, parsed: ParsedPacket)
    requires ParseIpTcp(d) == Some(parsed)
    ensures HasFields(d, parsed)
  {
  }

  lemma FieldsParse(q: seq<Byte>, payload: seq<Byte>, parsed: ParsedPacket)
    requires HasFields(q, parsed) && parsed.payloadOffset <= |q| && q[parsed.payloadOffset..] == payload
    ensures ParseIpTcp(q) == Some(parsed.(payload := payload))
  {
  }

  /** The parser looks at nothing but these fields. */
  lemma SameFields(d: seq<Byte>, q: seq<Byte>, payload: seq<Byte>, parsed: ParsedPacket)
    requires ParseIpTcp(d) == Some(parsed) && parsed.payloadOffset <= |d|
    requires parsed.payloadOffset <= |q| && q[parsed.payloadOffset..] == payload
    requires var ip := parsed.ipHeaderLen;
             && q[0] == d[0] && q[9] == d[9] && q[12..16] == d[12..16] && q[16..20] == d[16..20]
             && Word(q, ip) == Word(d, ip)
             && Word(q, ip + 2) == Word(d, ip + 2)
             && U32(q, ip + 4) == U32(d, ip + 4) && U32(q, ip + 8) == U32(d, ip + 8)
             && q[ip + 12] == d[ip + 12]
    ensures ParseIpTcp(q) == Some(parsed.(payload := payload))
  {
    ParsedHasFields(d, parsed);
    FieldsParse(q, payload, parsed);
  }

  lemma SameAddresses(d: seq<Byte>, q: seq<Byte>, ip: nat, n: nat)
    requires 20 <= ip && ip + 20 <= n && HeadersKept(d, q, ip, n)
    ensures q[12..16] == d[12..16] && q[16..20] == d[16..20]
    ensures q[ip] == d[ip] && q[ip + 1] == d[ip + 1] && q[ip + 2] == d[ip + 2] && q[ip + 3] == d[ip + 3]
    ensures U32(q, ip + 4) == U32(d, ip + 4) && U32(q, ip + 8) == U32(d, ip + 8)
  {
  }
}
