/** IPv4 packets that carry TCP, printed field by field, and what the packet parser makes of them. */
module PacketFormat {
  import opened Bytes
  import opened Types
  import opened RawPacket

  /** The fields the parser reports, and the bytes of all others as they are. */
  datatype TcpPacket = TcpPacket(
    src: seq<Byte>, dst: seq<Byte>, srcPort: nat, dstPort: nat, seqNo: nat, ackNo: nat,
    ipWords: nat, ipMiddle: seq<Byte>, ipSum: seq<Byte>, ipOptions: seq<Byte>,
    tcpWords: nat, reserved: nat, tcpRest: seq<Byte>, tcpOptions: seq<Byte>, payload: seq<Byte>)

  /** Header lengths count words of four bytes, options included. */
  predicate WellFormed(p: TcpPacket) {
    && |p.src| == 4 && |p.dst| == 4 && p.srcPort < 0x1_0000 && p.dstPort < 0x1_0000
    && p.seqNo < 0x1_0000_0000 && p.ackNo < 0x1_0000_0000
    && 5 <= p.ipWords < 16 && |p.ipMiddle| == 8 && |p.ipSum| == 2 && |p.ipOptions| == 4 * p.ipWords - 20
    && 5 <= p.tcpWords < 16 && p.reserved < 16 && |p.tcpRest| == 7 && |p.tcpOptions| == 4 * p.tcpWords - 20
  }

  function U32Bytes(n: nat): (s: seq<Byte>)
    requires n < 0x1_0000_0000
    ensures |s| == 4
  {
    U16Bytes(n / 0x1_0000) + U16Bytes(n % 0x1_0000)
  }

  /** The fixed part of the IP header, section 3.1 of RFC 791. */
  function IpHeader(p: TcpPacket): (h: seq<Byte>)
    requires WellFormed(p)
    ensures |h| == 20
  {
    [64 + p.ipWords] + p.ipMiddle + [6] + p.ipSum + p.src + p.dst
  }

  /** The fixed part of the TCP header, section 3.1 of RFC 793. */
  function TcpHeader(p: TcpPacket): (h: seq<Byte>)
    requires WellFormed(p)
    ensures |h| == 20
  {
    U16Bytes(p.srcPort) + U16Bytes(p.dstPort) + U32Bytes(p.seqNo) + U32Bytes(p.ackNo)
    + [16 * p.tcpWords + p.reserved] + p.tcpRest
  }

  function Print(p: TcpPacket): seq<Byte>
    requires WellFormed(p)
  {
    IpHeader(p) + (p.ipOptions + (TcpHeader(p) + (p.tcpOptions + p.payload)))
  }

  /**
   * A packet is taken for TCP over IPv4 exactly by these bytes: version, header length, protocol 6, and both
   * headers of at least twenty bytes, of which those twenty are there.
   */
  lemma TakenForTcp(d: seq<Byte>)
    ensures ParseIpTcp(d).Some? <==>
              && |d| >= 20 && d[0] as int / 16 == 4 && d[9] == 6
              && var ip := d[0] as int % 16 * 4; 20 <= ip && ip + 20 <= |d| && d[ip + 12] as int / 16 >= 5
  {
    if |d| >= 20 {
      NibblesByDivision(d[0]);
      var ip := d[0] as int % 16 * 4;
      if ip + 20 <= |d| {
        NibblesByDivision(d[ip + 12]);
      }
    }
  }

  lemma NibblesByDivision(b: Byte)
    ensures HighNibble(b) == b as int / 16 && LowNibble(b) == b as int % 16
  {
    NibblesOf(b);
  }

  lemma U32RoundTrip(n: nat, s: seq<Byte>, i: nat)
    requires n < 0x1_0000_0000 && i + 4 <= |s| && s[i..i + 4] == U32Bytes(n)
    ensures U32(s, i) == n
  {
    var b := U32Bytes(n);
    assert s[i..i + 4][0] == s[i] && s[i..i + 4][1] == s[i + 1] && s[i..i + 4][2] == s[i + 2] && s[i..i + 4][3] == s[i + 3];
    U16RoundTrip(n / 0x1_0000);
    U16RoundTrip(n % 0x1_0000);
    assert n == 0x1_0000 * (n / 0x1_0000) + n % 0x1_0000;
  }

  lemma IpFields(p: TcpPacket, h: seq<Byte>)
    requires WellFormed(p) && h == IpHeader(p)
    ensures h[0] == 64 + p.ipWords && h[9] == TCP && h[12..16] == p.src && h[16..20] == p.dst
  {
  }

  lemma TcpFields(p: TcpPacket, t: seq<Byte>)
    requires WellFormed(p) && t == TcpHeader(p)
    ensures t[0..2] == U16Bytes(p.srcPort) && t[2..4] == U16Bytes(p.dstPort)
    ensures t[4..8] == U32Bytes(p.seqNo) && t[8..12] == U32Bytes(p.ackNo) && t[12] == 16 * p.tcpWords + p.reserved
  {
  }

  lemma U16Read(d: seq<Byte>, i: nat, n: nat)
    requires i + 2 <= |d| && n < 0x1_0000 && d[i..i + 2] == U16Bytes(n)
    ensures Word(d, i) == n
  {
    assert d[i..i + 2][0] == d[i] && d[i..i + 2][1] == d[i + 1];
    U16RoundTrip(n);
  }

  /** The TCP fields where the packet holds the header. */
  lemma TcpFieldsAt(p: TcpPacket, d: seq<Byte>, ip: nat)
    requires WellFormed(p) && 20 <= ip && ip + 20 <= |d| && d[ip..ip + 20] == TcpHeader(p)
    ensures Word(d, ip) == p.srcPort && Word(d, ip + 2) == p.dstPort
    ensures U32(d, ip + 4) == p.seqNo && U32(d, ip + 8) == p.ackNo && d[ip + 12] == 16 * p.tcpWords + p.reserved
  {
    var t := TcpHeader(p);
    TcpFields(p, t);
    Window(d, ip, ip + 20, 0, 2);
    Window(d, ip, ip + 20, 2, 4);
    Window(d, ip, ip + 20, 4, 8);
    Window(d, ip, ip + 20, 8, 12);
    U16Read(d, ip, p.srcPort);
    U16Read(d, ip + 2, p.dstPort);
    U32RoundTrip(p.seqNo, d, ip + 4);
    U32RoundTrip(p.ackNo, d, ip + 8);
    assert d[ip..ip + 20][12] == d[ip + 12];
  }

  /** Where the parts of a packet lie. */
  lemma Layout(
      d: seq<Byte>, h: seq<Byte>, ipOptions: seq<Byte>, t: seq<Byte>, tcpOptions: seq<Byte>, payload: seq<Byte>)
    requires |h| == 20 && |t| == 20 && d == h + (ipOptions + (t + (tcpOptions + payload)))
    ensures var ip := 20 + |ipOptions|;
            && ip + 20 + |tcpOptions| <= |d| && d[..20] == h && d[ip..ip + 20] == t
            && d[ip + 20 + |tcpOptions|..] == payload
  {
    assert d[20..] == ipOptions + (t + (tcpOptions + payload));
    Taken(d, 20, ipOptions, t + (tcpOptions + payload));
    Taken(d, 20 + |ipOptions|, t, tcpOptions + payload);
    Taken(d, 40 + |ipOptions|, tcpOptions, payload);
  }

  /** A packet whose parts lie where they should is parsed to them. */
  lemma ParsedParts(p: TcpPacket, d: seq<Byte>, ip: nat, tcp: nat)
    requires WellFormed(p) && ip == 4 * p.ipWords && tcp == 4 * p.tcpWords && ip + tcp <= |d|
    requires HighNibble(d[0]) == 4 && LowNibble(d[0]) == p.ipWords && d[9] == TCP && d[12..16] == p.src && d[16..20] == p.dst
    requires Word(d, ip) == p.srcPort && Word(d, ip + 2) == p.dstPort
    requires U32(d, ip + 4) == p.seqNo && U32(d, ip + 8) == p.ackNo && HighNibble(d[ip + 12]) == p.tcpWords
    requires d[ip + tcp..] == p.payload
    ensures ParseIpTcp(d) == Some(Reported(p))
  {
  }

  /** What the parser should report. */
  function Reported(p: TcpPacket): ParsedPacket {
    ParsedPacket(Endpoint(p.src, p.srcPort), Endpoint(p.dst, p.dstPort), 4 * p.ipWords + 4 * p.tcpWords, p.payload,
                 4 * p.ipWords, 4 * p.tcpWords, p.seqNo, p.ackNo)
  }

  lemma FrontBytes(d: seq<Byte>, h: seq<Byte>)
    requires |h| == 20 <= |d| && d[..20] == h
    ensures d[0] == h[0] && d[9] == h[9] && d[12..16] == h[12..16] && d[16..20] == h[16..20]
  {
  }

  /** The parser inverts the printer, whatever the options and the fields it does not report. */
  lemma ParserInvertsPrinter(p: TcpPacket)
    requires WellFormed(p)
    ensures ParseIpTcp(Print(p)) == Some(Reported(p))
  {
    var d, ip, h := Print(p), 4 * p.ipWords, IpHeader(p);
    Layout(d, h, p.ipOptions, TcpHeader(p), p.tcpOptions, p.payload);
    IpFields(p, h);
    FrontBytes(d, h);
    TcpFieldsAt(p, d, ip);
    NibblesRead(4, p.ipWords);
    NibblesRead(p.tcpWords, p.reserved);
    ParsedParts(p, d, ip, 4 * p.tcpWords);
  }
}
