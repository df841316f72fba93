/** Which packets are dropped, by the bytes of the packet. */
module QuicDrop {
  import opened Bytes
  import opened Types
  import opened RawPacket
  import opened ConnTracking
  import opened Quic
  import opened Nfq
  import PacketFormat

  /** An IPv4 packet with UDP to port 443. */
  predicate UdpTo443(d: seq<Byte>) {
    && |d| >= 20 && d[0] as int / 16 == 4 && d[9] == 17
    && var ip := d[0] as int % 16 * 4; 20 <= ip && ip + 8 <= |d| && d[ip + 2] == 1 && d[ip + 3] == 187
  }

  /** Behind the IP header, by the length in its low bits, and the eight bytes of the UDP header. */
  function PayloadStart(d: seq<Byte>): nat {
    if d == [] then 0 else d[0] as int % 16 * 4 + 8
  }

  /**
   * A long header at `at`: the two top bits, version 1 or 2, and two connection ids of up to twenty bytes each
   * that lie inside the packet.
   */
  predicate LongHeader(d: seq<Byte>, at: nat) {
    && at + 7 <= |d| && d[at] >= 0xC0
    && (d[at + 1..at + 5] == [0, 0, 0, 1] || d[at + 1..at + 5] == [0x6B, 0x33, 0x43, 0xCF])
    && var dcid := d[at + 5] as int;
       dcid <= 20 && at + 7 + dcid <= |d|
       && var scid := d[at + 6 + dcid] as int; scid <= 20 && at + 7 + dcid + scid <= |d|
  }

  lemma UdpByBytes(d: seq<Byte>)
    ensures ParseIpUdp(d).Some? && ParseIpUdp(d).value.dst.port == 443 <==> UdpTo443(d)
    ensures UdpTo443(d) ==> ParseIpUdp(d).value.payload == d[PayloadStart(d)..]
  {
    if |d| >= 20 {
      PacketFormat.NibblesByDivision(d[0]);
    }
  }

  lemma HeaderByBytes(d: seq<Byte>, at: nat, q: seq<Byte>)
    requires 0 < at <= |d| && q == d[at..]
    ensures ParseQuicInitial(q).Some? <==> LongHeader(d, at)
  {
    if at + 7 <= |d| {
      Slice(d, at, 1, 5);
      assert q[0] == d[at] && q[5] == d[at + 5];
      assert at + 7 + q[5] <= |d| ==> q[6 + q[5]] == d[at + 6 + q[5]];
    }
  }

  lemma OnlyQuicIsDropped(blockQuic: bool, max: nat, before: Table, p: Packet, verdict: Verdict, after: Table)
    requires Processed(blockQuic, max, before, p, verdict, after)
    ensures verdict == Drop <==> QuicDropped(blockQuic, p)
  {
  }

  lemma QuicByBytes(blockQuic: bool, p: Packet)
    ensures QuicDropped(blockQuic, p) <==> blockQuic && UdpTo443(p.data) && LongHeader(p.data, PayloadStart(p.data))
  {
    UdpByBytes(p.data);
    if UdpTo443(p.data) {
      HeaderByBytes(p.data, PayloadStart(p.data), p.data[PayloadStart(p.data)..]);
    }
  }

  /** A packet is dropped if and only if that is asked for and it is UDP to port 443 with a QUIC long header. */
  lemma DroppedExactly(blockQuic: bool, max: nat, before: Table, p: Packet, verdict: Verdict, after: Table)
    requires Processed(blockQuic, max, before, p, verdict, after)
    ensures verdict == Drop <==> blockQuic && UdpTo443(p.data) && LongHeader(p.data, PayloadStart(p.data))
  {
    OnlyQuicIsDropped(blockQuic, max, before, p, verdict, after);
    QuicByBytes(blockQuic, p);
  }

  // ---------- UDP packets ----------

  /** A UDP packet with any IP options, section 3.1 of RFC 791 and RFC 768. */
  function PrintUdp(
      front: seq<Byte>, src: seq<Byte>, dst: seq<Byte>, options: seq<Byte>, ports: seq<Byte>, rest: seq<Byte>,
      payload: seq<Byte>): seq<Byte>
  {
    front + (src + (dst + (options + (ports + (rest + payload)))))
  }

  lemma UdpPrinted(
      front: seq<Byte>, src: seq<Byte>, dst: seq<Byte>, options: seq<Byte>, srcPort: nat, dstPort: nat, rest: seq<Byte>,
      payload: seq<Byte>)
    requires |front| == 12 && |src| == 4 && |dst| == 4 && |rest| == 4 && srcPort < 0x1_0000 && dstPort < 0x1_0000
    requires |options| % 4 == 0 && |options| <= 40 && front[0] == 69 + |options| / 4 && front[9] == 17
    ensures ParseIpUdp(PrintUdp(front, src, dst, options, U16Bytes(srcPort) + U16Bytes(dstPort), rest, payload))
            == Some(UdpPacket(Endpoint(src, srcPort), Endpoint(dst, dstPort), payload))
  {
    var ports := U16Bytes(srcPort) + U16Bytes(dstPort);
    var d := PrintUdp(front, src, dst, options, ports, rest, payload);
    var ip := 20 + |options|;
    UdpLayout(d, front, src, dst, options, ports, rest, payload);
    NibblesRead(4, 5 + |options| / 4);
    U16RoundTrip(srcPort);
    U16RoundTrip(dstPort);
    assert d[ip..ip + 4][0] == d[ip] && d[ip..ip + 4][1] == d[ip + 1];
    assert d[ip..ip + 4][2] == d[ip + 2] && d[ip..ip + 4][3] == d[ip + 3];
    UdpParts(d, ip, src, dst, srcPort, dstPort, payload);
  }

  lemma UdpLayout(
      d: seq<Byte>, front: seq<Byte>, src: seq<Byte>, dst: seq<Byte>, options: seq<Byte>, ports: seq<Byte>,
      rest: seq<Byte>, payload: seq<Byte>)
    requires |front| == 12 && |src| == 4 && |dst| == 4 && |ports| == 4 && |rest| == 4
    requires d == PrintUdp(front, src, dst, options, ports, rest, payload)
    ensures var ip := 20 + |options|;
            && ip + 8 <= |d| && d[0] == front[0] && d[9] == front[9] && d[12..16] == src && d[16..20] == dst
            && d[ip..ip + 4] == ports && d[ip + 8..] == payload
  {
    assert d[12..] == src + (dst + (options + (ports + (rest + payload))));
    Taken(d, 12, src, dst + (options + (ports + (rest + payload))));
    Taken(d, 16, dst, options + (ports + (rest + payload)));
    Taken(d, 20, options, ports + (rest + payload));
    Taken(d, 20 + |options|, ports, rest + payload);
    Taken(d, 24 + |options|, rest, payload);
  }

  lemma UdpParts(d: seq<Byte>, ip: nat, src: seq<Byte>, dst: seq<Byte>, srcPort: nat, dstPort: nat, payload: seq<Byte>)
    requires 20 <= ip && ip + 8 <= |d| && HighNibble(d[0]) == 4 && 4 * LowNibble(d[0]) == ip && d[9] == 17
    requires d[12..16] == src && d[16..20] == dst && Word(d, ip) == srcPort && Word(d, ip + 2) == dstPort
    requires d[ip + 8..] == payload
    ensures ParseIpUdp(d) == Some(UdpPacket(Endpoint(src, srcPort), Endpoint(dst, dstPort), payload))
  {
  }
}
