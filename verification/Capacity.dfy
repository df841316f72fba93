/** The capacities of the connection table and of the resolver's cache: from one on they hold. */
module Capacity {
  import opened Bytes
  import opened Types
  import opened RawPacket
  import opened ConnTracking
  import opened Nfq
  import opened NfqRuns
  import PacketFormat
  import D = DnsCaching

  // ---------- The connection table ----------

  /** A packet with one byte of payload. */
  function SmallTcp(): (p: PacketFormat.TcpPacket)
    ensures PacketFormat.WellFormed(p)
  {
    PacketFormat.TcpPacket([10, 0, 0, 1], [10, 0, 0, 2], 40000, 443, 1, 1, 5, Zeros(8), [0, 0], [], 5, 0, Zeros(7), [], [22])
  }

  lemma SmallPacket(data: seq<Byte>) returns (parsed: ParsedPacket)
    requires data == PacketFormat.Print(SmallTcp())
    ensures ParseIpTcp(data) == Some(parsed) && parsed.payload == [22] && ParseIpUdp(data) == None
  {
    PacketFormat.ParserInvertsPrinter(SmallTcp());
    parsed := PacketFormat.Reported(SmallTcp());
  }

  /** With capacity zero a run of one packet leaves one entry. */
  lemma ZeroHoldsOne(blockQuic: bool) returns (tables: seq<Table>, events: seq<Event>)
    ensures IsRun(blockQuic, 0, tables, events) && |events| == 1 && |tables[1]| == 1
  {
    var data := PacketFormat.Print(SmallTcp());
    var parsed := SmallPacket(data);
    var p, key := Packet(data, None, Clock(0, 0), 0), KeyOf(parsed);
    tables, events := FirstPacket(blockQuic, p, parsed, key);
  }

  lemma FirstPacket(blockQuic: bool, p: Packet, parsed: ParsedPacket, key: ConnKey)
    returns (tables: seq<Table>, events: seq<Event>)
    requires ParseIpTcp(p.data) == Some(parsed) && parsed.payload != [] && ParseIpUdp(p.data) == None
    requires key == KeyOf(parsed) && p.selected == None
    ensures IsRun(blockQuic, 0, tables, events) && |events| == 1 && |tables[1]| == 1
  {
    var empty: Table := map[];
    var t := empty[key := Fresh(p.lookedUp)];
    assert Evicted(empty, empty) && Obtained(empty, key, 0, p.lookedUp, t);
    var after := Marked(t, key, parsed.seqNo, PassedThrough, p.marked);
    assert Decided(t, p, parsed, Accept, after);
    tables, events := [empty, after], [Arrives(p, Accept)];
    assert Step(blockQuic, 0, tables[0], events[0], tables[1]);
    assert after.Keys == {key};
  }

  /** The table stays within its capacity in every run exactly when the capacity is at least one. */
  lemma TableWithinCapacity(blockQuic: bool, max: nat)
    ensures max >= 1 <==> forall tables: seq<Table>, events, i: nat ::
              IsRun(blockQuic, max, tables, events) && i <= |events| ==> |tables[i]| <= max
  {
    if max >= 1 {
      forall tables: seq<Table>, events, i: nat | IsRun(blockQuic, max, tables, events) && i <= |events|
        ensures |tables[i]| <= max
      {
        TablesBounded(blockQuic, max, tables, events, i);
      }
    } else {
      var tables, events := ZeroHoldsOne(blockQuic);
    }
  }

  // ---------- The cache ----------

  /** With a cap of zero one question and its answer leave one entry. */
  lemma ZeroCachesOne(ttl: nat) returns (states: seq<D.State>, events: seq<D.Event>)
    ensures D.IsRun(ttl, 0, states, events) && |events| == 2 && |states[2].entries| == 1
  {
    var key, ip := D.Key([], 443), D.V4([10, 0, 0, 1]);
    var addr := D.SocketAddr(ip, 443);
    var none: D.Entries, entry := map[], D.CacheEntry(addr, 0 + ttl);
    var s0, s1, s2 := D.State(none, map[]), D.State(none, map[0 := key]), D.State(none[key := entry], map[0 := key] - {0});
    states := [s0, s1, s2];
    events := [D.Begins(0, key, 0, None), D.Finishes(0, Some([ip]), 0, Some(addr))];
    assert D.FirstV4([ip]) == Some(ip);
    assert D.Step(ttl, 0, s0, events[0], s1);
    assert D.Step(ttl, 0, s1, events[1], s2);
    assert map[0 := key] - {0} == map[];
    assert s2.entries.Keys == {key};
  }

  /** The cache stays within its cap in every run exactly when the cap is at least one. */
  lemma CacheWithinCap(ttl: nat, max: nat)
    ensures max >= 1 <==> forall states: seq<D.State>, events, i: nat ::
              D.IsRun(ttl, max, states, events) && i <= |events| ==> |states[i].entries| <= max
  {
    if max >= 1 {
      forall states: seq<D.State>, events, i: nat | D.IsRun(ttl, max, states, events) && i <= |events|
        ensures |states[i].entries| <= max
      {
        D.SizeBounded(ttl, max, states, events, i);
      }
    } else {
      var states, events := ZeroCachesOne(ttl);
    }
  }
}
