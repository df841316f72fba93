/** The packet-queue machine: one verdict per intercepted packet. */
module Nfq {
  import opened Bytes
  import opened Types
  import opened RawPacket
  import opened ConnTracking
  import opened Quic
  import opened TlsParser
  import Detection
  import HttpParser
  import Selection

  datatype Verdict = Accept | Drop | Modify(data: seq<Byte>)

  /**
   * An intercepted packet with the action selected for its TCP payload, none on an error, and the
   * readings of the clock when the connection is looked up and when it is marked.
   */
  datatype Packet = Packet(data: seq<Byte>, selected: Option<DesyncAction>, lookedUp: Clock, marked: int)

  const UDP: Byte := 17

  datatype UdpPacket = UdpPacket(src: Endpoint, dst: Endpoint, payload: seq<Byte>)

  function ParseIpUdp(d: seq<Byte>): Option<UdpPacket> {
    if |d| < 20 || HighNibble(d[0]) != 4 then None
    else
      var ip := 4 * LowNibble(d[0]);
      if ip < 20 || |d| < ip || d[9] != UDP || |d| < ip + 8 then None
      else Some(UdpPacket(
        Endpoint(d[12..16], Word(d, ip)), Endpoint(d[16..20], Word(d, ip + 2)),
        if ip + 8 < |d| then d[ip + 8..] else []))
  }

  /** A QUIC long header for port 443, whatever its packet type. */
  predicate QuicDropped(blockQuic: bool, p: Packet) {
    && blockQuic && ParseIpUdp(p.data).Some? && ParseIpUdp(p.data).value.dst.port == 443
    && ParseQuicInitial(ParseIpUdp(p.data).value.payload).Some?
  }

  function KeyOf(parsed: ParsedPacket): ConnKey {
    ConnKey(parsed.src, parsed.dst)
  }

  function Recorded(action: DesyncAction): AppliedAction {
    if action.Replace? then Replaced else PassedThrough
  }

  /** The machine's transition relation. */
  ghost predicate Processed(blockQuic: bool, max: nat, before: Table, p: Packet, verdict: Verdict, after: Table) {
    if QuicDropped(blockQuic, p) then verdict == Drop && after == before
    else match ParseIpTcp(p.data)
      case None => verdict == Accept && after == before
      case Some(parsed) =>
        var key := KeyOf(parsed);
        if parsed.payload == [] || Retransmit(before, key, parsed.seqNo) then verdict == Accept && after == before
        else exists t :: Obtained(before, key, max, p.lookedUp, t) && key in t && Decided(t, p, parsed, verdict, after)
  }

  /** After the lookup: leave a handled connection alone, otherwise act and mark it. */
  ghost predicate Decided(t: Table, p: Packet, parsed: ParsedPacket, verdict: Verdict, after: Table)
    requires ParseIpTcp(p.data) == Some(parsed) && KeyOf(parsed) in t
  {
    if t[KeyOf(parsed)].desyncApplied then verdict == Accept && after == t
    else
      var action := if p.selected.Some? then p.selected.value else PassThrough;
      && after == Marked(t, KeyOf(parsed), parsed.seqNo, Recorded(action), p.marked)
      && verdict == if action.Replace? then Rewritten(p.data, parsed, action.data) else Accept
  }

  function Rewritten(data: seq<Byte>, parsed: ParsedPacket, payload: seq<Byte>): Verdict
    requires ParseIpTcp(data) == Some(parsed)
  {
    match Rebuilt(data, parsed, payload)
    case Some(packet) => Modify(packet)
    case None => Accept
  }

  /** A packet as it comes from the queue, with the readings of the clock while it is processed. */
  datatype Arrival = Arrival(data: seq<Byte>, lookedUp: Clock, marked: int)

  /** What the selector chooses for a packet; an error counts as nothing chosen. */
  function SelectedFor(data: seq<Byte>, selector: Selection.Selector, run: Selection.Runner): Option<DesyncAction>
    reads selector
  {
    match ParseIpTcp(data)
    case None => None
    case Some(parsed) =>
      var protocol := Detection.DetectProtocol(parsed.payload);
      match Selection.ActionFor(
        Selection.Selected(selector.strategies, selector.rules, selector.defaultStrategy, Selection.DomainOf(protocol)),
        selector.fallback, selector.learned, protocol, run)
      case Applied(action) => Some(action)
      case _ => None
  }

  /** The packet with its selection. */
  function Looked(a: Arrival, selector: Selection.Selector, run: Selection.Runner): Packet
    reads selector
  {
    Packet(a.data, SelectedFor(a.data, selector, run), a.lookedUp, a.marked)
  }

  method ProcessPacket(
      a: Arrival, selector: Selection.Selector, run: Selection.Runner, tracker: ConnTracker, blockQuic: bool)
    returns (verdict: Verdict)
    modifies tracker
    ensures Processed(blockQuic, tracker.maxConnections, old(tracker.connections), old(Looked(a, selector, run)),
                      verdict, tracker.connections)
  {
    ghost var p := Looked(a, selector, run);
    if blockQuic {
      var udp := ParseIpUdp(a.data);
      if udp.Some? && udp.value.dst.port == 443 && ParseQuicInitial(udp.value.payload).Some? {
        return Drop;
      }
    }
    var packet := ParseIpTcp(a.data);
    if packet.None? {
      return Accept;
    }
    var parsed := packet.value;
    if parsed.payload == [] {
      return Accept;
    }
    var key, seqNo := KeyOf(parsed), parsed.seqNo;
    if tracker.IsRetransmit(key, seqNo) {
      return Accept;
    }
    var outcome := selector.Apply(Detection.DetectProtocol(parsed.payload), run);
    var selected := if outcome.Applied? then Some(outcome.action) else None;
    var state := tracker.GetOrCreate(key, a.lookedUp);
    ghost var t := tracker.connections;
    verdict := Act(Packet(a.data, selected, a.lookedUp, a.marked), parsed, state, tracker);
    assert Decided(t, p, parsed, verdict, tracker.connections);
  }

  method Act(p: Packet, parsed: ParsedPacket, state: ConnState, tracker: ConnTracker) returns (verdict: Verdict)
    requires ParseIpTcp(p.data) == Some(parsed)
    requires KeyOf(parsed) in tracker.connections && state == tracker.connections[KeyOf(parsed)]
    modifies tracker
    ensures Decided(old(tracker.connections), p, parsed, verdict, tracker.connections)
  {
    var key, seqNo := KeyOf(parsed), parsed.seqNo;
    if state.desyncApplied {
      return Accept;
    }
    var action := if p.selected.Some? then p.selected.value else PassThrough;
    match action {
      case PassThrough =>
        tracker.MarkApplied(key, seqNo, PassedThrough, p.marked);
        return Accept;
      case Replace(payload) =>
        tracker.MarkApplied(key, seqNo, Replaced, p.marked);
        var rebuilt := RebuildPacket(p.data, parsed, payload);
        return match rebuilt
          case Some(packet) => Modify(packet)
          case None => Accept;
      case Split(_) =>
        tracker.MarkApplied(key, seqNo, PassedThrough, p.marked);
        return Accept;
      case InjectBefore(_) =>
        tracker.MarkApplied(key, seqNo, PassedThrough, p.marked);
        return Accept;
    }
  }

  // ---------- What is selected ----------

  /**
   * The action for a packet whose payload has a domain is the answer of the first eligible technique in the
   * strategy of the winning rule, an error counting as none; learned domains aside, which only matter when that
   * answer lets the payload pass.
   */
  lemma SelectedByRule(
      data: seq<Byte>, parsed: ParsedPacket, selector: Selection.Selector, run: Selection.Runner, protocol: AppProtocol,
      config: seq<Selection.Rule>, domain: seq<Byte>, i: nat, strategy: Selection.Strategy, k: nat)
    requires ParseIpTcp(data) == Some(parsed)
    requires Parse(parsed.payload) == Complete(protocol) || HttpParser.ParseHttp(parsed.payload) == Some(protocol)
    requires Selection.DomainOf(protocol) == Some(domain)
    requires Selection.StablySorted(config, selector.rules) && Selection.Wins(config, domain, i)
    requires config[i].strategy in selector.strategies && selector.strategies[config[i].strategy] == strategy
    requires k < |strategy.techniques| && Selection.Answers(strategy.techniques[k], protocol, run)
    requires forall j :: 0 <= j < k ==> !Selection.Answers(strategy.techniques[j], protocol, run)
    requires run(strategy.techniques[k]) != Selection.Applied(PassThrough)
    ensures SelectedFor(data, selector, run) ==
            match run(strategy.techniques[k])
            case Applied(action) => Some(action)
            case _ => None
  {
    Detection.DetectedExactly(parsed.payload);
    Selection.FirstMatchWins(config, selector.rules, domain, i);
    Selection.FirstAnswerDecides(strategy.techniques, protocol, run, k);
  }

  // ---------- What every step keeps ----------

  /** Between packets every tracked connection has been handled, and its first sequence number recorded. */
  predicate Settled(t: Table) {
    forall k :: k in t ==> t[k].desyncApplied && t[k].firstDataSeq.Some? && t[k].appliedAction != Nothing
  }

  /** A packet with a payload, from a connection the table does not hold. */
  predicate Opens(blockQuic: bool, t: Table, p: Packet) {
    && !QuicDropped(blockQuic, p) && ParseIpTcp(p.data).Some?
    && ParseIpTcp(p.data).value.payload != [] && KeyOf(ParseIpTcp(p.data).value) !in t
  }

  /**
   * In a settled table the whole decision is: a packet of a new connection is looked at, every
   * other one passes. A selected replacement is always carried out, and the rewritten packet
   * verifies at the receiver and is the original, header bytes included, with exactly the new payload.
   */
  lemma VerdictMeaning(
      blockQuic: bool, max: nat, before: Table, p: Packet, verdict: Verdict, after: Table)
    requires Settled(before) && Processed(blockQuic, max, before, p, verdict, after)
    ensures verdict == Drop <==> QuicDropped(blockQuic, p)
    ensures verdict.Modify? <==>
              Opens(blockQuic, before, p) && p.selected.Some? && p.selected.value.Replace?
    ensures verdict.Modify? ==>
              var parsed := ParseIpTcp(p.data).value;
              && ParseIpTcp(verdict.data) == Some(parsed.(payload := p.selected.value.data))
              && Verifies(verdict.data, parsed.ipHeaderLen)
              && HeadersKept(p.data, verdict.data, parsed.ipHeaderLen, parsed.payloadOffset)
    ensures !Opens(blockQuic, before, p) ==> after == before
  {
    if Opens(blockQuic, before, p) {
      OpeningVerdict(max, before, p, ParseIpTcp(p.data).value, verdict, after);
    }
  }

  /** The verdict on a packet that opens a connection. */
  lemma OpeningVerdict(
      max: nat, before: Table, p: Packet, parsed: ParsedPacket, verdict: Verdict, after: Table)
    requires ParseIpTcp(p.data) == Some(parsed) && parsed.payload != [] && KeyOf(parsed) !in before
    requires exists t :: Obtained(before, KeyOf(parsed), max, p.lookedUp, t) && KeyOf(parsed) in t
                         && Decided(t, p, parsed, verdict, after)
    ensures verdict != Drop && (verdict.Modify? <==> p.selected.Some? && p.selected.value.Replace?)
    ensures verdict.Modify? ==>
              && ParseIpTcp(verdict.data) == Some(parsed.(payload := p.selected.value.data))
              && Verifies(verdict.data, parsed.ipHeaderLen)
              && HeadersKept(p.data, verdict.data, parsed.ipHeaderLen, parsed.payloadOffset)
  {
    var t :| Obtained(before, KeyOf(parsed), max, p.lookedUp, t) && KeyOf(parsed) in t
             && Decided(t, p, parsed, verdict, after);
    NewEntry(before, KeyOf(parsed), max, p.lookedUp, t);
    if p.selected.Some? && p.selected.value.Replace? {
      RewriteMeaning(p.data, parsed, p.selected.value.data);
    }
  }

  lemma RewriteMeaning(data: seq<Byte>, parsed: ParsedPacket, payload: seq<Byte>)
    requires ParseIpTcp(data) == Some(parsed) && parsed.payload != []
    ensures Rewritten(data, parsed, payload).Modify?
    ensures ParseIpTcp(Rewritten(data, parsed, payload).data) == Some(parsed.(payload := payload))
    ensures 20 <= parsed.ipHeaderLen <= |Rewritten(data, parsed, payload).data|
            && Verifies(Rewritten(data, parsed, payload).data, parsed.ipHeaderLen)
    ensures HeadersKept(data, Rewritten(data, parsed, payload).data, parsed.ipHeaderLen, parsed.payloadOffset)
  {
    RebuiltVerifies(data, payload, parsed);
  }

  /** A step keeps the table settled and within its capacity. */
  lemma StepKeeps(
      blockQuic: bool, max: nat, before: Table, p: Packet, verdict: Verdict, after: Table)
    requires Settled(before) && |before| <= (if max == 0 then 1 else max)
    requires Processed(blockQuic, max, before, p, verdict, after)
    ensures Settled(after) && |after| <= if max == 0 then 1 else max
  {
    if Opens(blockQuic, before, p) {
      OpeningKeeps(max, before, p, ParseIpTcp(p.data).value, verdict, after);
    } else {
      VerdictMeaning(blockQuic, max, before, p, verdict, after);
    }
  }

  lemma OpeningKeeps(
      max: nat, before: Table, p: Packet, parsed: ParsedPacket, verdict: Verdict, after: Table)
    requires Settled(before) && |before| <= (if max == 0 then 1 else max)
    requires ParseIpTcp(p.data) == Some(parsed) && KeyOf(parsed) !in before
    requires exists t :: Obtained(before, KeyOf(parsed), max, p.lookedUp, t) && KeyOf(parsed) in t
                         && Decided(t, p, parsed, verdict, after)
    ensures Settled(after) && |after| <= if max == 0 then 1 else max
  {
    var t := OpeningTable(max, before, p, parsed, verdict, after);
    OpenedKeeps(before, KeyOf(parsed), max, p.lookedUp, t, after);
  }

  /** The table after the opening is the one obtained, with the new entry marked. */
  lemma OpeningTable(
      max: nat, before: Table, p: Packet, parsed: ParsedPacket, verdict: Verdict, after: Table) returns (t: Table)
    requires ParseIpTcp(p.data) == Some(parsed) && KeyOf(parsed) !in before
    requires exists t :: Obtained(before, KeyOf(parsed), max, p.lookedUp, t) && KeyOf(parsed) in t
                         && Decided(t, p, parsed, verdict, after)
    ensures Obtained(before, KeyOf(parsed), max, p.lookedUp, t) && KeyOf(parsed) in t && after.Keys == t.Keys
    ensures var entry := after[KeyOf(parsed)];
            entry.desyncApplied && entry.firstDataSeq.Some? && entry.appliedAction != Nothing
    ensures forall k :: k in t && k != KeyOf(parsed) ==> after[k] == t[k]
  {
    t :| Obtained(before, KeyOf(parsed), max, p.lookedUp, t) && KeyOf(parsed) in t && Decided(t, p, parsed, verdict, after);
    NewEntry(before, KeyOf(parsed), max, p.lookedUp, t);
  }

  /** Obtaining a new entry and marking it. */
  lemma OpenedKeeps(before: Table, key: ConnKey, max: nat, now: Clock, t: Table, after: Table)
    requires Settled(before) && |before| <= (if max == 0 then 1 else max)
    requires Obtained(before, key, max, now, t) && key in t && after.Keys == t.Keys
    requires after[key].desyncApplied && after[key].firstDataSeq.Some? && after[key].appliedAction != Nothing
    requires forall k :: k in t && k != key ==> after[k] == t[k]
    ensures Settled(after) && |after| <= if max == 0 then 1 else max
  {
    LookupKeepsCapacity(before, key, max, now, t);
    forall k | k in after
      ensures after[k].desyncApplied && after[k].firstDataSeq.Some? && after[k].appliedAction != Nothing
    {
      if k != key {
        LookupFrame(before, key, max, now, t, k);
      }
    }
    assert |after| == |after.Keys| && |t| == |t.Keys|;
  }

  lemma NewEntry(before: Table, key: ConnKey, max: nat, now: Clock, after: Table)
    requires Obtained(before, key, max, now, after) && key !in before
    ensures key in after && after[key] == Fresh(now)
  {
  }
}
