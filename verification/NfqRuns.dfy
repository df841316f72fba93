/** Whole runs of the packet-queue machine, over any packets and any clean-ups. */
module NfqRuns {
  import opened Types
  import opened RawPacket
  import opened ConnTracking
  import opened Nfq
  import Selection

  datatype Event = Arrives(packet: Packet, verdict: Verdict) | Cleanup(now: int)

  ghost predicate Step(blockQuic: bool, max: nat, before: Table, e: Event, after: Table) {
    match e
    case Arrives(p, verdict) => Processed(blockQuic, max, before, p, verdict, after)
    case Cleanup(now) => after == Unexpired(before, now)
  }

  /** `tables[i]` is the table before event `i`. */
  ghost predicate IsRun(blockQuic: bool, max: nat, tables: seq<Table>, events: seq<Event>) {
    && |tables| == |events| + 1 && tables[0] == map[]
    && forall i :: 0 <= i < |events| ==> Step(blockQuic, max, tables[i], events[i], tables[i + 1])
  }

  const CLEANUP_PERIOD := 1000

  /** The packets of a run with their verdicts, clean-ups left out. */
  function Arrivals(events: seq<Event>): seq<(Packet, Verdict)> {
    if events == [] then []
    else
      var n := |events| - 1;
      Arrivals(events[..n]) + if events[n].Arrives? then [(events[n].packet, events[n].verdict)] else []
  }

  /** The packets of a run as the selector saw them. */
  function LookedUp(arrivals: seq<Arrival>, selector: Selection.Selector, runs: seq<Selection.Runner>): (ps: seq<Packet>)
    requires |runs| == |arrivals|
    reads selector
    ensures |ps| == |arrivals|
    ensures forall i :: 0 <= i < |ps| ==> ps[i] == Looked(arrivals[i], selector, runs[i])
  {
    seq(|arrivals|, i requires 0 <= i < |arrivals| reads selector => Looked(arrivals[i], selector, runs[i]))
  }

  /** The packets paired with their verdicts. */
  function Judged(ps: seq<Packet>, verdicts: seq<Verdict>): seq<(Packet, Verdict)>
    requires |verdicts| == |ps|
  {
    if ps == [] then []
    else
      var n := |ps| - 1;
      Judged(ps[..n], verdicts[..n]) + [(ps[n], verdicts[n])]
  }

  lemma JudgedNext(ps: seq<Packet>, n: nat, verdicts: seq<Verdict>, verdict: Verdict)
    requires |verdicts| == n < |ps|
    ensures Judged(ps[..n + 1], verdicts + [verdict]) == Judged(ps[..n], verdicts) + [(ps[n], verdict)]
  {
    assert ps[..n + 1][..n] == ps[..n] && (verdicts + [verdict])[..n] == verdicts;
  }

  /** A thousand packets more have been processed, and not been followed by a clean-up. */
  predicate Due(events: seq<Event>) {
    events != [] && events[|events| - 1].Arrives? && |Arrivals(events)| % 1000 == 0
  }

  /** A clean-up follows every thousandth packet and no other, with the reading of the clock for that packet. */
  predicate Periodic(events: seq<Event>, clock: seq<int>) {
    events == []
    || (var n := |events| - 1;
        var k := |Arrivals(events[..n])|;
        && Periodic(events[..n], clock) && (events[n].Cleanup? <==> Due(events[..n]))
        && (events[n].Cleanup? ==> 0 < k <= |clock| && events[n].now == clock[k - 1]))
  }

  lemma PeriodicNext(events: seq<Event>, e: Event, clock: seq<int>)
    requires Periodic(events, clock) && (e.Cleanup? <==> Due(events))
    requires e.Cleanup? ==> 0 < |Arrivals(events)| <= |clock| && e.now == clock[|Arrivals(events)| - 1]
    ensures Periodic(events + [e], clock)
  {
    assert (events + [e])[..|events|] == events;
  }

  /** A run whose last table is `t`. */
  ghost predicate IsRunTo(blockQuic: bool, max: nat, tables: seq<Table>, events: seq<Event>, t: Table) {
    IsRun(blockQuic, max, tables, events) && tables[|events|] == t
  }

  /** The first `n` packets are processed, and the table is `t`. */
  ghost predicate SoFar(
      blockQuic: bool, max: nat, ps: seq<Packet>, clock: seq<int>, n: nat, verdicts: seq<Verdict>,
      tables: seq<Table>, events: seq<Event>, t: Table)
  {
    && n == |verdicts| <= |ps| && IsRunTo(blockQuic, max, tables, events, t)
    && Arrivals(events) == Judged(ps[..n], verdicts) && |Arrivals(events)| == n && Periodic(events, clock)
  }

  lemma PacketDone(
      blockQuic: bool, max: nat, ps: seq<Packet>, clock: seq<int>, n: nat, verdicts: seq<Verdict>,
      tables: seq<Table>, events: seq<Event>, t: Table, verdict: Verdict, after: Table)
    requires SoFar(blockQuic, max, ps, clock, n, verdicts, tables, events, t) && !Due(events) && n < |ps|
    requires Processed(blockQuic, max, t, ps[n], verdict, after)
    ensures var es := events + [Arrives(ps[n], verdict)];
            && SoFar(blockQuic, max, ps, clock, n + 1, verdicts + [verdict], tables + [after], es, after)
            && (Due(es) <==> (n + 1) % 1000 == 0)
  {
    var e := Arrives(ps[n], verdict);
    Extend(blockQuic, max, tables, events, e, after);
    JudgedNext(ps, n, verdicts, verdict);
    PeriodicNext(events, e, clock);
  }

  lemma CleanupDone(
      blockQuic: bool, max: nat, ps: seq<Packet>, clock: seq<int>, n: nat, verdicts: seq<Verdict>,
      tables: seq<Table>, events: seq<Event>, t: Table, after: Table)
    requires SoFar(blockQuic, max, ps, clock, n, verdicts, tables, events, t) && Due(events) && 0 < n <= |clock|
    requires after == Unexpired(t, clock[n - 1])
    ensures var es := events + [Cleanup(clock[n - 1])];
            SoFar(blockQuic, max, ps, clock, n, verdicts, tables + [after], es, after) && !Due(es)
  {
    var e := Cleanup(clock[n - 1]);
    Extend(blockQuic, max, tables, events, e, after);
    PeriodicNext(events, e, clock);
    assert Arrivals(events) + [] == Arrivals(events);
  }

  /** The processing loop: each packet is given a verdict, and every thousandth one is followed by a clean-up. */
  method RunNfq(
      arrivals: seq<Arrival>, selector: Selection.Selector, runs: seq<Selection.Runner>, clock: seq<int>,
      max: nat, blockQuic: bool)
    returns (verdicts: seq<Verdict>, ghost tables: seq<Table>, ghost events: seq<Event>)
    requires |clock| == |arrivals| && |runs| == |arrivals|
    ensures |verdicts| == |arrivals| && IsRun(blockQuic, max, tables, events)
    ensures Arrivals(events) == Judged(LookedUp(arrivals, selector, runs), verdicts)
    ensures Periodic(events, clock) && !Due(events)
  {
    var tracker := new ConnTracker(max);
    ghost var looked := LookedUp(arrivals, selector, runs);
    verdicts := [];
    tables, events := [tracker.connections], [];
    var processed := 0;
    while processed < |arrivals|
      invariant tracker.maxConnections == max && fresh(tracker) && looked == LookedUp(arrivals, selector, runs)
      invariant processed <= |arrivals| && !Due(events)
      invariant SoFar(blockQuic, max, looked, clock, processed, verdicts, tables, events, tracker.connections)
    {
      assert Looked(arrivals[processed], selector, runs[processed]) == looked[processed];
      ghost var before := tracker.connections;
      var verdict := ProcessPacket(arrivals[processed], selector, runs[processed], tracker, blockQuic);
      PacketDone(blockQuic, max, looked, clock, processed, verdicts, tables, events, before, verdict, tracker.connections);
      events, tables := events + [Arrives(looked[processed], verdict)], tables + [tracker.connections];
      verdicts := verdicts + [verdict];
      processed := processed + 1;
      if processed % CLEANUP_PERIOD == 0 {
        before := tracker.connections;
        var now := clock[processed - 1];
        tracker.CleanupExpired(now);
        CleanupDone(blockQuic, max, looked, clock, processed, verdicts, tables, events, before, tracker.connections);
        events, tables := events + [Cleanup(now)], tables + [tracker.connections];
      }
    }
    assert looked[..processed] == looked;
  }

  lemma Extend(
      blockQuic: bool, max: nat, tables: seq<Table>, events: seq<Event>, e: Event, after: Table)
    requires IsRun(blockQuic, max, tables, events) && Step(blockQuic, max, tables[|events|], e, after)
    ensures IsRunTo(blockQuic, max, tables + [after], events + [e], after)
    ensures Arrivals(events + [e]) == Arrivals(events) + if e.Arrives? then [(e.packet, e.verdict)] else []
  {
    ArrivalsNext(events, e);
    RunNext(blockQuic, max, tables, events, e, after, tables + [after], events + [e]);
  }

  lemma ArrivalsNext(events: seq<Event>, e: Event)
    ensures Arrivals(events + [e]) == Arrivals(events) + if e.Arrives? then [(e.packet, e.verdict)] else []
  {
    assert (events + [e])[..|events|] == events;
  }

  lemma RunNext(
      blockQuic: bool, max: nat, tables: seq<Table>, events: seq<Event>, e: Event, after: Table,
      ts: seq<Table>, es: seq<Event>)
    requires IsRun(blockQuic, max, tables, events) && Step(blockQuic, max, tables[|events|], e, after)
    requires ts == tables + [after] && es == events + [e]
    ensures IsRunTo(blockQuic, max, ts, es, after)
  {
    forall i | 0 <= i < |es|
      ensures Step(blockQuic, max, ts[i], es[i], ts[i + 1])
    {
      if i < |events| {
        assert Step(blockQuic, max, tables[i], events[i], tables[i + 1]);
      }
    }
  }

  // ---------- Invariants of every run ----------

  /** Every table of a run is settled and within its capacity, a capacity of zero being taken for one. */
  lemma {:induction false} TablesBounded(
      blockQuic: bool, max: nat, tables: seq<Table>, events: seq<Event>, i: nat)
    requires IsRun(blockQuic, max, tables, events) && i <= |events|
    ensures Settled(tables[i]) && |tables[i]| <= if max == 0 then 1 else max
  {
    if i > 0 {
      TablesBounded(blockQuic, max, tables, events, i - 1);
      assert Step(blockQuic, max, tables[i - 1], events[i - 1], tables[i]);
      match events[i - 1]
      case Arrives(p, verdict) => StepKeeps(blockQuic, max, tables[i - 1], p, verdict, tables[i]);
      case Cleanup(now) => CleanupShrinks(tables[i - 1], now);
    }
  }

  lemma CleanupShrinks(t: Table, now: int)
    ensures |Unexpired(t, now)| <= |t|
  {
    SubsetSize(Unexpired(t, now).Keys, t.Keys);
  }

  lemma {:induction false} SubsetSize<T>(a: set<T>, b: set<T>)
    requires a <= b
    ensures |a| <= |b|
  {
    if a != {} {
      var x :| x in a;
      SubsetSize(a - {x}, b - {x});
    }
  }

  // ---------- One rewrite per tracked connection ----------

  /** The packet of this event opened the connection: it was looked at, whatever was decided. */
  predicate OpensKey(blockQuic: bool, before: Table, e: Event, key: ConnKey) {
    e.Arrives? && Opens(blockQuic, before, e.packet) && KeyOf(ParseIpTcp(e.packet.data).value) == key
  }

  /** The payload of a packet of this connection was replaced. */
  predicate Rewrites(e: Event, key: ConnKey) {
    && e.Arrives? && e.verdict.Modify?
    && ParseIpTcp(e.packet.data).Some? && KeyOf(ParseIpTcp(e.packet.data).value) == key
  }

  /** Why an entry leaves the table: it expired, or a new connection found the table full and it was an oldest one. */
  ghost predicate Leaves(blockQuic: bool, max: nat, before: Table, e: Event, key: ConnKey)
    requires key in before
  {
    match e
    case Cleanup(now) => before[key].lastSeen + 300 <= now
    case Arrives(p, _) => Opens(blockQuic, before, p) && |before| >= max && Oldest(before, key)
  }

  /** Packets never touch an existing entry: it stays as it was written, or leaves for one of the two reasons. */
  lemma EntryFrozen(
      blockQuic: bool, max: nat, before: Table, e: Event, after: Table, key: ConnKey)
    requires Settled(before) && Step(blockQuic, max, before, e, after) && key in before
    ensures key in after ==> after[key] == before[key]
    ensures key !in after ==> Leaves(blockQuic, max, before, e, key)
  {
    match e {
      case Cleanup(_) =>
      case Arrives(p, verdict) =>
        if Opens(blockQuic, before, p) {
          var parsed := ParseIpTcp(p.data).value;
          var newcomer := KeyOf(parsed);
          var t :| Obtained(before, newcomer, max, p.lookedUp, t) && newcomer in t && Decided(t, p, parsed, verdict, after);
          LookupFrame(before, newcomer, max, p.lookedUp, t, key);
        } else {
          VerdictMeaning(blockQuic, max, before, p, verdict, after);
        }
    }
  }

  /** Opening a connection writes its one entry, dated by the marking. */
  lemma OpeningRecords(
      blockQuic: bool, max: nat, before: Table, e: Event, after: Table, key: ConnKey)
    requires Settled(before) && Step(blockQuic, max, before, e, after) && OpensKey(blockQuic, before, e, key)
    ensures key in after && after[key].lastSeen == e.packet.marked
    ensures after[key].firstDataSeq == Some(ParseIpTcp(e.packet.data).value.seqNo)
    ensures after[key].appliedAction == if Rewrites(e, key) then Replaced else PassedThrough
  {
    var p, parsed := e.packet, ParseIpTcp(e.packet.data).value;
    var t :| Obtained(before, key, max, p.lookedUp, t) && key in t && Decided(t, p, parsed, e.verdict, after);
    NewEntry(before, key, max, p.lookedUp, t);
    VerdictMeaning(blockQuic, max, before, p, e.verdict, after);
  }

  /** An entry that is there and later is not left at some event in between, unchanged until then. */
  lemma {:induction false} Departure(
      blockQuic: bool, max: nat, tables: seq<Table>, events: seq<Event>, i: nat, j: nat, key: ConnKey) returns (k: nat)
    requires IsRun(blockQuic, max, tables, events) && i < j <= |events|
    requires key in tables[i] && key !in tables[j]
    ensures i <= k < j && key in tables[k] && tables[k][key] == tables[i][key] && key !in tables[k + 1]
    ensures Leaves(blockQuic, max, tables[k], events[k], key)
    decreases j - i
  {
    TablesBounded(blockQuic, max, tables, events, i);
    assert Step(blockQuic, max, tables[i], events[i], tables[i + 1]);
    EntryFrozen(blockQuic, max, tables[i], events[i], tables[i + 1], key);
    if key in tables[i + 1] {
      k := Departure(blockQuic, max, tables, events, i + 1, j, key);
    } else {
      k := i;
    }
  }

  /**
   * At most once: between two rewrites of one connection its entry left the table, either by a
   * clean-up at least the lifetime after the first rewrite, or as an oldest entry of a full table.
   */
  lemma AtMostOnce(
      blockQuic: bool, max: nat, tables: seq<Table>, events: seq<Event>, i: nat, j: nat, key: ConnKey) returns (k: nat)
    requires IsRun(blockQuic, max, tables, events) && i < j < |events|
    requires Rewrites(events[i], key) && Rewrites(events[j], key)
    ensures i < k < j && key in tables[k] && key !in tables[k + 1]
    ensures tables[k][key].lastSeen == events[i].packet.marked
    ensures Leaves(blockQuic, max, tables[k], events[k], key)
  {
    RewriteOpens(blockQuic, max, tables, events, i, key);
    RewriteOpens(blockQuic, max, tables, events, j, key);
    TablesBounded(blockQuic, max, tables, events, i);
    OpeningRecords(blockQuic, max, tables[i], events[i], tables[i + 1], key);
    k := Departure(blockQuic, max, tables, events, i + 1, j, key);
  }

  lemma RewriteOpens(
      blockQuic: bool, max: nat, tables: seq<Table>, events: seq<Event>, i: nat, key: ConnKey)
    requires IsRun(blockQuic, max, tables, events) && i < |events| && Rewrites(events[i], key)
    ensures Step(blockQuic, max, tables[i], events[i], tables[i + 1])
    ensures OpensKey(blockQuic, tables[i], events[i], key) && key !in tables[i]
  {
    TablesBounded(blockQuic, max, tables, events, i);
    assert Step(blockQuic, max, tables[i], events[i], tables[i + 1]);
    VerdictMeaning(blockQuic, max, tables[i], events[i].packet, events[i].verdict, tables[i + 1]);
  }

  lemma {:induction false} Unchanged(
      blockQuic: bool, max: nat, tables: seq<Table>, events: seq<Event>, i: nat, k: nat, key: ConnKey)
    requires IsRun(blockQuic, max, tables, events) && i <= k <= |events|
    requires forall m :: i <= m <= k ==> key in tables[m]
    ensures tables[k][key] == tables[i][key]
    decreases k - i
  {
    if i < k {
      TablesBounded(blockQuic, max, tables, events, i);
      assert Step(blockQuic, max, tables[i], events[i], tables[i + 1]);
      EntryFrozen(blockQuic, max, tables[i], events[i], tables[i + 1], key);
      Unchanged(blockQuic, max, tables, events, i + 1, k, key);
    }
  }

  /**
   * Traffic does not refresh an entry: however many packets of the connection arrived since it was
   * opened, a clean-up drops it exactly when the lifetime has passed since then.
   */
  lemma LifetimeFromOpening(
      blockQuic: bool, max: nat, tables: seq<Table>, events: seq<Event>, i: nat, k: nat, key: ConnKey)
    requires IsRun(blockQuic, max, tables, events) && i < k < |events|
    requires OpensKey(blockQuic, tables[i], events[i], key) && events[k].Cleanup?
    requires forall m :: i < m <= k ==> key in tables[m]
    ensures key in tables[k + 1] <==> events[k].now < events[i].packet.marked + 300
  {
    TablesBounded(blockQuic, max, tables, events, i);
    assert Step(blockQuic, max, tables[i], events[i], tables[i + 1]);
    OpeningRecords(blockQuic, max, tables[i], events[i], tables[i + 1], key);
    Unchanged(blockQuic, max, tables, events, i + 1, k, key);
    assert Step(blockQuic, max, tables[k], events[k], tables[k + 1]);
  }
}
