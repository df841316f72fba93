/** Per-connection state of the packet-queue mode. */
module ConnTracking {
  import opened Types
  import opened RawPacket

  datatype ConnKey = ConnKey(src: Endpoint, dst: Endpoint)

  datatype AppliedAction = Nothing | PassedThrough | Replaced | SplitOrInject

  datatype ConnState = ConnState(
    firstDataSeq: Option<nat>, desyncApplied: bool, appliedAction: AppliedAction, firstSeen: int, lastSeen: int)

  type Table = map<ConnKey, ConnState>

  /** An entry nobody has used for this many seconds expires. */
  const LIFETIME := 300

  /** The two readings of the clock an insertion takes. */
  datatype Clock = Clock(first: int, last: int)

  function Fresh(now: Clock): ConnState {
    ConnState(None, false, Nothing, now.first, now.last)
  }

  predicate Retransmit(t: Table, key: ConnKey, seqNo: nat) {
    key in t && t[key].desyncApplied && t[key].firstDataSeq == Some(seqNo)
  }

  ghost predicate Oldest(t: Table, key: ConnKey) {
    key in t && forall k :: k in t ==> t[key].lastSeen <= t[k].lastSeen
  }

  /** One oldest entry has gone, whichever of them the iteration order gives; nothing goes from an empty table. */
  ghost predicate Evicted(before: Table, after: Table) {
    if before == map[] then after == before
    else exists victim :: Oldest(before, victim) && after == before - {victim}
  }

  /** What looking a connection up may do to a table of capacity `max`. */
  ghost predicate Obtained(before: Table, key: ConnKey, max: nat, now: Clock, after: Table) {
    if key in before then after == before
    else if |before| < max then after == before[key := Fresh(now)]
    else exists room :: Evicted(before, room) && after == room[key := Fresh(now)]
  }

  function Marked(t: Table, key: ConnKey, seqNo: nat, action: AppliedAction, now: int): Table {
    if key !in t then t
    else t[key := ConnState(Some(seqNo), true, action, t[key].firstSeen, now)]
  }

  function Unexpired(t: Table, now: int): Table {
    map k | k in t && t[k].lastSeen > now - LIFETIME :: t[k]
  }

  class ConnTracker {
    var connections: Table
    const maxConnections: nat

    constructor (max: nat)
      ensures connections == map[] && maxConnections == max
    {
      connections := map[];
      maxConnections := max;
    }

    method GetOrCreate(key: ConnKey, now: Clock) returns (state: ConnState)
      modifies this
      ensures Obtained(old(connections), key, maxConnections, now, connections)
      ensures key in connections && state == connections[key]
    {
      if key !in connections && |connections| >= maxConnections {
        EvictOldest();
      }
      if key !in connections {
        connections := connections[key := Fresh(now)];
      }
      return connections[key];
    }

    predicate IsRetransmit(key: ConnKey, seqNo: nat)
      reads this
    {
      Retransmit(connections, key, seqNo)
    }

    method MarkApplied(key: ConnKey, seqNo: nat, action: AppliedAction, now: int)
      modifies this
      ensures connections == Marked(old(connections), key, seqNo, action, now)
    {
      if key in connections {
        var state := connections[key];
        state := state.(firstDataSeq := Some(seqNo), desyncApplied := true);
        state := state.(appliedAction := action, lastSeen := now);
        connections := connections[key := state];
      }
    }

    method CleanupExpired(now: int)
      modifies this
      ensures connections == Unexpired(old(connections), now)
    {
      var cutoff := now - LIFETIME;
      connections := map k | k in connections && connections[k].lastSeen > cutoff :: connections[k];
    }

    method EvictOldest()
      modifies this
      ensures Evicted(old(connections), connections)
    {
      if connections == map[] {
        return;
      }
      var oldest :| oldest in connections.Keys;
      var rest := connections.Keys - {oldest};
      while rest != {}
        invariant oldest in connections.Keys && rest <= connections.Keys && connections == old(connections)
        invariant forall k :: k in connections.Keys - rest ==> connections[oldest].lastSeen <= connections[k].lastSeen
        decreases |rest|
      {
        var k :| k in rest;
        rest := rest - {k};
        if connections[k].lastSeen < connections[oldest].lastSeen {
          oldest := k;
        }
      }
      assert Oldest(connections, oldest);
      connections := connections - {oldest};
    }
  }

  // ---------- What the table operations keep ----------

  lemma RemoveShrinks(t: Table, key: ConnKey)
    requires key in t
    ensures |t - {key}| == |t| - 1
  {
    assert (t - {key}).Keys == t.Keys - {key};
  }

  lemma AddGrows(t: Table, key: ConnKey, state: ConnState)
    ensures |t[key := state]| == if key in t then |t| else |t| + 1
  {
    assert t[key := state].Keys == t.Keys + {key};
  }

  /** A lookup keeps the table within its capacity; a capacity of zero is taken for one. */
  lemma LookupKeepsCapacity(before: Table, key: ConnKey, max: nat, now: Clock, after: Table)
    requires Obtained(before, key, max, now, after) && |before| <= if max == 0 then 1 else max
    ensures key in after && |after| <= if max == 0 then 1 else max
  {
    if key !in before {
      if |before| < max {
        AddGrows(before, key, Fresh(now));
      } else {
        var room :| Evicted(before, room) && after == room[key := Fresh(now)];
        if before != map[] {
          var victim :| Oldest(before, victim) && room == before - {victim};
          RemoveShrinks(before, victim);
        }
        AddGrows(room, key, Fresh(now));
      }
    }
  }

  /** A lookup disturbs no other connection, except that a full table loses one oldest entry. */
  lemma LookupFrame(before: Table, key: ConnKey, max: nat, now: Clock, after: Table, other: ConnKey)
    requires Obtained(before, key, max, now, after) && other != key
    ensures other in after ==> other in before && after[other] == before[other]
    ensures other in before && other !in after ==> |before| >= max && key !in before && Oldest(before, other)
    ensures other in before && other !in after ==> forall k :: k in before && k != other ==> k in after
  {
    if key !in before && |before| >= max {
      var room :| Evicted(before, room) && after == room[key := Fresh(now)];
      if before != map[] {
        var victim :| Oldest(before, victim) && room == before - {victim};
      }
    }
  }
}
