/** The resolver's cache, whose lock is free while a resolution is under way. */
module DnsCaching {
  import opened Bytes
  import opened Types

  datatype IpAddr = V4(bytes: seq<Byte>) | V6(bytes: seq<Byte>)

  datatype SocketAddr = SocketAddr(ip: IpAddr, port: nat)

  datatype Key = Key(domain: seq<Byte>, port: nat)

  datatype CacheEntry = CacheEntry(addr: SocketAddr, expiresAt: int)

  type Entries = map<Key, CacheEntry>

  function FirstV4(ips: seq<IpAddr>): Option<IpAddr> {
    if ips == [] then None else if ips[0].V4? then Some(ips[0]) else FirstV4(ips[1..])
  }

  function Preferred(ips: seq<IpAddr>): Option<IpAddr> {
    if FirstV4(ips).Some? then FirstV4(ips) else if ips == [] then None else Some(ips[0])
  }

  /** The preferred address is the first IPv4 one, or else the first of all. */
  lemma PreferredMeaning(ips: seq<IpAddr>)
    ensures Preferred(ips) == None <==> ips == []
    ensures forall i :: 0 <= i < |ips| && ips[i].V4? && (forall j :: 0 <= j < i ==> ips[j].V6?) ==>
              Preferred(ips) == Some(ips[i])
    ensures ips != [] && (forall i :: 0 <= i < |ips| ==> ips[i].V6?) ==> Preferred(ips) == Some(ips[0])
  {
    FirstV4Meaning(ips);
  }

  lemma {:induction false} FirstV4Meaning(ips: seq<IpAddr>)
    ensures FirstV4(ips) == None <==> forall i :: 0 <= i < |ips| ==> ips[i].V6?
    ensures forall i :: 0 <= i < |ips| && ips[i].V4? && (forall j :: 0 <= j < i ==> ips[j].V6?) ==>
              FirstV4(ips) == Some(ips[i])
  {
    if ips == [] {
    } else {
      FirstV4Meaning(ips[1..]);
      forall i | 1 <= i < |ips| && ips[i].V4? && (forall j :: 0 <= j < i ==> ips[j].V6?)
        ensures FirstV4(ips) == Some(ips[i])
      {
        assert ips[0].V6? && ips[1..][i - 1] == ips[i];
        assert forall j :: 0 <= j < i - 1 ==> ips[1..][j].V6?;
      }
    }
  }

  function Hit(entries: Entries, key: Key, now: int): Option<SocketAddr> {
    if key in entries && entries[key].expiresAt > now then Some(entries[key].addr) else None
  }

  ghost predicate SoonestToExpire(entries: Entries, key: Key) {
    key in entries && forall k :: k in entries ==> entries[key].expiresAt <= entries[k].expiresAt
  }

  /** Insertion; a full cache first loses an entry soonest to expire, whichever the iteration order gives. */
  ghost predicate Inserted(before: Entries, max: nat, key: Key, entry: CacheEntry, after: Entries) {
    if |before| < max || before == map[] then after == before[key := entry]
    else exists victim :: SoonestToExpire(before, victim) && after == (before - {victim})[key := entry]
  }

  class DnsCache {
    const ttl: nat
    const maxEntries: nat
    var entries: Entries

    constructor (ttl: nat, max: nat)
      ensures entries == map[] && this.ttl == ttl && maxEntries == max
    {
      this.ttl := ttl;
      maxEntries := max;
      entries := map[];
    }

    /** A resolution up to the point where it gives up the lock: a hit ends it. */
    method Begin(key: Key, now: int) returns (hit: Option<SocketAddr>)
      ensures hit == Hit(entries, key, now)
    {
      if key in entries {
        var entry := entries[key];
        if entry.expiresAt > now {
          return Some(entry.addr);
        }
      }
      return None;
    }

    /** The rest of a resolution, given the resolver's answer. */
    method Finish(key: Key, answer: Option<seq<IpAddr>>, now: int) returns (result: Option<SocketAddr>)
      modifies this
      ensures result == Chosen(key, answer)
      ensures result.None? ==> entries == old(entries)
      ensures result.Some? ==>
                Inserted(old(entries), maxEntries, key, CacheEntry(result.value, now + ttl), entries)
    {
      if answer.None? {
        return None;
      }
      var ip := Preferred(answer.value);
      if ip.None? {
        return None;
      }
      var addr := SocketAddr(ip.value, key.port);
      if |entries| >= maxEntries {
        EvictSoonest();
      }
      entries := entries[key := CacheEntry(addr, now + ttl)];
      return Some(addr);
    }

    method EvictSoonest()
      modifies this
      ensures old(entries) == map[] ==> entries == map[]
      ensures old(entries) != map[] ==>
                exists victim :: SoonestToExpire(old(entries), victim) && entries == old(entries) - {victim}
    {
      if entries == map[] {
        return;
      }
      var victim :| victim in entries.Keys;
      var rest := entries.Keys - {victim};
      while rest != {}
        invariant victim in entries.Keys && rest <= entries.Keys && entries == old(entries)
        invariant forall k :: k in entries.Keys - rest ==> entries[victim].expiresAt <= entries[k].expiresAt
        decreases |rest|
      {
        var k :| k in rest;
        rest := rest - {k};
        if entries[k].expiresAt < entries[victim].expiresAt {
          victim := k;
        }
      }
      assert SoonestToExpire(entries, victim);
      entries := entries - {victim};
    }
  }

  /** The address a resolution returns for the resolver's answer. */
  function Chosen(key: Key, answer: Option<seq<IpAddr>>): Option<SocketAddr> {
    if answer.None? || Preferred(answer.value).None? then None
    else Some(SocketAddr(Preferred(answer.value).value, key.port))
  }

  // ---------- Interleaved resolutions ----------

  datatype State = State(entries: Entries, waiting: map<nat, Key>)

  /** What one task does between two suspensions. */
  datatype Event =
    | Begins(task: nat, key: Key, now: int, hit: Option<SocketAddr>)
    | Finishes(task: nat, answer: Option<seq<IpAddr>>, now: int, result: Option<SocketAddr>)

  ghost predicate Step(ttl: nat, max: nat, s: State, e: Event, t: State) {
    match e
    case Begins(task, key, now, hit) =>
      && task !in s.waiting && t.entries == s.entries && hit == Hit(s.entries, key, now)
      && t.waiting == if hit.Some? then s.waiting else s.waiting[task := key]
    case Finishes(task, answer, now, result) =>
      && task in s.waiting && t.waiting == s.waiting - {task}
      && result == Chosen(s.waiting[task], answer)
      && if result.None? then t.entries == s.entries
         else Inserted(s.entries, max, s.waiting[task], CacheEntry(result.value, now + ttl), t.entries)
  }

  ghost predicate IsRun(ttl: nat, max: nat, states: seq<State>, events: seq<Event>) {
    && |states| == |events| + 1 && states[0] == State(map[], map[])
    && forall i :: 0 <= i < |events| ==> Step(ttl, max, states[i], events[i], states[i + 1])
  }

  /** The event stores an address for the key. */
  predicate Stores(s: State, e: Event, key: Key) {
    e.Finishes? && e.task in s.waiting && s.waiting[e.task] == key && e.result.Some?
  }

  lemma InsertedEntries(before: Entries, max: nat, key: Key, entry: CacheEntry, after: Entries, k: Key)
    requires Inserted(before, max, key, entry, after)
    ensures key in after && after[key] == entry
    ensures k in after && k != key ==> k in before && after[k] == before[k]
  {
  }

  lemma InsertedSize(before: Entries, max: nat, key: Key, entry: CacheEntry, after: Entries)
    requires Inserted(before, max, key, entry, after) && |before| <= if max == 0 then 1 else max
    ensures |after| <= if max == 0 then 1 else max
  {
    if |before| < max || before == map[] {
      assert after.Keys == before.Keys + {key};
    } else {
      var victim :| SoonestToExpire(before, victim) && after == (before - {victim})[key := entry];
      assert (before - {victim}).Keys == before.Keys - {victim};
      assert after.Keys == (before - {victim}).Keys + {key};
    }
  }

  /** The size never exceeds the cap, a cap of zero being taken for one. */
  lemma {:induction false} SizeBounded(ttl: nat, max: nat, states: seq<State>, events: seq<Event>, i: nat)
    requires IsRun(ttl, max, states, events) && i <= |events|
    ensures |states[i].entries| <= if max == 0 then 1 else max
  {
    if i > 0 {
      SizeBounded(ttl, max, states, events, i - 1);
      var s, e, t := states[i - 1], events[i - 1], states[i];
      assert Step(ttl, max, s, e, t);
      if e.Finishes? && e.result.Some? {
        InsertedSize(s.entries, max, s.waiting[e.task], CacheEntry(e.result.value, e.now + ttl), t.entries);
      }
    }
  }

  lemma EntryStep(ttl: nat, max: nat, s: State, e: Event, t: State, key: Key)
    requires Step(ttl, max, s, e, t) && key in t.entries
    ensures Stores(s, e, key) ==> t.entries[key] == CacheEntry(e.result.value, e.now + ttl)
    ensures !Stores(s, e, key) ==> key in s.entries && t.entries[key] == s.entries[key]
  {
    if e.Finishes? && e.result.Some? {
      InsertedEntries(s.entries, max, s.waiting[e.task], CacheEntry(e.result.value, e.now + ttl), t.entries, key);
    }
  }

  /** Every entry was stored by the last event that stored its key, and expires that event's time plus the TTL. */
  lemma {:induction false} Provenance(ttl: nat, max: nat, states: seq<State>, events: seq<Event>, j: nat, key: Key)
    returns (i: nat)
    requires IsRun(ttl, max, states, events) && j <= |events| && key in states[j].entries
    ensures i < j && Stores(states[i], events[i], key)
    ensures states[j].entries[key] == CacheEntry(events[i].result.value, events[i].now + ttl)
    ensures forall m :: i < m < j ==> !Stores(states[m], events[m], key)
    decreases j
  {
    if j > 0 {
      var n := j - 1;
      var s, e, t := states[n], events[n], states[j];
      assert Step(ttl, max, s, e, states[n + 1]);
      EntryStep(ttl, max, s, e, t, key);
      if Stores(s, e, key) {
        i := n;
      } else {
        i := Provenance(ttl, max, states, events, n, key);
      }
    }
  }

  /** A waiting task began with a miss on the very key it is waiting for. */
  lemma {:induction false} WaitingBegan(ttl: nat, max: nat, states: seq<State>, events: seq<Event>, i: nat, task: nat)
    returns (b: nat)
    requires IsRun(ttl, max, states, events) && i <= |events| && task in states[i].waiting
    ensures b < i && events[b].Begins? && events[b].task == task && events[b].key == states[i].waiting[task]
    ensures events[b].hit == None
    decreases i
  {
    if i > 0 {
      var s, e, t := states[i - 1], events[i - 1], states[i];
      assert Step(ttl, max, s, e, t);
      if e.Begins? && e.task == task && e.hit.None? {
        b := i - 1;
      } else {
        b := WaitingBegan(ttl, max, states, events, i - 1, task);
      }
    }
  }

  /** The resolver's answer at `i` to a question about this key, asked at `b`, gives this address. */
  ghost predicate Answered(states: seq<State>, events: seq<Event>, b: nat, i: nat, key: Key, addr: SocketAddr)
    requires i < |events| <= |states|
  {
    && b < i && events[b].Begins? && events[b].key == key
    && Stores(states[i], events[i], key) && events[i].answer.Some?
    && Preferred(events[i].answer.value) == Some(addr.ip) && addr.port == key.port
  }

  /**
   * However resolutions interleave, a hit is the IPv4-preferred choice from the resolver's last
   * successful answer for that domain and port, with the requested port, strictly within the TTL
   * of the moment that answer was stored.
   */
  lemma HitsAreFresh(ttl: nat, max: nat, states: seq<State>, events: seq<Event>, j: nat)
    returns (b: nat, i: nat)
    requires IsRun(ttl, max, states, events) && j < |events| && events[j].Begins? && events[j].hit.Some?
    ensures i < j && Answered(states, events, b, i, events[j].key, events[j].hit.value)
    ensures events[j].now < events[i].now + ttl
    ensures forall m :: i < m < j ==> !Stores(states[m], events[m], events[j].key)
  {
    assert Step(ttl, max, states[j], events[j], states[j + 1]);
    i := Provenance(ttl, max, states, events, j, events[j].key);
    assert Step(ttl, max, states[i], events[i], states[i + 1]);
    b := WaitingBegan(ttl, max, states, events, i, events[i].task);
  }

  /** The event takes the key's entry out of the cache. */
  predicate Evicts(s: State, t: State, key: Key) {
    key in s.entries && key !in t.entries
  }

  /**
   * An entry is replaced only by a store for its key, and leaves only when another key is stored in a full cache,
   * as one soonest to expire and alone.
   */
  lemma LeavesOnlyFull(ttl: nat, max: nat, s: State, e: Event, t: State, key: Key)
    requires Step(ttl, max, s, e, t) && key in s.entries
    ensures key in t.entries && t.entries[key] != s.entries[key] ==> Stores(s, e, key)
    ensures Evicts(s, t, key) ==>
              && e.Finishes? && e.task in s.waiting && s.waiting[e.task] != key && e.result.Some?
              && |s.entries| >= max
              && (forall k :: k in s.entries ==> s.entries[key].expiresAt <= s.entries[k].expiresAt)
              && (forall k :: k in s.entries && k != key ==> k in t.entries)
  {
    if key in t.entries {
      EntryStep(ttl, max, s, e, t, key);
    } else if |s.entries| >= max {
      var stored := CacheEntry(e.result.value, e.now + ttl);
      var victim :|
        SoonestToExpire(s.entries, victim) && t.entries == (s.entries - {victim})[s.waiting[e.task] := stored];
      assert victim == key;
    }
  }

  /** What is stored stays until it is evicted. */
  lemma {:induction false} StaysStored(ttl: nat, max: nat, states: seq<State>, events: seq<Event>, i: nat, j: nat, key: Key)
    requires IsRun(ttl, max, states, events) && i < j <= |events| && Stores(states[i], events[i], key)
    requires forall m :: i < m < j ==> !Evicts(states[m], states[m + 1], key)
    ensures key in states[j].entries
    decreases j
  {
    if j == i + 1 {
      var s, e, t := states[i], events[i], states[j];
      assert Step(ttl, max, s, e, t);
      InsertedEntries(s.entries, max, key, CacheEntry(e.result.value, e.now + ttl), t.entries, key);
    } else {
      StaysStored(ttl, max, states, events, i, j - 1, key);
      assert !Evicts(states[j - 1], states[j - 1 + 1], key);
    }
  }

  /**
   * The other half: within the TTL of the last store for a key, its address is the answer to every question for
   * the key, unless the entry was evicted in between.
   */
  lemma FreshEntriesHit(ttl: nat, max: nat, states: seq<State>, events: seq<Event>, i: nat, j: nat)
    requires IsRun(ttl, max, states, events) && i < j < |events| && events[j].Begins?
    requires Stores(states[i], events[i], events[j].key)
    requires forall m :: i < m < j ==> !Stores(states[m], events[m], events[j].key)
    requires forall m :: i < m < j ==> !Evicts(states[m], states[m + 1], events[j].key)
    ensures events[j].hit == if events[j].now < events[i].now + ttl then events[i].result else None
  {
    var key := events[j].key;
    StaysStored(ttl, max, states, events, i, j, key);
    var last := Provenance(ttl, max, states, events, j, key);
    assert last == i;
    assert Step(ttl, max, states[j], events[j], states[j + 1]);
  }

  /** A miss returns the preferred choice of its own answer, or fails when there is none. */
  lemma MissesAnswerTheirOwn(ttl: nat, max: nat, states: seq<State>, events: seq<Event>, i: nat)
    returns (b: nat)
    requires IsRun(ttl, max, states, events) && i < |events| && events[i].Finishes?
    ensures b < i && events[b].Begins? && events[b].task == events[i].task && events[b].hit == None
    ensures events[i].result.Some? ==> Answered(states, events, b, i, events[b].key, events[i].result.value)
    ensures events[i].result.None? <==> events[i].answer.None? || events[i].answer.value == []
  {
    assert Step(ttl, max, states[i], events[i], states[i + 1]);
    b := WaitingBegan(ttl, max, states, events, i, events[i].task);
    if events[i].answer.Some? {
      PreferredMeaning(events[i].answer.value);
    }
  }

  // ---------- The cache in use ----------

  /** A task asks for a key, or the resolver answers a task that waits. */
  datatype Command = Ask(task: nat, key: Key, now: int) | Answer(task: nat, answer: Option<seq<IpAddr>>, now: int)

  predicate Enabled(waiting: map<nat, Key>, c: Command) {
    if c.Ask? then c.task !in waiting else c.task in waiting
  }

  predicate Does(e: Event, c: Command) {
    match c
    case Ask(task, key, now) => e.Begins? && e.task == task && e.key == key && e.now == now
    case Answer(task, answer, now) => e.Finishes? && e.task == task && e.answer == answer && e.now == now
  }

  /** The events carry out the commands in order, leaving out exactly those that are not enabled. */
  predicate Follows(commands: seq<Command>, states: seq<State>, events: seq<Event>)
    requires |states| == |events| + 1
  {
    if commands == [] then events == []
    else
      var n, m := |commands| - 1, |events|;
      || (m > 0 && Enabled(states[m - 1].waiting, commands[n]) && Does(events[m - 1], commands[n])
          && Follows(commands[..n], states[..m], events[..m - 1]))
      || (!Enabled(states[m].waiting, commands[n]) && Follows(commands[..n], states, events))
  }

  /** The run so far, and the state it has led to. */
  ghost predicate RunTo(
      ttl: nat, max: nat, commands: seq<Command>, states: seq<State>, events: seq<Event>, entries: Entries,
      waiting: map<nat, Key>)
  {
    && IsRun(ttl, max, states, events) && Follows(commands, states, events)
    && states[|events|] == State(entries, waiting)
  }

  /** The cache under any interleaving of questions and answers is one of the runs above. */
  method Serve(commands: seq<Command>, ttl: nat, max: nat) returns (events: seq<Event>, states: seq<State>)
    ensures IsRun(ttl, max, states, events) && Follows(commands, states, events)
  {
    var cache := new DnsCache(ttl, max);
    var waiting: map<nat, Key> := map[];
    events := [];
    states := [State(map[], map[])];
    var i := 0;
    while i < |commands|
      invariant 0 <= i <= |commands| && fresh(cache) && cache.ttl == ttl && cache.maxEntries == max
      invariant RunTo(ttl, max, commands[..i], states, events, cache.entries, waiting)
    {
      var c := commands[i];
      CommandsSnoc(commands, i);
      if Enabled(waiting, c) {
        ghost var before := State(cache.entries, waiting);
        var e;
        if c.Ask? {
          var hit := cache.Begin(c.key, c.now);
          e := Begins(c.task, c.key, c.now, hit);
          waiting := if hit.Some? then waiting else waiting[c.task := c.key];
        } else {
          var result := cache.Finish(waiting[c.task], c.answer, c.now);
          e := Finishes(c.task, c.answer, c.now, result);
          waiting := waiting - {c.task};
        }
        Performed(ttl, max, commands[..i], states, events, before, c, e, State(cache.entries, waiting));
        events, states := events + [e], states + [State(cache.entries, waiting)];
      } else {
        Skipped(commands[..i], states, events, c);
      }
      i := i + 1;
    }
    assert commands[..i] == commands;
  }

  lemma CommandsSnoc(commands: seq<Command>, i: nat)
    requires i < |commands|
    ensures commands[..i + 1] == commands[..i] + [commands[i]]
  {
  }

  lemma Performed(
      ttl: nat, max: nat, commands: seq<Command>, states: seq<State>, events: seq<Event>,
      s: State, c: Command, e: Event, t: State)
    requires RunTo(ttl, max, commands, states, events, s.entries, s.waiting)
    requires Enabled(s.waiting, c) && Does(e, c) && Step(ttl, max, s, e, t)
    ensures RunTo(ttl, max, commands + [c], states + [t], events + [e], t.entries, t.waiting)
  {
    RunExtends(ttl, max, states, events, e, t);
    FollowsOn(commands, states, events, s, c, e, t);
  }

  lemma RunExtends(ttl: nat, max: nat, states: seq<State>, events: seq<Event>, e: Event, t: State)
    requires IsRun(ttl, max, states, events) && Step(ttl, max, states[|events|], e, t)
    ensures IsRun(ttl, max, states + [t], events + [e])
  {
    var ss, es := states + [t], events + [e];
    forall i | 0 <= i < |es| ensures Step(ttl, max, ss[i], es[i], ss[i + 1]) {
      if i < |events| {
        assert Step(ttl, max, states[i], events[i], states[i + 1]);
      }
    }
  }

  lemma FollowsOn(
      commands: seq<Command>, states: seq<State>, events: seq<Event>, s: State, c: Command, e: Event, t: State)
    requires |states| == |events| + 1 && Follows(commands, states, events) && states[|events|] == s
    requires Enabled(s.waiting, c) && Does(e, c)
    ensures Follows(commands + [c], states + [t], events + [e])
  {
    assert (states + [t])[..|states|] == states && (events + [e])[..|events|] == events;
    assert (commands + [c])[..|commands|] == commands;
  }

  lemma Skipped(commands: seq<Command>, states: seq<State>, events: seq<Event>, c: Command)
    requires |states| == |events| + 1 && Follows(commands, states, events)
    requires !Enabled(states[|events|].waiting, c)
    ensures Follows(commands + [c], states, events)
  {
    assert (commands + [c])[..|commands|] == commands;
  }
}
