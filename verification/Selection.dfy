/** Choosing a strategy for a payload, and the set of domains learned to be blocked. */
module Selection {
  import opened Bytes
  import opened Types
  import opened Utf8

  datatype Filter = Any | Tls | Http | Quic

  datatype Technique = Technique(name: seq<Byte>, enabled: bool, filter: Option<Filter>)

  datatype Strategy = Strategy(name: seq<Byte>, techniques: seq<Technique>)

  datatype Rule = Rule(domains: seq<seq<Byte>>, strategy: seq<Byte>, priority: int)

  datatype Outcome = Applied(action: DesyncAction) | Inapplicable | Failed

  /** What each technique makes of the payload at hand. */
  type Runner = Technique -> Outcome

  const STAR: Byte := 42
  const COLON: Byte := 58

  // ---------- A strategy ----------

  predicate FilterMatches(f: Filter, protocol: AppProtocol) {
    f.Any?
    || (f.Tls? && protocol.TlsClientHello?)
    || (f.Http? && protocol.HttpRequest?)
    || (f.Quic? && protocol.QuicInitial?)
  }

  predicate Eligible(t: Technique, protocol: AppProtocol) {
    t.enabled && (t.filter.Some? ==> FilterMatches(t.filter.value, protocol))
  }

  function RunAll(ts: seq<Technique>, protocol: AppProtocol, run: Runner): Outcome {
    if ts == [] then Applied(PassThrough)
    else if Eligible(ts[0], protocol) && run(ts[0]) != Inapplicable then run(ts[0])
    else RunAll(ts[1..], protocol, run)
  }

  predicate Answers(t: Technique, protocol: AppProtocol, run: Runner) {
    Eligible(t, protocol) && run(t) != Inapplicable
  }

  /** The first technique with an answer, an error included, decides; without one the payload passes. */
  lemma {:induction false} FirstAnswerDecides(ts: seq<Technique>, protocol: AppProtocol, run: Runner, i: nat)
    requires i <= |ts| && forall j :: 0 <= j < i ==> !Answers(ts[j], protocol, run)
    requires i < |ts| ==> Answers(ts[i], protocol, run)
    ensures RunAll(ts, protocol, run) == if i < |ts| then run(ts[i]) else Applied(PassThrough)
  {
    if i > 0 {
      assert !Answers(ts[0], protocol, run);
      assert forall j :: 0 <= j < i - 1 ==> ts[1..][j] == ts[j + 1];
      FirstAnswerDecides(ts[1..], protocol, run, i - 1);
    }
  }

  method ApplyStrategy(s: Strategy, protocol: AppProtocol, run: Runner) returns (r: Outcome)
    ensures r == RunAll(s.techniques, protocol, run)
  {
    var ts := s.techniques;
    while ts != []
      invariant RunAll(ts, protocol, run) == RunAll(s.techniques, protocol, run)
      decreases |ts|
    {
      var tech := ts[0];
      ts := ts[1..];
      if !tech.enabled {
        continue;
      }
      if tech.filter.Some? && !FilterMatches(tech.filter.value, protocol) {
        continue;
      }
      r := run(tech);
      if r.Inapplicable? {
        continue;
      }
      return;
    }
    return Applied(PassThrough);
  }

  // ---------- Domain patterns ----------

  predicate DomainMatches(pattern: seq<Byte>, domain: seq<Byte>) {
    if pattern == [STAR] then true
    else if [STAR, DOT] <= pattern then
      var suffix := pattern[2..];
      && |domain| > |suffix| && domain[|domain| - |suffix| - 1] == DOT
      && EqIgnoreCase(domain[|domain| - |suffix|..], suffix)
    else EqIgnoreCase(pattern, domain)
  }

  /** A wildcard matches what ends in a dot and the suffix up to case, so never the suffix itself. */
  lemma WildcardMeaning(suffix: seq<Byte>, domain: seq<Byte>)
    ensures DomainMatches([STAR, DOT] + suffix, domain) <==>
              exists sub, tail :: domain == sub + ([DOT] + tail) && EqIgnoreCase(tail, suffix)
    ensures !DomainMatches([STAR, DOT] + suffix, suffix)
  {
    var pattern := [STAR, DOT] + suffix;
    assert pattern[2..] == suffix;
    if DomainMatches(pattern, domain) {
      var n := |domain| - |suffix|;
      assert domain == domain[..n - 1] + ([DOT] + domain[n..]);
    }
    if sub, tail :| domain == sub + ([DOT] + tail) && EqIgnoreCase(tail, suffix) {
      assert domain[|domain| - |suffix|..] == tail;
    }
  }

  /** Any other pattern matches a domain that differs from it at most in the case of ASCII letters. */
  lemma ExactMeaning(pattern: seq<Byte>, domain: seq<Byte>)
    requires pattern != Text("*") && !(Text("*.") <= pattern)
    ensures DomainMatches(pattern, domain) <==>
              |pattern| == |domain| && forall i :: 0 <= i < |pattern| ==> SameLetter(pattern[i], domain[i])
    ensures DomainMatches(Text("*"), domain)
  {
    assert Text("*") == [STAR] && Text("*.") == [STAR, DOT];
    if DomainMatches(pattern, domain) {
      forall i | 0 <= i < |pattern| ensures SameLetter(pattern[i], domain[i]) {
        assert Lower(pattern[i]) == Lower(domain[i]);
      }
    }
    if |pattern| == |domain| && forall i :: 0 <= i < |pattern| ==> SameLetter(pattern[i], domain[i]) {
      forall i | 0 <= i < |pattern| ensures Lower(pattern[i]) == Lower(domain[i]) {
        assert SameLetter(pattern[i], domain[i]);
      }
    }
  }

  /** The same byte, or the two cases of one letter. */
  predicate SameLetter(a: Byte, b: Byte) {
    a == b || (65 <= a <= 90 && b as int == a as int + 32) || (97 <= a <= 122 && a as int == b as int + 32)
  }

  predicate Matches(rule: Rule, domain: seq<Byte>) {
    exists i :: 0 <= i < |rule.domains| && DomainMatches(rule.domains[i], domain)
  }

  // ---------- Rules by priority ----------

  predicate Descending(rs: seq<Rule>) {
    forall i, j :: 0 <= i < j < |rs| ==> rs[i].priority >= rs[j].priority
  }

  function OfPriority(rs: seq<Rule>, p: int): seq<Rule> {
    if rs == [] then []
    else (if rs[0].priority == p then [rs[0]] else []) + OfPriority(rs[1..], p)
  }

  /** A stable sort, highest priority first: rules of equal priority keep their order. */
  ghost predicate StablySorted(before: seq<Rule>, after: seq<Rule>) {
    Descending(after) && forall p :: OfPriority(after, p) == OfPriority(before, p)
  }

  function Insert(r: Rule, rs: seq<Rule>): seq<Rule> {
    if rs == [] || r.priority >= rs[0].priority then [r] + rs else [rs[0]] + Insert(r, rs[1..])
  }

  function SortRules(rs: seq<Rule>): seq<Rule> {
    if rs == [] then [] else Insert(rs[0], SortRules(rs[1..]))
  }

  lemma OfPriorityHead(r: Rule, rs: seq<Rule>, p: int)
    ensures OfPriority([r] + rs, p) == (if r.priority == p then [r] else []) + OfPriority(rs, p)
  {
    assert ([r] + rs)[1..] == rs;
  }

  lemma {:induction false} InsertStable(r: Rule, rs: seq<Rule>, p: int)
    requires Descending(rs)
    ensures OfPriority(Insert(r, rs), p) == (if r.priority == p then [r] else []) + OfPriority(rs, p)
  {
    if rs == [] || r.priority >= rs[0].priority {
      OfPriorityHead(r, rs, p);
    } else {
      InsertStable(r, rs[1..], p);
      OfPriorityHead(rs[0], Insert(r, rs[1..]), p);
      if r.priority == p {
        assert [] + OfPriority(rs[1..], p) == OfPriority(rs[1..], p);
        assert [] + ([r] + OfPriority(rs[1..], p)) == [r] + OfPriority(rs[1..], p);
      } else {
        assert [] + OfPriority(rs[1..], p) == OfPriority(rs[1..], p);
      }
    }
  }

  lemma {:induction false} InsertDescends(r: Rule, rs: seq<Rule>)
    requires Descending(rs)
    ensures Descending(Insert(r, rs)) && Insert(r, rs) != []
    ensures Insert(r, rs)[0] == if rs == [] || r.priority >= rs[0].priority then r else rs[0]
  {
    if rs != [] && r.priority < rs[0].priority {
      InsertDescends(r, rs[1..]);
    }
  }

  lemma {:induction false} SortIsStable(rs: seq<Rule>)
    ensures StablySorted(rs, SortRules(rs))
  {
    if rs == [] {
    } else {
      SortIsStable(rs[1..]);
      InsertDescends(rs[0], SortRules(rs[1..]));
      forall p ensures OfPriority(SortRules(rs), p) == OfPriority(rs, p) {
        InsertStable(rs[0], SortRules(rs[1..]), p);
      }
    }
  }

  function FirstMatch(rs: seq<Rule>, domain: seq<Byte>): Option<Rule> {
    if rs == [] then None
    else if Matches(rs[0], domain) then Some(rs[0])
    else FirstMatch(rs[1..], domain)
  }

  /** Rule `i` wins among the configured rules: highest priority, then earliest. */
  ghost predicate Wins(config: seq<Rule>, domain: seq<Byte>, i: nat) {
    && i < |config| && Matches(config[i], domain)
    && forall j :: 0 <= j < |config| && Matches(config[j], domain) ==>
         config[j].priority < config[i].priority || (config[j].priority == config[i].priority && i <= j)
  }

  /** Within one priority the first match is the earliest matching rule of that priority. */
  lemma {:induction false} FirstOfPriority(rs: seq<Rule>, domain: seq<Byte>, p: int, i: nat)
    requires i <= |rs|
    requires forall j :: 0 <= j < i && rs[j].priority == p ==> !Matches(rs[j], domain)
    requires i < |rs| ==> rs[i].priority == p && Matches(rs[i], domain)
    ensures FirstMatch(OfPriority(rs, p), domain) == if i < |rs| then Some(rs[i]) else None
  {
    if rs == [] {
    } else {
      OfPriorityHead(rs[0], rs[1..], p);
      assert rs == [rs[0]] + rs[1..];
      var more := OfPriority(rs[1..], p);
      assert ([rs[0]] + more)[1..] == more && [] + more == more;
      if i > 0 {
        assert forall j :: 0 <= j < i - 1 ==> rs[1..][j] == rs[j + 1];
        FirstOfPriority(rs[1..], domain, p, i - 1);
      }
    }
  }

  lemma {:induction false} FirstMatchIndex(rs: seq<Rule>, domain: seq<Byte>) returns (i: nat)
    ensures i <= |rs| && forall j :: 0 <= j < i ==> !Matches(rs[j], domain)
    ensures i < |rs| ==> Matches(rs[i], domain)
    ensures FirstMatch(rs, domain) == if i < |rs| then Some(rs[i]) else None
  {
    if rs == [] || Matches(rs[0], domain) {
      i := 0;
    } else {
      var k := FirstMatchIndex(rs[1..], domain);
      i := k + 1;
      assert forall j :: 1 <= j < i ==> rs[j] == rs[1..][j - 1];
    }
  }

  /** The first match of a stably sorted list is the winner of the configured one, if any rule matches. */
  lemma FirstMatchWins(config: seq<Rule>, sorted: seq<Rule>, domain: seq<Byte>, i: nat)
    requires StablySorted(config, sorted) && Wins(config, domain, i)
    ensures FirstMatch(sorted, domain) == Some(config[i])
  {
    var p := config[i].priority;
    FirstOfPriority(config, domain, p, i);
    var k := FirstMatchIndex(sorted, domain);
    if k < |sorted| {
      var q := sorted[k].priority;
      FirstOfPriority(sorted, domain, q, k);
      assert OfPriority(sorted, q) == OfPriority(config, q);
      if q != p {
        PriorityMatches(config, domain, q);
        PriorityReached(sorted, domain, p, k);
      }
    } else {
      assert OfPriority(sorted, p) == OfPriority(config, p);
      FirstOfPriority(sorted, domain, p, |sorted|);
    }
  }

  /** A match among the rules of priority `p` is a match of such a rule. */
  lemma PriorityMatches(rs: seq<Rule>, domain: seq<Byte>, p: int)
    ensures FirstMatch(OfPriority(rs, p), domain).Some? ==>
              exists j :: 0 <= j < |rs| && rs[j].priority == p && Matches(rs[j], domain)
  {
    if forall j :: 0 <= j < |rs| && rs[j].priority == p ==> !Matches(rs[j], domain) {
      FirstOfPriority(rs, domain, p, |rs|);
    }
  }

  /** In a descending list the first match has the highest priority of all matches. */
  lemma PriorityReached(sorted: seq<Rule>, domain: seq<Byte>, p: int, k: nat)
    requires Descending(sorted) && k < |sorted| && forall j :: 0 <= j < k ==> !Matches(sorted[j], domain)
    requires p > sorted[k].priority
    ensures FirstMatch(OfPriority(sorted, p), domain) == None
  {
    forall j | 0 <= j < |sorted| && sorted[j].priority == p ensures !Matches(sorted[j], domain) {
    }
    FirstOfPriority(sorted, domain, p, |sorted|);
  }

  lemma NoMatchStays(config: seq<Rule>, sorted: seq<Rule>, domain: seq<Byte>)
    requires StablySorted(config, sorted) && forall i :: 0 <= i < |config| ==> !Matches(config[i], domain)
    ensures FirstMatch(sorted, domain) == None
  {
    var k := FirstMatchIndex(sorted, domain);
    if k < |sorted| {
      var q := sorted[k].priority;
      FirstOfPriority(sorted, domain, q, k);
      assert OfPriority(sorted, q) == OfPriority(config, q);
      FirstOfPriority(config, domain, q, |config|);
    }
  }

  // ---------- The selector ----------

  /** Strategies by name; a later one of the same name replaces an earlier one. */
  function ByName(ss: seq<Strategy>): map<seq<Byte>, Strategy> {
    if ss == [] then map[]
    else
      var n := |ss| - 1;
      ByName(ss[..n])[ss[n].name := ss[n]]
  }

  function Lookup(strategies: map<seq<Byte>, Strategy>, name: Option<seq<Byte>>): Option<Strategy> {
    if name.Some? && name.value in strategies then Some(strategies[name.value]) else None
  }

  function BeforeColon(s: seq<Byte>): seq<Byte> {
    if s == [] || s[0] == COLON then [] else [s[0]] + BeforeColon(s[1..])
  }

  function DomainOf(protocol: AppProtocol): Option<seq<Byte>> {
    match protocol
    case TlsClientHello(sni, _, _) => sni
    case HttpRequest(_, Some(host), _) => Some(BeforeColon(host))
    case _ => None
  }

  /** The domain of a payload: the SNI, or the host in front of its port; a payload of another kind has none. */
  lemma DomainMeaning(protocol: AppProtocol)
    ensures DomainOf(protocol).Some? <==>
              || (protocol.TlsClientHello? && protocol.sni.Some?) || (protocol.HttpRequest? && protocol.host.Some?)
    ensures protocol.TlsClientHello? ==> DomainOf(protocol) == protocol.sni
    ensures protocol.HttpRequest? && protocol.host.Some? ==>
              var host, domain := protocol.host.value, DomainOf(protocol).value;
              && 58 !in domain && domain <= host && (|domain| < |host| ==> host[|domain|] == 58)
  {
    if protocol.HttpRequest? && protocol.host.Some? {
      PortStripped(protocol.host.value);
    }
  }

  lemma {:induction false} PortStripped(s: seq<Byte>)
    ensures 58 !in BeforeColon(s) && BeforeColon(s) <= s
    ensures |BeforeColon(s)| < |s| ==> s[|BeforeColon(s)|] == 58
  {
    if s != [] && s[0] != COLON {
      PortStripped(s[1..]);
    }
  }

  /** Of the strategies with one name the last one in the list counts. */
  lemma {:induction false} LastOfName(ss: seq<Strategy>, i: nat)
    requires i < |ss| && forall j :: i < j < |ss| ==> ss[j].name != ss[i].name
    ensures ss[i].name in ByName(ss) && ByName(ss)[ss[i].name] == ss[i]
    decreases |ss|
  {
    var n := |ss| - 1;
    if i < n {
      LastOfName(ss[..n], i);
    }
  }

  /** A technique is run only when it is enabled and its filter, if any, is for all or for this kind of payload. */
  lemma EligibleMeaning(t: Technique, protocol: AppProtocol)
    ensures Eligible(t, protocol) <==>
              t.enabled && match t.filter
                           case None => true
                           case Some(Any) => true
                           case Some(Tls) => protocol.TlsClientHello?
                           case Some(Http) => protocol.HttpRequest?
                           case Some(Quic) => protocol.QuicInitial?
  {
  }

  class Selector {
    const strategies: map<seq<Byte>, Strategy>
    const rules: seq<Rule>
    const defaultStrategy: Option<seq<Byte>>
    const fallback: seq<Technique>
    var learned: set<seq<Byte>>

    constructor (ss: seq<Strategy>, config: seq<Rule>, dflt: Option<seq<Byte>>, retry: seq<Technique>)
      ensures StablySorted(config, rules) && strategies == ByName(ss)
      ensures defaultStrategy == dflt && fallback == retry && learned == {}
    {
      SortIsStable(config);
      rules := SortRules(config);
      strategies := ByName(ss);
      defaultStrategy := dflt;
      fallback := retry;
      learned := {};
    }

    method Learn(domain: seq<Byte>) returns (added: bool)
      modifies this
      ensures learned == old(learned) + {Lowered(domain)}
      ensures added <==> Lowered(domain) !in old(learned)
    {
      var key := Lowered(domain);
      added := key !in learned;
      learned := learned + {key};
    }

    method Select(domain: Option<seq<Byte>>) returns (s: Option<Strategy>)
      ensures s == Selected(strategies, rules, defaultStrategy, domain)
    {
      if domain.Some? {
        var left := rules;
        while left != []
          invariant FirstMatch(left, domain.value) == FirstMatch(rules, domain.value)
          decreases |left|
        {
          var rule := left[0];
          if exists i :: 0 <= i < |rule.domains| && DomainMatches(rule.domains[i], domain.value) {
            return Lookup(strategies, Some(rule.strategy));
          }
          left := left[1..];
        }
      }
      return Lookup(strategies, defaultStrategy);
    }

    method Apply(protocol: AppProtocol, run: Runner) returns (r: Outcome)
      ensures r == ActionFor(Selected(strategies, rules, defaultStrategy, DomainOf(protocol)),
                             fallback, learned, protocol, run)
    {
      var domain := DomainOf(protocol);
      var strategy := Select(domain);
      if strategy.Some? {
        r := ApplyStrategy(strategy.value, protocol, run);
        if r.Failed? {
          return;
        }
      } else {
        r := Applied(PassThrough);
      }
      if r == Applied(PassThrough) && domain.Some? {
        if fallback != [] && Lowered(domain.value) in learned {
          r := ApplyStrategy(Strategy([], [fallback[0]]), protocol, run);
        }
      }
    }
  }

  function Selected(
      strategies: map<seq<Byte>, Strategy>, rules: seq<Rule>, dflt: Option<seq<Byte>>, domain: Option<seq<Byte>>)
    : Option<Strategy>
  {
    if domain.Some? && FirstMatch(rules, domain.value).Some?
    then Lookup(strategies, Some(FirstMatch(rules, domain.value).value.strategy))
    else Lookup(strategies, dflt)
  }

  function Primary(strategy: Option<Strategy>, protocol: AppProtocol, run: Runner): Outcome {
    if strategy.None? then Applied(PassThrough) else RunAll(strategy.value.techniques, protocol, run)
  }

  function ActionFor(
      strategy: Option<Strategy>, fallback: seq<Technique>, learned: set<seq<Byte>>, protocol: AppProtocol, run: Runner)
    : Outcome
  {
    if Primary(strategy, protocol, run) == Applied(PassThrough) && DomainOf(protocol).Some?
       && fallback != [] && Lowered(DomainOf(protocol).value) in learned
    then RunAll([fallback[0]], protocol, run)
    else Primary(strategy, protocol, run)
  }

  /**
   * The strategy of the winning rule is selected, nothing if it is unknown; the default is for
   * payloads without a domain and domains no rule matches.
   */
  lemma SelectionRefinesPriority(
      strategies: map<seq<Byte>, Strategy>, config: seq<Rule>, rules: seq<Rule>,
      dflt: Option<seq<Byte>>, domain: seq<Byte>, i: nat)
    requires StablySorted(config, rules)
    ensures Wins(config, domain, i) ==>
              Selected(strategies, rules, dflt, Some(domain)) == Lookup(strategies, Some(config[i].strategy))
    ensures (forall j :: 0 <= j < |config| ==> !Matches(config[j], domain)) ==>
              Selected(strategies, rules, dflt, Some(domain)) == Lookup(strategies, dflt)
  {
    if Wins(config, domain, i) {
      FirstMatchWins(config, rules, domain, i);
    }
    if forall j :: 0 <= j < |config| ==> !Matches(config[j], domain) {
      NoMatchStays(config, rules, domain);
    }
  }

  /** When some rule matches, exactly one wins. */
  lemma SomeRuleWins(config: seq<Rule>, domain: seq<Byte>, m: nat) returns (i: nat)
    requires m < |config| && Matches(config[m], domain)
    ensures Wins(config, domain, i) && forall j :: Wins(config, domain, j) ==> j == i
  {
    var best := m;
    var k := 0;
    while k < |config|
      invariant 0 <= k <= |config| && 0 <= best < |config| && Matches(config[best], domain)
      invariant forall j :: 0 <= j < k && Matches(config[j], domain) ==> !Beats(config, j, best)
    {
      if Matches(config[k], domain) && Beats(config, k, best) {
        best := k;
      }
      k := k + 1;
    }
    i := best;
  }

  predicate Beats(config: seq<Rule>, j: nat, i: nat)
    requires i < |config| && j < |config|
  {
    config[j].priority > config[i].priority || (config[j].priority == config[i].priority && j < i)
  }

  // ---------- Learned domains ----------

  datatype Event = Learns(domain: seq<Byte>) | Applies(protocol: AppProtocol)

  function LearnedBy(events: seq<Event>): set<seq<Byte>> {
    if events == [] then {}
    else
      var n := |events| - 1;
      LearnedBy(events[..n]) + if events[n].Learns? then {Lowered(events[n].domain)} else {}
  }

  lemma {:induction false} LearnedStays(events: seq<Event>, i: nat)
    requires i < |events| && events[i].Learns?
    ensures Lowered(events[i].domain) in LearnedBy(events)
  {
    if i < |events| - 1 {
      LearnedStays(events[..|events| - 1], i);
    }
  }

  lemma LoweredUpToCase(a: seq<Byte>, b: seq<Byte>)
    ensures EqIgnoreCase(a, b) <==> Lowered(a) == Lowered(b)
  {
    if Lowered(a) == Lowered(b) {
      assert |a| == |b|;
      forall i | 0 <= i < |a| ensures Lower(a[i]) == Lower(b[i]) {
        assert Lowered(a)[i] == Lowered(b)[i];
      }
    }
  }

  /** Once a domain is learned, in any case, whatever would pass through for it gets the first fallback's result. */
  lemma HotStart(
      events: seq<Event>, i: nat, strategy: Option<Strategy>, fallback: seq<Technique>,
      protocol: AppProtocol, run: Runner, domain: seq<Byte>)
    requires i < |events| && events[i].Learns? && fallback != []
    requires DomainOf(protocol) == Some(domain) && EqIgnoreCase(domain, events[i].domain)
    ensures ActionFor(strategy, fallback, LearnedBy(events), protocol, run) ==
            if Primary(strategy, protocol, run) != Applied(PassThrough) then Primary(strategy, protocol, run)
            else if Answers(fallback[0], protocol, run) then run(fallback[0])
            else Applied(PassThrough)
  {
    LearnedStays(events, i);
    LoweredUpToCase(domain, events[i].domain);
    FirstAnswerDecides([fallback[0]], protocol, run, if Answers(fallback[0], protocol, run) then 0 else 1);
  }
}
