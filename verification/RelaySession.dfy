/** One relayed connection: establishing the upstream, then moving bytes both ways. */
module RelaySession {
  import opened Bytes
  import opened Types
  import opened Relay

  // ---------- Early failure detection ----------

  /** How the read in the detection window turns out; no bytes means end of stream. */
  datatype UpstreamRead = Bytes(data: seq<Byte>) | ConnectionReset | ConnectionAborted | OtherError | Expired

  datatype Early = Rst | Data(data: seq<Byte>) | Quiet | Transient

  function DetectEarly(r: UpstreamRead): Early {
    match r
    case Bytes(data) => if data == [] then Rst else Data(data)
    case ConnectionReset => Rst
    case ConnectionAborted => Rst
    case OtherError => Transient
    case Expired => Quiet
  }

  predicate ShouldRetry(action: DesyncAction, early: Early) {
    early.Rst? || (action.PassThrough? && early.Quiet?)
  }

  // ---------- The fallback chain ----------

  /** What the environment has ready for one fallback technique; no action means it errs. */
  datatype Attempt = Attempt(connects: bool, nodelay: bool, action: Option<DesyncAction>, room: nat, read: UpstreamRead)

  /** An upstream connection in use: 0 is the first one, `i + 1` that of fallback `i`. */
  datatype Link = Link(id: nat, sent: seq<Byte>, seed: seq<Byte>)

  /** The attempt gets as far as waiting for an early answer. */
  predicate Sends(a: Attempt, original: seq<Byte>) {
    a.connects && a.nodelay && a.action.Some? && |WireForm(a.action.value, original)| <= a.room
  }

  predicate Survives(a: Attempt, original: seq<Byte>) {
    Sends(a, original) && (DetectEarly(a.read).Data? || DetectEarly(a.read).Quiet?)
  }

  /** The bytes read from the attempt's connection. */
  function ReadFrom(a: Attempt, original: seq<Byte>): seq<Byte> {
    if Sends(a, original) && a.read.Bytes? then a.read.data else []
  }

  method TryFallbackChain(original: seq<Byte>, attempts: seq<Attempt>) returns (r: Option<Link>, reconnects: nat)
    ensures reconnects <= |attempts|
    ensures r.None? ==> forall j :: 0 <= j < reconnects ==> !Survives(attempts[j], original)
    ensures r.None? ==> reconnects == |attempts| || !attempts[reconnects].connects
    ensures r.Some? ==> Wins(original, attempts, r.value) && r.value.id == reconnects
  {
    var i := 0;
    while i < |attempts|
      invariant 0 <= i <= |attempts|
      invariant forall j :: 0 <= j < i ==> attempts[j].connects && !Survives(attempts[j], original)
    {
      var a := attempts[i];
      if !a.connects {
        return None, i;
      }
      if a.nodelay && a.action.Some? {
        var upstream := new Stream(a.room);
        var ok := upstream.ExecuteAction(a.action.value, original);
        if ok {
          assert upstream.sent == WireForm(a.action.value, original);
          match DetectEarly(a.read) {
            case Data(data) =>
              return Some(Link(i + 1, upstream.sent, data)), i + 1;
            case Quiet =>
              return Some(Link(i + 1, upstream.sent, [])), i + 1;
            case _ =>
          }
        }
      }
      i := i + 1;
    }
    return None, i;
  }

  /** The link is that of the first surviving attempt, all attempts before it having connected. */
  ghost predicate Wins(original: seq<Byte>, attempts: seq<Attempt>, l: Link) {
    && 0 < l.id <= |attempts|
    && Survives(attempts[l.id - 1], original)
    && l.sent == WireForm(attempts[l.id - 1].action.value, original)
    && l.seed == ReadFrom(attempts[l.id - 1], original)
    && forall j :: 0 <= j < l.id - 1 ==> attempts[j].connects && !Survives(attempts[j], original)
  }

  // ---------- Establishing the upstream ----------

  /** What the first connection does with the primary action. */
  datatype Primary = Primary(action: DesyncAction, room: nat, read: UpstreamRead)

  /** The relay gives up when the first send fails; otherwise it ends up with one link. */
  datatype Outcome = SendFailed | Relaying(link: Link, reconnects: nat, learned: bool)

  method Establish(original: seq<Byte>, first: Primary, attempts: seq<Attempt>, domainKnown: bool) returns (r: Outcome)
    ensures Established(original, first, attempts, domainKnown, r)
  {
    var upstream := new Stream(first.room);
    var ok := upstream.ExecuteAction(first.action, original);
    if !ok {
      return SendFailed;
    }
    assert upstream.sent == WireForm(first.action, original);
    var link := Link(0, upstream.sent, []);
    var reconnects: nat := 0;
    var learned := false;
    if attempts != [] {
      var early := DetectEarly(first.read);
      if early.Data? {
        link := Link(0, upstream.sent, early.data);
      } else if ShouldRetry(first.action, early) {
        var won;
        won, reconnects := TryFallbackChain(original, attempts);
        if won.Some? {
          link := won.value;
          learned := domainKnown;
        }
      }
    }
    return Relaying(link, reconnects, learned);
  }

  /** The first connection is given up for the fallback chain. */
  predicate Retries(first: Primary, attempts: seq<Attempt>) {
    attempts != [] && ShouldRetry(first.action, DetectEarly(first.read))
  }

  /** Some attempt survives before one fails to connect. */
  ghost predicate ChainSucceeds(original: seq<Byte>, attempts: seq<Attempt>) {
    exists i :: 0 <= i < |attempts| && Survives(attempts[i], original) && forall j :: 0 <= j < i ==> attempts[j].connects
  }

  /** The bytes read from the first connection while its outcome was awaited. */
  function FirstRead(first: Primary, attempts: seq<Attempt>): seq<Byte> {
    if attempts != [] && first.read.Bytes? then first.read.data else []
  }

  ghost predicate Established(original: seq<Byte>, first: Primary, attempts: seq<Attempt>, domainKnown: bool, r: Outcome) {
    && (r.SendFailed? <==> |WireForm(first.action, original)| > first.room)
    && (r.Relaying? ==>
          && r.reconnects <= |attempts|
          && (r.reconnects > 0 ==> Retries(first, attempts))
          && (r.link.id > 0 <==> Retries(first, attempts) && ChainSucceeds(original, attempts))
          && (r.link.id > 0 ==> Wins(original, attempts, r.link) && r.reconnects == r.link.id)
          && (r.link.id == 0 ==>
                && r.link.sent == WireForm(first.action, original) && r.link.seed == FirstRead(first, attempts)
                && forall j :: 0 <= j < r.reconnects ==> !Survives(attempts[j], original))
          && (r.learned <==> domainKnown && r.link.id > 0))
  }

  /** The bytes read from connection `id` before the pump starts. */
  function EarlyBytes(original: seq<Byte>, first: Primary, attempts: seq<Attempt>, id: nat): seq<Byte>
    requires id <= |attempts|
  {
    if id == 0 then FirstRead(first, attempts) else ReadFrom(attempts[id - 1], original)
  }

  /**
   * Of all connections tried, only the one kept was read from: its early bytes are the seed, and
   * it received the complete wire form of one action.
   */
  lemma OnlyTheLinkWasRead(
      original: seq<Byte>, first: Primary, attempts: seq<Attempt>, domainKnown: bool, r: Outcome)
    requires Established(original, first, attempts, domainKnown, r) && r.Relaying?
    ensures r.link.id <= r.reconnects <= |attempts|
    ensures r.link.seed == EarlyBytes(original, first, attempts, r.link.id)
    ensures forall id :: 0 <= id <= r.reconnects && id != r.link.id ==> EarlyBytes(original, first, attempts, id) == []
    ensures r.link.sent == WireForm(if r.link.id == 0 then first.action else attempts[r.link.id - 1].action.value, original)
  {
    forall id | 0 <= id <= r.reconnects && id != r.link.id
      ensures EarlyBytes(original, first, attempts, id) == []
    {
      if id > 0 {
        assert !Survives(attempts[id - 1], original);
      }
    }
  }

  /** What the first connection shows while its outcome is awaited speaks against it. */
  predicate LooksBlocked(first: Primary) {
    || first.read.ConnectionReset? || first.read.ConnectionAborted? || first.read == Bytes([])
    || (first.read.Expired? && first.action.PassThrough?)
  }

  /** The fallback gets its bytes out and is not cut off: bytes came back, or nothing until time was up. */
  predicate Answers(a: Attempt, original: seq<Byte>) {
    && a.connects && a.nodelay && a.action.Some? && |WireForm(a.action.value, original)| <= a.room
    && (a.read.Expired? || (a.read.Bytes? && a.read.data != []))
  }

  /**
   * The first connection is given up if and only if there are fallbacks, it looks blocked, and a fallback gets
   * through before one fails to connect; the first such fallback is kept, and the domain is learned.
   */
  lemma GivenUpExactly(
      original: seq<Byte>, first: Primary, attempts: seq<Attempt>, domainKnown: bool, r: Outcome)
    requires Established(original, first, attempts, domainKnown, r) && r.Relaying?
    ensures r.link.id <= |attempts|
    ensures r.link.id > 0 <==>
              && attempts != [] && LooksBlocked(first)
              && exists i :: 0 <= i < |attempts| && Answers(attempts[i], original)
                             && forall j :: 0 <= j < i ==> attempts[j].connects
    ensures r.link.id > 0 ==>
              && Answers(attempts[r.link.id - 1], original)
              && forall j :: 0 <= j < r.link.id - 1 ==> attempts[j].connects && !Answers(attempts[j], original)
    ensures r.reconnects > 0 ==> LooksBlocked(first)
    ensures r.learned <==> domainKnown && r.link.id > 0
  {
    forall i | 0 <= i < |attempts| ensures Answers(attempts[i], original) <==> Survives(attempts[i], original) {
    }
    assert attempts != [] ==> (Retries(first, attempts) <==> LooksBlocked(first));
    if r.link.id > 0 {
      assert Wins(original, attempts, r.link);
      assert Survives(attempts[r.link.id - 1], original);
    }
    if ChainSucceeds(original, attempts) {
      var i :| 0 <= i < |attempts| && Survives(attempts[i], original) && forall j :: 0 <= j < i ==> attempts[j].connects;
      assert Answers(attempts[i], original);
    }
    if i :| 0 <= i < |attempts| && Answers(attempts[i], original) && forall j :: 0 <= j < i ==> attempts[j].connects {
      assert Survives(attempts[i], original);
    }
  }

  // ---------- Moving bytes ----------

  /** The two directions; `toClient` and `toUpstream` are read but not yet written. */
  datatype Pump = Pump(
    clientOut: seq<Byte>, upRead: seq<Byte>, toClient: seq<Byte>,
    upOut: seq<Byte>, clientRead: seq<Byte>, toUpstream: seq<Byte>,
    seeded: bool, stopped: bool)

  /** One scheduling step; writes may be cut anywhere, and either side may end the relay. */
  datatype Step =
    | ReadUpstream(data: seq<Byte>)
    | WriteClient(n: nat)
    | ReadClient(data: seq<Byte>)
    | WriteUpstream(n: nat)
    | Stop

  /** The pump starts with the early bytes still to be flushed to the client. */
  function Start(l: Link): Pump {
    Pump([], l.seed, l.seed, l.sent, [], [], l.seed == [], false)
  }

  /** A step that is not enabled changes nothing. */
  function Next(p: Pump, step: Step): Pump {
    if p.stopped then p
    else match step
      case ReadUpstream(data) =>
        if p.seeded && p.toClient == [] then p.(upRead := p.upRead + data, toClient := data) else p
      case WriteClient(n) =>
        var w := Take(p.toClient, n);
        p.(clientOut := p.clientOut + w, toClient := p.toClient[|w|..], seeded := p.seeded || |w| == |p.toClient|)
      case ReadClient(data) =>
        if p.seeded && p.toUpstream == [] then p.(clientRead := p.clientRead + data, toUpstream := data) else p
      case WriteUpstream(n) =>
        var w := Take(p.toUpstream, n);
        p.(upOut := p.upOut + w, toUpstream := p.toUpstream[|w|..])
      case Stop => p.(stopped := true)
  }

  function Run(p: Pump, steps: seq<Step>): Pump
    decreases |steps|
  {
    if steps == [] then p else Run(Next(p, steps[0]), steps[1..])
  }

  /**
   * The pump moves bytes: first the early ones go to the client, and from then on whatever is read on one side
   * can be written to the other.
   */
  lemma PumpMoves(l: Link, p: Pump, data: seq<Byte>)
    ensures Run(Start(l), [WriteClient(|l.seed|)]).clientOut == l.seed
    ensures !p.stopped && p.seeded && p.toClient == [] ==>
              Run(p, [ReadUpstream(data), WriteClient(|data|)])
              == p.(upRead := p.upRead + data, clientOut := p.clientOut + data)
    ensures !p.stopped && p.seeded && p.toUpstream == [] ==>
              Run(p, [ReadClient(data), WriteUpstream(|data|)])
              == p.(clientRead := p.clientRead + data, upOut := p.upOut + data)
  {
    TwoSteps(p, ReadUpstream(data), WriteClient(|data|));
    TwoSteps(p, ReadClient(data), WriteUpstream(|data|));
    OneStep(Start(l), WriteClient(|l.seed|));
    assert Take(data, |data|) == data && data[|data|..] == [];
    assert [] + l.seed == l.seed && Take(l.seed, |l.seed|) == l.seed;
  }

  lemma OneStep(p: Pump, step: Step)
    ensures Run(p, [step]) == Next(p, step)
  {
    assert [step][1..] == [];
  }

  lemma TwoSteps(p: Pump, first: Step, second: Step)
    ensures Run(p, [first, second]) == Next(Next(p, first), second)
  {
    assert [first, second][1..] == [second];
    OneStep(Next(p, first), second);
  }

  /** Nothing is lost, repeated or reordered in either direction, and the early bytes go first. */
  ghost predicate Lossless(l: Link, p: Pump) {
    && p.clientOut + p.toClient == p.upRead && l.seed <= p.upRead
    && p.upOut + p.toUpstream == l.sent + p.clientRead && l.sent <= p.upOut
    && (!p.seeded ==> p.upRead == l.seed && p.clientRead == [])
  }

  lemma MoveFront(a: seq<Byte>, b: seq<Byte>, n: nat)
    ensures (a + Take(b, n)) + b[|Take(b, n)|..] == a + b
  {
  }

  lemma StepLossless(l: Link, p: Pump, step: Step)
    requires Lossless(l, p)
    ensures Lossless(l, Next(p, step))
  {
    match step {
      case ReadUpstream(data) =>
        Assoc(p.clientOut, p.toClient, data);
        assert p.clientOut + [] == p.clientOut;
      case WriteClient(n) =>
        MoveFront(p.clientOut, p.toClient, n);
      case ReadClient(data) =>
        Assoc(l.sent, p.clientRead, data);
        assert p.upOut + [] == p.upOut;
      case WriteUpstream(n) =>
        MoveFront(p.upOut, p.toUpstream, n);
      case Stop =>
    }
  }

  lemma {:induction false} RunLossless(l: Link, p: Pump, steps: seq<Step>)
    requires Lossless(l, p)
    ensures Lossless(l, Run(p, steps))
    decreases |steps|
  {
    if steps == [] {
    } else {
      StepLossless(l, p, steps[0]);
      RunLossless(l, Next(p, steps[0]), steps[1..]);
    }
  }

  /**
   * Relay integrity over every environment and every schedule: the client holds a prefix of what was
   * read from the one link, starting with its early bytes; the link received a prefix of the wire form
   * of one action on the first message followed by the rest of the client's stream, and always the
   * whole wire form. What was read and not yet written is all that is missing.
   */
  lemma RelayIntegrity(original: seq<Byte>, first: Primary, attempts: seq<Attempt>, domainKnown: bool,
                                          r: Outcome, steps: seq<Step>)
    requires Established(original, first, attempts, domainKnown, r) && r.Relaying?
    ensures r.link.id <= |attempts|
    ensures var p := Run(Start(r.link), steps);
            var action := if r.link.id == 0 then first.action else attempts[r.link.id - 1].action.value;
            && p.clientOut <= p.upRead && EarlyBytes(original, first, attempts, r.link.id) <= p.upRead
            && WireForm(action, original) <= p.upOut <= WireForm(action, original) + p.clientRead
            && (p.toClient == [] ==> p.clientOut == p.upRead)
            && (p.toUpstream == [] ==> p.upOut == WireForm(action, original) + p.clientRead)
  {
    OnlyTheLinkWasRead(original, first, attempts, domainKnown, r);
    var l := r.link;
    assert [] + l.seed == l.seed && l.sent + [] == l.sent;
    RunLossless(l, Start(l), steps);
  }

  /** The bytes of the payload itself, in order and alone. */
  predicate SendsPayload(action: DesyncAction, original: seq<Byte>) {
    WireForm(action, original) == original
  }

  /** Splitting a payload, or leaving it alone, keeps the client's stream as it is. */
  lemma SplitSendsPayload(original: seq<Byte>, cut: nat)
    requires cut <= |original|
    ensures SendsPayload(Split([original[..cut], original[cut..]]), original) && SendsPayload(PassThrough, original)
  {
    var chunks := [original[..cut], original[cut..]];
    var last := chunks[1..];
    assert last == [original[cut..]];
    assert Flatten(last) == original[cut..] + Flatten(last[1..]) && |last[1..]| == 0;
    assert Flatten(last) == original[cut..];
    assert original[..cut] + original[cut..] == original;
  }
}
