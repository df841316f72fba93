/** From the client's stream through reassembly, desync and relay to the bytes the upstream receives. */
module EndToEnd {
  import opened Bytes
  import opened Types
  import opened TlsParser
  import opened TlsStability
  import opened TlsRecords
  import opened SplitPositions
  import SplitPoints
  import opened RecordFrag
  import opened ServerView
  import opened Reassembly
  import RelaySession

  /** The action whose wire form the kept upstream received. */
  function KeptAction(
      first: RelaySession.Primary, attempts: seq<RelaySession.Attempt>, l: RelaySession.Link): Option<DesyncAction>
  {
    if l.id == 0 then Some(first.action) else if l.id <= |attempts| then attempts[l.id - 1].action else None
  }

  /** A session on the first message of the client's stream, with the pump reading the rest of that stream. */
  ghost predicate Session(
      stream: seq<Byte>, events: seq<Event>, original: seq<Byte>, first: RelaySession.Primary,
      attempts: seq<RelaySession.Attempt>, domainKnown: bool, r: RelaySession.Outcome, steps: seq<RelaySession.Step>)
  {
    && events != [] && FirstMessage(stream, events) == Ok(original)
    && RelaySession.Established(original, first, attempts, domainKnown, r) && r.Relaying?
    && original + RelaySession.Run(RelaySession.Start(r.link), steps).clientRead <= stream
  }

  /**
   * When the kept action sends the payload itself, in whatever pieces, the upstream receives a prefix
   * of exactly the client's stream, the first message whole, for every chunking of the reads, every
   * number of reconnects and every schedule.
   */
  lemma TransparentRelay(
      stream: seq<Byte>, events: seq<Event>, original: seq<Byte>, first: RelaySession.Primary,
      attempts: seq<RelaySession.Attempt>, domainKnown: bool, r: RelaySession.Outcome, steps: seq<RelaySession.Step>,
      action: DesyncAction)
    requires Session(stream, events, original, first, attempts, domainKnown, r, steps)
    requires KeptAction(first, attempts, r.link) == Some(action) && RelaySession.SendsPayload(action, original)
    ensures original <= RelaySession.Run(RelaySession.Start(r.link), steps).upOut <= stream
  {
    RelaySession.RelayIntegrity(original, first, attempts, domainKnown, r, steps);
  }

  /** The context for a first message that is a hello with SNI. */
  function ContextOf(original: seq<Byte>): PayloadContext
    requires Parse(original).HasSni()
  {
    PayloadContext(original, Parse(original).proto)
  }

  /** On a payload that is one whole record, the N-record technique always applies and keeps the parse. */
  lemma OneRecordFaithful(hello: seq<Byte>, pos: SplitPosition, n: nat, draw: nat)
    requires Parse(hello).HasSni() && |hello| == 5 + BodyLen(hello) && MIN_FRAGMENTS <= n <= BodyLen(hello)
    ensures var result := MultiStreamFrag(ContextOf(hello), pos, n, draw);
            result.Ok? && result.value.Replace? && Parse(result.value.data) == Parse(hello)
  {
    var ctx := ContextOf(hello);
    MultiStreamFragIsFaithful(ctx, pos, n, draw);
    DetectedHeader(ctx);
    PointsAreCuts(BodyLen(hello), Target(ctx, pos, draw, BodyLen(hello)), n);
    FragmentsParseTheSame(ctx, SplitPoints.SplitPointsOf(BodyLen(hello), Target(ctx, pos, draw, BodyLen(hello)), n));
  }

  /** A hello in one record is read whole, in whatever chunks it comes. */
  lemma OneRecordRead(record: Record, hello: seq<Byte>, events: seq<Event>)
    requires ExactHello([record]) && hello == EncodeRecord(record)
    requires |hello| <= MAX_FIRST_BUF && Prompt(events) && |events| >= |hello|
    ensures events != [] && FirstMessage(hello, events) == Ok(hello)
    ensures |hello| == 5 + BodyLen(hello) && BodyLen(hello) == |record.body|
  {
    EncodeOne(record);
    ChunkingIndependence([record], [], events);
    assert hello + [] == hello;
    RecordShape(hello, record, []);
  }

  /** The same for the two-record technique, wherever its position resolves. */
  lemma OneRecordFaithfulInTwo(hello: seq<Byte>, pos: SplitPosition, draw: nat)
    requires Parse(hello).HasSni() && |hello| == 5 + BodyLen(hello) && 2 <= BodyLen(hello)
    requires Resolve(ContextOf(hello), pos, draw).Some?
    ensures var result := TlsRecordFrag(ContextOf(hello), pos, draw);
            result.Ok? && result.value.Replace? && Parse(result.value.data) == Parse(hello)
  {
    var ctx := ContextOf(hello);
    TlsRecordFragIsFaithful(ctx, pos, draw);
    DetectedHeader(ctx);
    FragmentsParseTheSame(ctx, [DataOffset(Resolve(ctx, pos, draw).value, BodyLen(hello))]);
  }

  /** The first message is a hello with a name, and one of the two fragmenters made the action for it. */
  predicate SendsFragments(original: seq<Byte>, action: DesyncAction, pos: SplitPosition, n: nat, draw: nat) {
    && Parse(original).HasSni() && n >= MIN_FRAGMENTS
    && (MultiStreamFrag(ContextOf(original), pos, n, draw) == Ok(action)
        || TlsRecordFrag(ContextOf(original), pos, draw) == Ok(action))
  }

  /** The action sends records that carry exactly the data of the first record. */
  ghost predicate CarriesFirstBody(original: seq<Byte>, action: DesyncAction)
    requires |original| >= 5 + BodyLen(original)
  {
    exists rs :: AllSound(rs) && Payload(rs) == FirstBody(original) && action == Replace(Encode(rs))
  }

  lemma PiecesSent(ctx: PayloadContext, points: seq<nat>)
    requires Detected(ctx) && Applicable(ctx) && Cuts(points, BodyLen(ctx.payload))
    ensures CarriesFirstBody(ctx.payload, Fragmented(ctx.payload, points))
    ensures ParsesAsBefore(ctx, Fragmented(ctx.payload, points))
  {
    DetectedHeader(ctx);
    var p := ctx.payload;
    PiecesCarryData(p[1], p[2], FirstBody(p), points);
    var rs := Pieces(p[1], p[2], FirstBody(p), points);
    assert AllSound(rs) && Payload(rs) == FirstBody(p) && Fragmented(p, points) == Replace(Encode(rs));
    FragmentsParseTheSame(ctx, points);
  }

  lemma FragmentsCarry(original: seq<Byte>, action: DesyncAction, pos: SplitPosition, n: nat, draw: nat)
    requires SendsFragments(original, action, pos, n, draw)
    ensures |original| >= 5 + BodyLen(original) && CarriesFirstBody(original, action)
    ensures ParsesAsBefore(ContextOf(original), action)
  {
    var ctx, len := ContextOf(original), BodyLen(original);
    DetectedHeader(ctx);
    if MultiStreamFrag(ctx, pos, n, draw) == Ok(action) {
      PointsAreCuts(len, Target(ctx, pos, draw, len), n);
      PiecesSent(ctx, SplitPoints.SplitPointsOf(len, Target(ctx, pos, draw, len), n));
    } else {
      PiecesSent(ctx, [DataOffset(Resolve(ctx, pos, draw).value, len)]);
    }
  }

  /** A message that is one whole record always parses as before. */
  lemma WholeRecordParses(original: seq<Byte>, action: DesyncAction)
    requires Parse(original).HasSni() && |original| == 5 + BodyLen(original)
    requires ParsesAsBefore(ContextOf(original), action)
    ensures Parse(action.data) == Parse(original)
  {
    MessageFacts(ContextOf(original));
    ExtentInside(Message(ContextOf(original)));
  }

  lemma ExtentInside(h: seq<Byte>)
    requires ParseHandshake(h).HasSni() && HasExtensions(h)
    ensures Extent(h) <= |h|
  {
  }

  /**
   * A first message that is a hello, fragmented by either technique on whichever connection is kept, the
   * first or a fallback's: the upstream receives records that carry the data of the hello's first record, and
   * then a prefix of what follows the first message in the client's stream. This is the client's stream, with
   * other record headers in front, exactly when the first message is that one record: bytes of the first
   * message behind it are dropped.
   */
  lemma FragmentedHelloArrives(
      stream: seq<Byte>, events: seq<Event>, original: seq<Byte>, pos: SplitPosition, n: nat, draw: nat,
      first: RelaySession.Primary, attempts: seq<RelaySession.Attempt>, domainKnown: bool,
      r: RelaySession.Outcome, steps: seq<RelaySession.Step>, action: DesyncAction)
    requires Session(stream, events, original, first, attempts, domainKnown, r, steps)
    requires KeptAction(first, attempts, r.link) == Some(action) && SendsFragments(original, action, pos, n, draw)
    ensures original <= stream && 5 + BodyLen(original) <= |original| && action.Replace?
    ensures action.data <= RelaySession.Run(RelaySession.Start(r.link), steps).upOut <= action.data + stream[|original|..]
    ensures CarriesFirstBody(original, action) && ParsesAsBefore(ContextOf(original), action)
    ensures FirstBody(original) + stream[|original|..] == stream[5..] <==> |original| == 5 + BodyLen(original)
    ensures |original| == 5 + BodyLen(original) ==> Parse(action.data) == Parse(original)
  {
    var p := RelaySession.Run(RelaySession.Start(r.link), steps);
    FragmentsCarry(original, action, pos, n, draw);
    RelaySession.RelayIntegrity(original, first, attempts, domainKnown, r, steps);
    Behind(stream, original, p.clientRead, action.data);
    RestKept(stream, original, 5 + BodyLen(original));
    if |original| == 5 + BodyLen(original) {
      WholeRecordParses(original, action);
    }
  }

  lemma RestKept(stream: seq<Byte>, original: seq<Byte>, end: nat)
    requires original <= stream && 5 <= end <= |original|
    ensures original[5..end] + stream[|original|..] == stream[5..] <==> |original| == end
  {
    if |original| == end {
      assert stream[5..] == stream[5..end] + stream[end..];
      PrefixSlice(original, stream, 5, end);
    }
  }

  lemma Behind(stream: seq<Byte>, front: seq<Byte>, more: seq<Byte>, data: seq<Byte>)
    requires front + more <= stream
    ensures front <= stream && data + more <= data + stream[|front|..]
  {
    assert more <= stream[|front|..];
  }
}
