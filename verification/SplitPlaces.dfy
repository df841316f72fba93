/** Where the fragmenting techniques cut a hello, by the bytes of the payload. */
module SplitPlaces {
  import opened Bytes
  import opened Types
  import opened TlsParser
  import opened TlsRecords
  import opened SplitPositions
  import opened SplitPoints
  import opened RecordFrag
  import opened ServerView
  import Utf8

  /**
   * What a split position says: payload offset `x` in a hello with a name. A position built on a random one
   * depends on the offset `c` that was chosen.
   */
  ghost predicate PlacedAt(ctx: PayloadContext, pos: SplitPosition, c: nat, x: nat)
    requires HasSni(ctx)
    decreases pos
  {
    var len, o, name := |ctx.payload|, ctx.protocol.sniOffset, ctx.protocol.sni.value;
    match pos
    case Absolute(offset) => x == offset < len
    case Sni => x == o
    case SniOffset(delta) => x == o + delta && x < len
    case Random(min, max) => min <= c < max < len && x == c
    case SniExtStart => x + 9 == o && x < len
    case EndSld => o <= x < len && SldEnd(name, x - o)
    case MidSld => o <= x < len && SldMiddle(name, x - o)
    case OffsetFrom(marker, shift) => x < len && x - shift >= 0 && PlacedAt(ctx, marker, c, x - shift)
  }

  /** The second-level label ends at `end`. */
  ghost predicate SldEnd(name: seq<Byte>, end: nat) {
    exists start: nat :: IsSld(name, start, end)
  }

  /** The middle of the second-level label: the second half is as long as the first, or longer by one. */
  ghost predicate SldMiddle(name: seq<Byte>, mid: nat) {
    exists start: nat, end: nat :: IsSld(name, start, end) && start <= mid <= end && 0 <= (end - mid) - (mid - start) <= 1
  }

  /** The range a position built on a random one chooses from. */
  predicate InRange(pos: SplitPosition, c: nat) {
    match pos
    case Random(min, max) => min < max ==> min <= c < max
    case OffsetFrom(marker, _) => InRange(marker, c)
    case _ => true
  }

  // ---------- What is sent ----------

  /** Two records with the data of the first record of `p`, the second starting with byte `at` of `p`. */
  predicate TwoRecords(p: seq<Byte>, data: seq<Byte>, at: nat) {
    && |p| >= 5 + BodyLen(p) && 5 < at < 5 + BodyLen(p)
    && data == [22, p[1], p[2]] + U16Bytes(at - 5) + p[5..at]
             + ([22, p[1], p[2]] + U16Bytes(5 + BodyLen(p) - at) + p[at..5 + BodyLen(p)])
  }

  /** Records with the data of the first record of `p`, the last one starting with byte `at` of `p`. */
  ghost predicate LastStartsAt(p: seq<Byte>, data: seq<Byte>, n: nat, at: nat) {
    && |p| >= 5 + BodyLen(p) && 5 < at < 5 + BodyLen(p)
    && exists rs :: data == Encode(rs) && |rs| == Min(n, at - 4) && AllSound(rs) && LastRecordFrom(rs, FirstBody(p), at - 5)
  }

  /** Both techniques cut at payload offset `x`, kept away from both ends of the record. */
  ghost predicate CutsAt(ctx: PayloadContext, pos: SplitPosition, draw: nat, x: nat)
    requires BodyLen(ctx.payload) >= 2
  {
    var p, at := ctx.payload, Clamp(x, 6, 4 + BodyLen(ctx.payload));
    && TlsRecordFrag(ctx, pos, draw).Ok? && TlsRecordFrag(ctx, pos, draw).value.Replace?
    && TwoRecords(p, TlsRecordFrag(ctx, pos, draw).value.data, at)
    && forall n :: 2 <= n <= BodyLen(p) ==> FragmentsFrom(ctx, pos, n, draw, at)
  }

  ghost predicate FragmentsFrom(ctx: PayloadContext, pos: SplitPosition, n: nat, draw: nat, at: nat)
    requires n >= 2
  {
    && MultiStreamFrag(ctx, pos, n, draw).Ok? && MultiStreamFrag(ctx, pos, n, draw).value.Replace?
    && LastStartsAt(ctx.payload, MultiStreamFrag(ctx, pos, n, draw).value.data, n, at)
  }

  /** The two-record technique does not apply; the other one starts its last record in the middle of the data. */
  ghost predicate NoPlace(ctx: PayloadContext, pos: SplitPosition, draw: nat) {
    var middle := 5 + BodyLen(ctx.payload) / 2;
    && TlsRecordFrag(ctx, pos, draw) == Err(NotApplicable)
    && forall n :: 2 <= n <= BodyLen(ctx.payload) ==> FragmentsFrom(ctx, pos, n, draw, middle)
  }

  lemma TwoRecordsSent(ctx: PayloadContext, pos: SplitPosition, draw: nat, x: nat)
    requires Applicable(ctx) && 2 <= BodyLen(ctx.payload) && Resolve(ctx, pos, draw) == Some(x)
    ensures TlsRecordFrag(ctx, pos, draw).Ok? && TlsRecordFrag(ctx, pos, draw).value.Replace?
    ensures TwoRecords(ctx.payload, TlsRecordFrag(ctx, pos, draw).value.data, Clamp(x, 6, 4 + BodyLen(ctx.payload)))
  {
    DataOffsetAt(x, BodyLen(ctx.payload));
    TwoRecordsFrom(ctx.payload, BodyLen(ctx.payload), DataOffset(x, BodyLen(ctx.payload)));
  }

  lemma DataOffsetAt(x: nat, len: nat)
    requires len >= 2
    ensures 5 + DataOffset(x, len) == Clamp(x, 6, 4 + len)
  {
  }

  lemma TwoRecordsFrom(p: seq<Byte>, len: nat, cut: nat)
    requires 0 < cut < len && |p| >= 5 + len
    ensures Encode(Pieces(p[1], p[2], p[5..5 + len], [cut]))
            == [22, p[1], p[2]] + U16Bytes(cut) + p[5..5 + cut]
               + ([22, p[1], p[2]] + U16Bytes(len - cut) + p[5 + cut..5 + len])
  {
    TwoPieces(p[1], p[2], p[5..5 + len], cut);
    RecordBytes(p, 5, 5 + cut, 5 + len);
  }

  lemma RecordBytes(p: seq<Byte>, from: nat, at: nat, end: nat)
    requires 5 <= from <= at <= end <= |p|
    ensures [] + EncodeRecord(Record(p[1], p[2], p[from..end][..at - from]))
               + EncodeRecord(Record(p[1], p[2], p[from..end][at - from..end - from]))
            == [22, p[1], p[2]] + U16Bytes(at - from) + p[from..at] + ([22, p[1], p[2]] + U16Bytes(end - at) + p[at..end])
  {
    assert p[from..end][..at - from] == p[from..at] && p[from..end][at - from..end - from] == p[at..end];
  }

  lemma FragmentsSent(ctx: PayloadContext, pos: SplitPosition, n: nat, draw: nat, at: nat)
    requires Detected(ctx) && 2 <= n <= BodyLen(ctx.payload)
    requires at == 5 + Target(ctx, pos, draw, BodyLen(ctx.payload))
    ensures FragmentsFrom(ctx, pos, n, draw, at)
  {
    DetectedHeader(ctx);
    var p, len := ctx.payload, BodyLen(ctx.payload);
    PointsAreCuts(len, at - 5, n);
    RecordsFrom(p[1], p[2], FirstBody(p), n, at - 5, SplitPointsOf(len, at - 5, n));
  }

  lemma RecordsFrom(major: Byte, minor: Byte, data: seq<Byte>, n: nat, cut: nat, points: seq<nat>)
    requires VersionOk(major, minor) && |data| < 0x1_0000 && 2 <= n <= |data| && 0 < cut < |data|
    requires points == SplitPointsOf(|data|, cut, n) && Cuts(points, |data|)
    ensures var rs := Pieces(major, minor, data, points);
            |rs| == Min(n, cut + 1) && AllSound(rs) && LastRecordFrom(rs, data, cut)
  {
    PointsIncrease(cut, n - 1);
    LastPiece(major, minor, data, points);
    PiecesCarryData(major, minor, data, points);
  }

  lemma ResolvedCuts(ctx: PayloadContext, pos: SplitPosition, draw: nat, x: nat)
    requires Detected(ctx) && 2 <= BodyLen(ctx.payload) && Resolve(ctx, pos, draw) == Some(x)
    ensures CutsAt(ctx, pos, draw, x)
  {
    DetectedHeader(ctx);
    TwoRecordsSent(ctx, pos, draw, x);
    var at := Clamp(x, 6, 4 + BodyLen(ctx.payload));
    forall n | 2 <= n <= BodyLen(ctx.payload) ensures FragmentsFrom(ctx, pos, n, draw, at) {
      FragmentsSent(ctx, pos, n, draw, at);
    }
  }

  lemma UnresolvedCuts(ctx: PayloadContext, pos: SplitPosition, draw: nat)
    requires Detected(ctx) && Resolve(ctx, pos, draw) == None
    ensures NoPlace(ctx, pos, draw)
  {
    var at := 5 + BodyLen(ctx.payload) / 2;
    forall n | 2 <= n <= BodyLen(ctx.payload) ensures FragmentsFrom(ctx, pos, n, draw, at) {
      FragmentsSent(ctx, pos, n, draw, at);
    }
  }

  // ---------- Positions ----------

  /** The outcome of the generator stands for the choice `c`. */
  predicate Chooses(pos: SplitPosition, draw: nat, c: nat) {
    match pos
    case Random(min, max) => min < max ==> c == min + draw % (max - min)
    case OffsetFrom(marker, _) => Chooses(marker, draw, c)
    case _ => true
  }

  lemma {:induction false} ResolvesToPlace(ctx: PayloadContext, pos: SplitPosition, draw: nat, c: nat, x: nat)
    requires HasSni(ctx) && Chooses(pos, draw, c)
    ensures Resolve(ctx, pos, draw) == Some(x) <==> PlacedAt(ctx, pos, c, x)
    decreases pos
  {
    match pos {
      case EndSld => EndOfSld(ctx, draw, c, x);
      case MidSld => MiddleOfSld(ctx, draw, c, x);
      case OffsetFrom(marker, shift) =>
        if Resolve(ctx, marker, draw).Some? {
          ResolvesToPlace(ctx, marker, draw, c, Resolve(ctx, marker, draw).value);
        }
        if x - shift >= 0 {
          ResolvesToPlace(ctx, marker, draw, c, x - shift);
        }
      case _ =>
    }
  }

  lemma EndOfSld(ctx: PayloadContext, draw: nat, c: nat, x: nat)
    requires HasSni(ctx)
    ensures Resolve(ctx, EndSld, draw) == Some(x) <==> PlacedAt(ctx, EndSld, c, x)
  {
    var name := ctx.protocol.sni.value;
    if PlacedAt(ctx, EndSld, c, x) {
      var end := x - ctx.protocol.sniOffset;
      var start: nat :| IsSld(name, start, end);
      SldRangeComplete(name, start, end);
    }
  }

  lemma MiddleOfSld(ctx: PayloadContext, draw: nat, c: nat, x: nat)
    requires HasSni(ctx)
    ensures Resolve(ctx, MidSld, draw) == Some(x) <==> PlacedAt(ctx, MidSld, c, x)
  {
    var name := ctx.protocol.sni.value;
    if PlacedAt(ctx, MidSld, c, x) {
      MiddleIsPlace(name, x - ctx.protocol.sniOffset);
    }
    if Resolve(ctx, MidSld, draw) == Some(x) {
      PlaceIsMiddle(name, x - ctx.protocol.sniOffset);
    }
  }

  lemma MiddleIsPlace(name: seq<Byte>, mid: nat)
    requires SldMiddle(name, mid)
    ensures SldRange(name).Some?
    ensures var range := SldRange(name).value; mid == range.0 + (range.1 - range.0) / 2
  {
    var start: nat, end: nat :|
      IsSld(name, start, end) && start <= mid <= end && 0 <= (end - mid) - (mid - start) <= 1;
    SldRangeComplete(name, start, end);
  }

  lemma PlaceIsMiddle(name: seq<Byte>, mid: nat)
    requires SldRange(name).Some?
    requires var range := SldRange(name).value; mid == range.0 + (range.1 - range.0) / 2
    ensures SldMiddle(name, mid)
  {
    var range := SldRange(name).value;
    assert IsSld(name, range.0, range.1);
  }

  lemma {:induction false} SomeChoice(pos: SplitPosition, draw: nat) returns (c: nat)
    ensures Chooses(pos, draw, c) && InRange(pos, c)
    decreases pos
  {
    match pos {
      case Random(min, max) => c := if min < max then min + draw % (max - min) else 0;
      case OffsetFrom(marker, _) => c := SomeChoice(marker, draw);
      case _ => c := 0;
    }
  }

  lemma SmallDraw(draw: nat, n: nat)
    requires draw < n
    ensures draw % n == draw
  {
  }

  lemma {:induction false} SomeDraw(pos: SplitPosition, c: nat) returns (draw: nat)
    requires InRange(pos, c)
    ensures Chooses(pos, draw, c)
    decreases pos
  {
    match pos {
      case Random(min, max) =>
        draw := if min < max then c - min else 0;
        if min < max {
          SmallDraw(draw, max - min);
        }
      case OffsetFrom(marker, _) => draw := SomeDraw(marker, c);
      case _ => draw := 0;
    }
  }

  /** The techniques do what the position says, for the choice `c`. */
  ghost predicate DoesAsSaid(ctx: PayloadContext, pos: SplitPosition, draw: nat, c: nat)
    requires HasSni(ctx) && BodyLen(ctx.payload) >= 2
  {
    && (forall x :: PlacedAt(ctx, pos, c, x) ==> CutsAt(ctx, pos, draw, x))
    && ((forall x :: !PlacedAt(ctx, pos, c, x)) ==> NoPlace(ctx, pos, draw))
  }

  lemma AsSaid(ctx: PayloadContext, pos: SplitPosition, draw: nat, c: nat)
    requires Detected(ctx) && 2 <= BodyLen(ctx.payload) && Chooses(pos, draw, c)
    ensures DoesAsSaid(ctx, pos, draw, c)
  {
    forall x | PlacedAt(ctx, pos, c, x) ensures CutsAt(ctx, pos, draw, x) {
      ResolvesToPlace(ctx, pos, draw, c, x);
      ResolvedCuts(ctx, pos, draw, x);
    }
    if forall x :: !PlacedAt(ctx, pos, c, x) {
      if Resolve(ctx, pos, draw).Some? {
        ResolvesToPlace(ctx, pos, draw, c, Resolve(ctx, pos, draw).value);
      }
      UnresolvedCuts(ctx, pos, draw);
    }
  }

  /**
   * Every position, on every detected hello: whatever the generator draws, the techniques cut where the position
   * says for one of the offsets it may choose.
   */
  lemma CutsWhereSaid(ctx: PayloadContext, pos: SplitPosition, draw: nat) returns (c: nat)
    requires Detected(ctx) && 2 <= BodyLen(ctx.payload)
    ensures InRange(pos, c) && DoesAsSaid(ctx, pos, draw, c)
  {
    c := SomeChoice(pos, draw);
    AsSaid(ctx, pos, draw, c);
  }

  /** And every offset it may choose is chosen for some outcome of the generator. */
  lemma EveryChoiceDrawn(ctx: PayloadContext, pos: SplitPosition, c: nat) returns (draw: nat)
    requires Detected(ctx) && 2 <= BodyLen(ctx.payload) && InRange(pos, c)
    ensures DoesAsSaid(ctx, pos, draw, c)
  {
    draw := SomeDraw(pos, c);
    AsSaid(ctx, pos, draw, c);
  }

  /**
   * With the name in the first record, `SniOffset(delta)` ends the first of the two records exactly `delta` bytes
   * behind the first byte of the name, as long as that leaves both records a byte. The technique does not
   * apply exactly when this is outside the payload.
   */
  lemma SniOffsetCut(ctx: PayloadContext, delta: int, draw: nat)
    requires SniInFirstRecord(ctx)
    ensures HasSni(ctx) && ctx.protocol.sniOffset + ctx.protocol.sniLen <= |ctx.payload|
    ensures ctx.protocol.sni.value == Utf8.Lossy(SniBytes(ctx))
    ensures var at, r := ctx.protocol.sniOffset + delta, TlsRecordFrag(ctx, SniOffset(delta), draw);
            && (r.Err? <==> at < 0 || at >= |ctx.payload|)
            && (r.Ok? && 5 < at < 5 + BodyLen(ctx.payload) ==>
                  r.value.Replace? && TwoRecords(ctx.payload, r.value.data, at))
  {
    SniPosition(ctx);
    SniIsItsBytes(ctx);
    OffsetCut(ctx, delta, draw);
  }

  lemma OffsetCut(ctx: PayloadContext, delta: int, draw: nat)
    requires Detected(ctx) && BodyLen(ctx.payload) >= 2
    ensures var at, r := ctx.protocol.sniOffset + delta, TlsRecordFrag(ctx, SniOffset(delta), draw);
            && (r.Err? <==> at < 0 || at >= |ctx.payload|)
            && (r.Ok? && 5 < at < 5 + BodyLen(ctx.payload) ==>
                  r.value.Replace? && TwoRecords(ctx.payload, r.value.data, at))
  {
    var at := ctx.protocol.sniOffset + delta;
    AsSaid(ctx, SniOffset(delta), draw, 0);
    if 0 <= at < |ctx.payload| {
      assert PlacedAt(ctx, SniOffset(delta), 0, at);
    } else {
      assert forall x: nat :: !PlacedAt(ctx, SniOffset(delta), 0, x);
    }
  }
}
