/** What the server still sees after a hello has been fragmented. */
module ServerView {
  import opened Bytes
  import opened Types
  import opened TlsParser
  import opened TlsStability
  import opened TlsRecords
  import opened SplitPositions
  import opened SplitPoints
  import opened RecordFrag
  import Utf8

  // ---------- The reported SNI offset ----------

  /** The status carries the SNI found in `s`, whose first byte has wire offset `wire`. */
  predicate SniWithin(st: ParseStatus, s: seq<Byte>, wire: nat) {
    && st.HasSni() && wire <= st.proto.sniOffset && st.proto.sniOffset - wire + st.proto.sniLen <= |s|
    && st.proto.sni.value == Utf8.Lossy(s[st.proto.sniOffset - wire..st.proto.sniOffset - wire + st.proto.sniLen])
  }

  lemma WithinWindow(st: ParseStatus, h: seq<Byte>, from: nat, to: nat, wire: nat)
    requires from <= to <= |h| && SniWithin(st, h[from..to], wire + from)
    ensures SniWithin(st, h, wire)
  {
    var o := st.proto.sniOffset - (wire + from);
    Window(h, from, to, o, o + st.proto.sniLen);
  }

  lemma WithinPrefix(st: ParseStatus, a: seq<Byte>, h: seq<Byte>, wire: nat)
    requires a <= h && SniWithin(st, h, wire) && st.proto.sniOffset - wire + st.proto.sniLen <= |a|
    ensures SniWithin(st, a, wire)
  {
    var o := st.proto.sniOffset - wire;
    PrefixSlice(a, h, o, o + st.proto.sniLen);
  }

  lemma {:induction false} NameBounds(ext: seq<Byte>, pos: nat, wire: nat)
    requires FindName(ext, pos, wire).HasSni()
    ensures SniWithin(FindName(ext, pos, wire), ext, wire)
    ensures FindName(ext, pos, wire).proto.sniOffset >= wire + pos + 3
    decreases |ext| - pos
  {
    if ext[pos] != 0 {
      NameBounds(ext, pos + 3 + Word(ext, pos + 1), wire);
    }
  }

  lemma {:induction false} SniBounds(h: seq<Byte>, pos: nat, end: nat)
    requires end <= |h| && FindSni(h, pos, end).HasSni()
    ensures SniWithin(FindSni(h, pos, end), h, 5)
    ensures FindSni(h, pos, end).proto.sniOffset >= 5 + pos + 9
    decreases end - pos
  {
    var len, body := Word(h, pos + 2), pos + 4;
    if Word(h, pos) == 0 {
      NameBounds(h[body..body + len], 2, 5 + body);
      WithinWindow(FindSni(h, pos, end), h, body, body + len, 5);
    } else {
      SniBounds(h, body + len, end);
    }
  }

  /** The reported bytes are the SNI: position `sniOffset - 5` of the handshake, `sniLen` long. */
  lemma HandshakeSni(h: seq<Byte>)
    requires ParseHandshake(h).HasSni()
    ensures SniWithin(ParseHandshake(h), h, 5) && ParseHandshake(h).proto.sniOffset >= 5 + 15
  {
    var pos := HelloEnd(h).pos;
    WalkAdvances(h, 4, VERSION);
    SniOfExtensions(h, pos);
  }

  lemma SniOfExtensions(h: seq<Byte>, pos: nat)
    requires ParseExtensions(h, pos).HasSni()
    ensures SniWithin(ParseExtensions(h, pos), h, 5) && ParseExtensions(h, pos).proto.sniOffset >= 5 + pos + 11
  {
    SniBounds(h, pos + 2, pos + 2 + Word(h, pos));
  }

  /** Where handshake byte `q` travels on the wire. */
  function WirePosition(rs: seq<Record>, q: nat): nat
    requires q < |Payload(rs)|
  {
    if q < |rs[0].body| then 5 + q
    else 5 + |rs[0].body| + WirePosition(rs[1..], q - |rs[0].body|)
  }

  lemma {:induction false} WirePositionIsTrue(rs: seq<Record>, q: nat)
    requires q < |Payload(rs)|
    ensures WirePosition(rs, q) < |Encode(rs)| && Encode(rs)[WirePosition(rs, q)] == Payload(rs)[q]
    ensures WirePosition(rs, q) >= 5 + q
    decreases |rs|
  {
    var r := rs[0];
    assert Encode(rs) == EncodeRecord(r) + Encode(rs[1..]);
    if q >= |r.body| {
      WirePositionIsTrue(rs[1..], q - |r.body|);
    }
  }

  /** The offset the parser reports is the wire position of that byte exactly in the first record. */
  lemma OffsetTrueIffFirstRecord(rs: seq<Record>, q: nat)
    requires q < |Payload(rs)|
    ensures WirePosition(rs, q) == 5 + q <==> q < |rs[0].body|
  {
    if q >= |rs[0].body| {
      WirePositionIsTrue(rs[1..], q - |rs[0].body|);
    }
  }

  // ---------- Fragmented hellos ----------

  /** The context a payload with a ClientHello and SNI is given. */
  predicate Detected(ctx: PayloadContext) {
    Parse(ctx.payload).HasSni() && ctx.protocol == Parse(ctx.payload).proto
  }

  /** The body of the first record. */
  function FirstBody(p: seq<Byte>): seq<Byte>
    requires |p| >= 5 + BodyLen(p)
  {
    p[5..5 + BodyLen(p)]
  }

  lemma DetectedHeader(ctx: PayloadContext)
    requires Detected(ctx)
    ensures Applicable(ctx) && 0 < BodyLen(ctx.payload) <= MAX_TLS_RECORD
    ensures VersionOk(ctx.payload[1], ctx.payload[2])
    ensures Gather(ctx.payload, 5 + BodyLen(ctx.payload), FirstBody(ctx.payload)).Whole?
  {
    CompleteHeader(ctx.payload);
  }

  /** The whole handshake the payload's records carry. */
  function Message(ctx: PayloadContext): seq<Byte>
    requires Detected(ctx)
  {
    DetectedHeader(ctx);
    Gather(ctx.payload, 5 + BodyLen(ctx.payload), FirstBody(ctx.payload)).handshake
  }

  lemma MessageFacts(ctx: PayloadContext)
    requires Detected(ctx)
    ensures Parse(ctx.payload) == ParseHandshake(Message(ctx))
    ensures |ctx.payload| >= 5 + BodyLen(ctx.payload) && FirstBody(ctx.payload) <= Message(ctx)
    ensures |ctx.payload| == 5 + BodyLen(ctx.payload) ==> Message(ctx) == FirstBody(ctx.payload)
  {
    DetectedHeader(ctx);
    GatherBound(ctx.payload, 5 + BodyLen(ctx.payload), FirstBody(ctx.payload));
  }

  /** Whatever the cuts, the server parses the handshake bytes of the first record. */
  lemma ServerSeesFirstRecord(ctx: PayloadContext, points: seq<nat>)
    requires Detected(ctx) && Applicable(ctx) && Cuts(points, BodyLen(ctx.payload))
    ensures Parse(Fragmented(ctx.payload, points).data) == ParseHandshake(FirstBody(ctx.payload))
    ensures |Fragmented(ctx.payload, points).data| == 5 * (|points| + 1) + BodyLen(ctx.payload)
  {
    var p := ctx.payload;
    DetectedHeader(ctx);
    PiecesCarryData(p[1], p[2], FirstBody(p), points);
    var rs := Pieces(p[1], p[2], FirstBody(p), points);
    assert Encode(rs) + [] == Encode(rs);
    FragmentationInvariance(rs, []);
  }

  /**
   * The fragments parse as the original did exactly when the message and its extension
   * block, by their own length fields, lie in the first record.
   */
  lemma FragmentsParseTheSame(ctx: PayloadContext, points: seq<nat>)
    requires Detected(ctx) && Applicable(ctx) && Cuts(points, BodyLen(ctx.payload))
    ensures HasExtensions(Message(ctx))
    ensures Parse(Fragmented(ctx.payload, points).data) == Parse(ctx.payload)
            <==> Extent(Message(ctx)) <= BodyLen(ctx.payload)
    ensures |ctx.payload| == 5 + BodyLen(ctx.payload) ==>
              Parse(Fragmented(ctx.payload, points).data) == Parse(ctx.payload)
  {
    ServerSeesFirstRecord(ctx, points);
    MessageFacts(ctx);
    TruncationExact(FirstBody(ctx.payload), Message(ctx));
  }

  /** The action sends something that parses as the payload does, if and only if the hello is short enough. */
  predicate ParsesAsBefore(ctx: PayloadContext, action: DesyncAction)
    requires Detected(ctx)
  {
    && action.Replace? && HasExtensions(Message(ctx))
    && (Parse(action.data) == Parse(ctx.payload) <==> Extent(Message(ctx)) <= BodyLen(ctx.payload))
  }

  /** Both techniques are instances; they apply to a detected hello exactly when it is long enough. */
  lemma MultiStreamFragIsFaithful(ctx: PayloadContext, pos: SplitPosition, n: nat, draw: nat)
    requires Detected(ctx) && n >= MIN_FRAGMENTS
    ensures var r := MultiStreamFrag(ctx, pos, n, draw);
            && (r.Ok? <==> n <= BodyLen(ctx.payload))
            && (r.Ok? ==> ParsesAsBefore(ctx, r.value))
  {
    DetectedHeader(ctx);
    var len := BodyLen(ctx.payload);
    if n <= len {
      PointsAreCuts(len, Target(ctx, pos, draw, len), n);
      FragmentsParseTheSame(ctx, SplitPointsOf(len, Target(ctx, pos, draw, len), n));
    }
  }

  lemma TlsRecordFragIsFaithful(ctx: PayloadContext, pos: SplitPosition, draw: nat)
    requires Detected(ctx)
    ensures var r := TlsRecordFrag(ctx, pos, draw);
            && (r.Ok? <==> 2 <= BodyLen(ctx.payload) && Resolve(ctx, pos, draw).Some?)
            && (r.Ok? ==> ParsesAsBefore(ctx, r.value))
  {
    DetectedHeader(ctx);
    var len := BodyLen(ctx.payload);
    if 2 <= len && Resolve(ctx, pos, draw).Some? {
      TwoPiecesParse(ctx, DataOffset(Resolve(ctx, pos, draw).value, len));
    }
  }

  lemma TwoPiecesParse(ctx: PayloadContext, cut: nat)
    requires Detected(ctx) && Applicable(ctx) && 0 < cut < BodyLen(ctx.payload)
    ensures ParsesAsBefore(ctx, Fragmented(ctx.payload, [cut]))
  {
    FragmentsParseTheSame(ctx, [cut]);
  }

  /** The two-record technique is the case of two fragments, unless the position does not resolve. */
  lemma TwoFragments(ctx: PayloadContext, pos: SplitPosition, draw: nat)
    ensures MultiStreamFrag(ctx, pos, 2, draw) == TlsRecordFrag(ctx, pos, draw)
            <==> Resolve(ctx, pos, draw).Some? || !Applicable(ctx) || BodyLen(ctx.payload) < 2
  {
    var len := BodyLen(ctx.payload);
    if len >= 2 {
      var s := Target(ctx, pos, draw, len);
      EvenEnds(s, 1);
      assert SplitPointsOf(len, s, 2) == [s];
    }
  }

  /** The SNI, non-empty, lies inside the first record. */
  predicate SniInFirstRecord(ctx: PayloadContext) {
    && Detected(ctx) && ctx.protocol.sniLen > 0
    && ctx.protocol.sniOffset + ctx.protocol.sniLen <= 5 + BodyLen(ctx.payload)
  }

  /** The last record starts at `cut`, the records before it carry exactly the data in front. */
  predicate LastRecordFrom(rs: seq<Record>, data: seq<Byte>, cut: nat) {
    && |rs| > 0 && cut <= |data|
    && Payload(rs[..|rs| - 1]) == data[..cut] && rs[|rs| - 1].body == data[cut..]
  }

  lemma LastPiece(major: Byte, minor: Byte, data: seq<Byte>, points: seq<nat>)
    requires Cuts(points, |data|) && |points| > 0
    ensures LastRecordFrom(Pieces(major, minor, data, points), data, points[|points| - 1])
  {
    PiecesUpTo(major, minor, data, points, |points|);
  }

  lemma SniPosition(ctx: PayloadContext)
    requires SniInFirstRecord(ctx)
    ensures Applicable(ctx) && 15 <= ctx.protocol.sniOffset - 5 < BodyLen(ctx.payload)
    ensures SniWithin(Parse(ctx.payload), FirstBody(ctx.payload), 5) && Parse(ctx.payload) == Complete(ctx.protocol)
  {
    DetectedHeader(ctx);
    MessageFacts(ctx);
    HandshakeSni(Message(ctx));
    WithinPrefix(Parse(ctx.payload), FirstBody(ctx.payload), Message(ctx), 5);
  }

  /** The cuts for position `Sni`. */
  function SniCuts(ctx: PayloadContext, n: nat): (points: seq<nat>)
    requires n >= MIN_FRAGMENTS && BodyLen(ctx.payload) >= 2 && HasSni(ctx)
  {
    SplitPointsOf(BodyLen(ctx.payload), DataOffset(ctx.protocol.sniOffset, BodyLen(ctx.payload)), n)
  }

  lemma SniCutsFacts(ctx: PayloadContext, n: nat, draw: nat)
    requires Applicable(ctx) && 0 < ctx.protocol.sniOffset - 5 < BodyLen(ctx.payload)
    requires MIN_FRAGMENTS <= n <= BodyLen(ctx.payload)
    ensures var points, o := SniCuts(ctx, n), ctx.protocol.sniOffset - 5;
            && Cuts(points, BodyLen(ctx.payload)) && |points| == Min(n - 1, o)
            && |points| > 0 && points[|points| - 1] == o
            && MultiStreamFrag(ctx, Sni, n, draw) == Ok(Fragmented(ctx.payload, points))
  {
    var len, o := BodyLen(ctx.payload), ctx.protocol.sniOffset - 5;
    PointsAreCuts(len, o, n);
    PointsIncrease(o, n - 1);
  }

  /**
   * Cutting at the SNI: however many fragments, the last record starts with the whole SNI and
   * no byte of it is in an earlier record. There are `n` records, fewer only if the SNI starts
   * before byte `n - 1`.
   */
  lemma SniOnlyInLastRecord(ctx: PayloadContext, n: nat, draw: nat)
    requires SniInFirstRecord(ctx) && MIN_FRAGMENTS <= n <= BodyLen(ctx.payload)
    ensures Applicable(ctx) && Cuts(SniCuts(ctx, n), BodyLen(ctx.payload))
    ensures MultiStreamFrag(ctx, Sni, n, draw) == Ok(Fragmented(ctx.payload, SniCuts(ctx, n)))
    ensures |SniCuts(ctx, n)| + 1 == Min(n, ctx.protocol.sniOffset - 4)
    ensures LastRecordFrom(Pieces(ctx.payload[1], ctx.payload[2], FirstBody(ctx.payload), SniCuts(ctx, n)),
                           FirstBody(ctx.payload), ctx.protocol.sniOffset - 5)
  {
    SniPosition(ctx);
    SniCutsFacts(ctx, n, draw);
    LastPiece(ctx.payload[1], ctx.payload[2], FirstBody(ctx.payload), SniCuts(ctx, n));
  }

  // ---------- The name on the wire ----------

  /** The bytes of the SNI in the payload. */
  function SniBytes(ctx: PayloadContext): seq<Byte>
    requires HasSni(ctx) && ctx.protocol.sniOffset + ctx.protocol.sniLen <= |ctx.payload|
  {
    ctx.payload[ctx.protocol.sniOffset..ctx.protocol.sniOffset + ctx.protocol.sniLen]
  }

  lemma SniIsItsBytes(ctx: PayloadContext)
    requires SniInFirstRecord(ctx)
    ensures HasSni(ctx) && ctx.protocol.sniOffset + ctx.protocol.sniLen <= |ctx.payload|
    ensures ctx.protocol.sni.value == Utf8.Lossy(SniBytes(ctx))
  {
    SniPosition(ctx);
    BytesInFirstRecord(ctx, Complete(ctx.protocol));
  }

  lemma BytesInFirstRecord(ctx: PayloadContext, st: ParseStatus)
    requires st == Complete(ctx.protocol) && 5 + BodyLen(ctx.payload) <= |ctx.payload|
    requires SniWithin(st, FirstBody(ctx.payload), 5)
    ensures HasSni(ctx) && ctx.protocol.sniOffset + ctx.protocol.sniLen <= |ctx.payload|
    ensures ctx.protocol.sni.value == Utf8.Lossy(SniBytes(ctx))
  {
    WithinWindow(st, ctx.payload, 5, 5 + BodyLen(ctx.payload), 0);
    BytesInPayload(ctx, st);
  }

  lemma BytesInPayload(ctx: PayloadContext, st: ParseStatus)
    requires st == Complete(ctx.protocol) && SniWithin(st, ctx.payload, 0)
    ensures HasSni(ctx) && ctx.protocol.sniOffset + ctx.protocol.sniLen <= |ctx.payload|
    ensures ctx.protocol.sni.value == Utf8.Lossy(SniBytes(ctx))
  {
  }

  /** Where the markers resolve when the name has a second-level label. */
  lemma MarkersResolve(ctx: PayloadContext, start: nat, end: nat, draw: nat)
    requires HasSni(ctx) && IsSld(ctx.protocol.sni.value, start, end) && ctx.protocol.sniOffset + end < |ctx.payload|
    ensures Resolve(ctx, EndSld, draw) == Some(ctx.protocol.sniOffset + end)
    ensures Resolve(ctx, MidSld, draw).Some?
    ensures ctx.protocol.sniOffset + start <= Resolve(ctx, MidSld, draw).value < ctx.protocol.sniOffset + end
  {
    SldRangeComplete(ctx.protocol.sni.value, start, end);
  }

  lemma SldInWindow(p: seq<Byte>, at: nat, n: nat, start: nat, end: nat)
    requires at + n <= |p| && IsSld(p[at..at + n], start, end)
    ensures at + end < |p| && p[at + end] == DOT && NoDot(p, at + start, at + end)
  {
    assert forall i :: at <= i < at + n ==> p[i] == p[at..at + n][i - at];
  }

  lemma MarkersInBytes(ctx: PayloadContext, start: nat, end: nat, draw: nat)
    requires HasSni(ctx) && ctx.protocol.sniOffset + ctx.protocol.sniLen <= |ctx.payload|
    requires ctx.protocol.sni.value == SniBytes(ctx) && IsSld(SniBytes(ctx), start, end)
    ensures var o, last, mid := ctx.protocol.sniOffset, Resolve(ctx, EndSld, draw), Resolve(ctx, MidSld, draw);
            && last == Some(o + end) && o + end < |ctx.payload| && ctx.payload[o + end] == DOT
            && mid.Some? && o + start <= mid.value < o + end && NoDot(ctx.payload, o + start, o + end)
  {
    SldInWindow(ctx.payload, ctx.protocol.sniOffset, ctx.protocol.sniLen, start, end);
    MarkersResolve(ctx, start, end, draw);
  }

  /**
   * With a valid name in the first record the end marker is the dot behind the second-level label,
   * and the middle marker is inside the label.
   */
  lemma MarkersPointIntoName(ctx: PayloadContext, start: nat, end: nat, draw: nat)
    requires SniInFirstRecord(ctx) && IsSld(ctx.protocol.sni.value, start, end)
    requires ctx.protocol.sniOffset + ctx.protocol.sniLen <= |ctx.payload| && Utf8.Valid(SniBytes(ctx))
    ensures var o, last, mid := ctx.protocol.sniOffset, Resolve(ctx, EndSld, draw), Resolve(ctx, MidSld, draw);
            && last == Some(o + end) && o + end < |ctx.payload| && ctx.payload[o + end] == DOT
            && mid.Some? && o + start <= mid.value < o + end && NoDot(ctx.payload, o + start, o + end)
  {
    SniIsItsBytes(ctx);
    Utf8.LossyKeepsValid(SniBytes(ctx));
    MarkersInBytes(ctx, start, end, draw);
  }
}
