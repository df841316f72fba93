/** Cutting one TLS record into several: the two-record and the N-record technique. */
module RecordFrag {
  import opened Bytes
  import opened Types
  import opened TlsParser
  import opened TlsRecords
  import opened SplitPositions
  import opened SplitPoints

  const TLS_HEADER_LEN: nat := 5
  const DEFAULT_FRAGMENTS: nat := 3
  const MIN_FRAGMENTS: nat := 2
  const MAX_FRAGMENTS: nat := 8

  // ---------- Pieces of a record ----------

  /** Strictly increasing positions inside the data, away from both ends. */
  predicate Cuts(points: seq<nat>, len: nat) {
    && (forall i :: 0 <= i < |points| ==> 0 < points[i] < len)
    && (forall i :: 0 <= i && i + 1 < |points| ==> points[i] < points[i + 1])
  }

  /** Where piece `i` starts; piece `|points| + 1`, behind the last, starts at the end. */
  function Edge(points: seq<nat>, len: nat, i: nat): nat
    requires i <= |points| + 1
  {
    if i == 0 then 0 else if i <= |points| then points[i - 1] else len
  }

  function Piece(major: Byte, minor: Byte, data: seq<Byte>, points: seq<nat>, i: nat): (r: Record)
    requires Cuts(points, |data|) && i <= |points|
  {
    Record(major, minor, data[Edge(points, |data|, i)..Edge(points, |data|, i + 1)])
  }

  function Pieces(major: Byte, minor: Byte, data: seq<Byte>, points: seq<nat>): (rs: seq<Record>)
    requires Cuts(points, |data|)
    ensures |rs| == |points| + 1
  {
    seq(|points| + 1, i requires 0 <= i <= |points| => Piece(major, minor, data, points, i))
  }

  lemma {:induction false} PiecesUpTo(major: Byte, minor: Byte, data: seq<Byte>, points: seq<nat>, n: nat)
    requires Cuts(points, |data|) && n <= |points| + 1
    ensures Edge(points, |data|, n) <= |data|
    ensures Payload(Pieces(major, minor, data, points)[..n]) == data[..Edge(points, |data|, n)]
    decreases n
  {
    var rs := Pieces(major, minor, data, points);
    if n == 0 {
      assert data[..0] == [] && rs[..0] == [];
    } else {
      PiecesUpTo(major, minor, data, points, n - 1);
      var a, b := Edge(points, |data|, n - 1), Edge(points, |data|, n);
      assert rs[..n] == rs[..n - 1] + [rs[n - 1]];
      EncodeSnoc(rs[..n - 1], rs[n - 1]);
      assert data[..a] + data[a..b] == data[..b];
    }
  }

  lemma {:induction false} AllSoundByIndex(rs: seq<Record>)
    requires forall i :: 0 <= i < |rs| ==> Sound(rs[i])
    ensures AllSound(rs)
  {
    if rs == [] {
    } else {
      AllSoundByIndex(rs[1..]);
    }
  }

  /** The pieces carry the data, are none of them empty, and together are five bytes each longer. */
  lemma PiecesCarryData(major: Byte, minor: Byte, data: seq<Byte>, points: seq<nat>)
    requires Cuts(points, |data|) && VersionOk(major, minor) && 0 < |data| < 0x1_0000
    ensures var rs := Pieces(major, minor, data, points);
            && Payload(rs) == data && AllSound(rs)
            && |Encode(rs)| == 5 * (|points| + 1) + |data|
            && (forall i :: 0 <= i < |rs| ==> 0 < |rs[i].body|)
  {
    var rs := Pieces(major, minor, data, points);
    PiecesUpTo(major, minor, data, points, |rs|);
    assert rs[..|rs|] == rs && data[..|data|] == data;
    forall i | 0 <= i < |rs|
      ensures Sound(rs[i]) && 0 < |rs[i].body|
    {
    }
    AllSoundByIndex(rs);
    EncodeLength(rs);
  }

  lemma PointsAreCuts(dataLen: nat, offset: nat, n: nat)
    requires dataLen >= 2 && n >= 2
    ensures Cuts(SplitPointsOf(dataLen, offset, n), dataLen)
  {
    PointsIncrease(Clamp(offset, 1, dataLen - 1), n - 1);
  }

  // ---------- The techniques ----------

  function BodyLen(p: seq<Byte>): (n: nat)
    ensures n < 0x1_0000
  {
    U16At(p, 3)
  }

  /** The context is a whole first handshake record of a hello with SNI. */
  predicate Applicable(ctx: PayloadContext) {
    && HasSni(ctx) && |ctx.payload| >= TLS_HEADER_LEN && ctx.payload[0] == HANDSHAKE
    && TLS_HEADER_LEN + BodyLen(ctx.payload) <= |ctx.payload|
  }

  /** A payload offset as a cut inside the record data. */
  function DataOffset(offset: nat, len: nat): (cut: nat)
    requires len >= 2
    ensures 0 < cut < len
  {
    Clamp(if offset > TLS_HEADER_LEN then offset - TLS_HEADER_LEN else 1, 1, len - 1)
  }

  /** Where the last fragment should start; a position that does not resolve means the middle. */
  function Target(ctx: PayloadContext, pos: SplitPosition, draw: nat, len: nat): (cut: nat)
    requires len >= 2
    ensures 0 < cut < len
  {
    match Resolve(ctx, pos, draw)
    case Some(offset) => DataOffset(offset, len)
    case None => DataOffset(TLS_HEADER_LEN + len / 2, len)
  }

  function Fragmented(p: seq<Byte>, points: seq<nat>): DesyncAction
    requires |p| >= 5 + BodyLen(p) && Cuts(points, BodyLen(p))
  {
    Replace(Encode(Pieces(p[1], p[2], p[5..5 + BodyLen(p)], points)))
  }

  /** Fragment into `n` records. */
  function MultiStreamFrag(ctx: PayloadContext, pos: SplitPosition, n: nat, draw: nat): Result<DesyncAction, Error>
    requires n >= MIN_FRAGMENTS
  {
    var len := BodyLen(ctx.payload);
    if !Applicable(ctx) || len < n then Err(NotApplicable)
    else
      PointsAreCuts(len, Target(ctx, pos, draw, len), n);
      Ok(Fragmented(ctx.payload, SplitPointsOf(len, Target(ctx, pos, draw, len), n)))
  }

  method WriteTlsRecord(buf: seq<Byte>, major: Byte, minor: Byte, data: seq<Byte>) returns (out: seq<Byte>)
    ensures out == buf + EncodeRecord(Record(major, minor, data))
  {
    out := buf + [HANDSHAKE];
    out := out + [major];
    out := out + [minor];
    out := out + U16Bytes(|data|);
    out := out + data;
  }

  method ApplyMultiStreamFrag(ctx: PayloadContext, pos: SplitPosition, n: nat, draw: nat)
    returns (result: Result<DesyncAction, Error>)
    requires n >= MIN_FRAGMENTS
    ensures result == MultiStreamFrag(ctx, pos, n, draw)
  {
    if !HasSni(ctx) {
      return Err(NotApplicable);
    }
    if |ctx.payload| < TLS_HEADER_LEN || ctx.payload[0] != HANDSHAKE {
      return Err(NotApplicable);
    }
    var major, minor := ctx.payload[1], ctx.payload[2];
    var len := BodyLen(ctx.payload);
    if |ctx.payload| - 5 < len {
      return Err(NotApplicable);
    }
    if len < n {
      return Err(NotApplicable);
    }
    var offset := ResolveTarget(ctx, pos, draw, len);
    var points := ComputeSplitPoints(len, offset, n);
    PointsAreCuts(len, offset, n);
    var combined := EmitPieces(major, minor, ctx.payload[5..5 + len], points);
    return Ok(Replace(combined));
  }

  method ResolveTarget(ctx: PayloadContext, pos: SplitPosition, draw: nat, len: nat) returns (offset: nat)
    requires len >= 2
    ensures offset == Target(ctx, pos, draw, len)
  {
    offset := TLS_HEADER_LEN + len / 2;
    var resolved := Resolve(ctx, pos, draw);
    if resolved.Some? {
      offset := resolved.value;
    }
    if offset > TLS_HEADER_LEN {
      offset := offset - TLS_HEADER_LEN;
    } else {
      offset := 1;
    }
    offset := Clamp(offset, 1, len - 1);
  }

  /** Write one record per slice between the cuts. */
  method EmitPieces(major: Byte, minor: Byte, data: seq<Byte>, points: seq<nat>) returns (combined: seq<Byte>)
    requires Cuts(points, |data|)
    ensures combined == Encode(Pieces(major, minor, data, points))
  {
    ghost var rs := Pieces(major, minor, data, points);
    combined := [];
    var prev: nat := 0;
    var i: nat := 0;
    while i < |points|
      invariant 0 <= i <= |points| && prev == Edge(points, |data|, i)
      invariant combined == Encode(rs[..i])
    {
      var split := points[i];
      combined := WriteTlsRecord(combined, major, minor, data[prev..split]);
      EncodeNext(rs, i);
      prev := split;
      i := i + 1;
    }
    combined := WriteTlsRecord(combined, major, minor, data[prev..|data|]);
    EncodeNext(rs, |points|);
    assert rs[..|rs|] == rs;
  }

  lemma EncodeNext(rs: seq<Record>, i: nat)
    requires i < |rs|
    ensures Encode(rs[..i + 1]) == Encode(rs[..i]) + EncodeRecord(rs[i])
  {
    assert rs[..i + 1] == rs[..i] + [rs[i]];
    EncodeSnoc(rs[..i], rs[i]);
  }

  /** Fragment into two records at one position. */
  function TlsRecordFrag(ctx: PayloadContext, pos: SplitPosition, draw: nat): Result<DesyncAction, Error> {
    var len := BodyLen(ctx.payload);
    if !Applicable(ctx) || len < 2 || Resolve(ctx, pos, draw).None? then Err(NotApplicable)
    else
      var cut := DataOffset(Resolve(ctx, pos, draw).value, len);
      Ok(Fragmented(ctx.payload, [cut]))
  }

  method ApplyTlsRecordFrag(ctx: PayloadContext, pos: SplitPosition, draw: nat)
    returns (result: Result<DesyncAction, Error>)
    ensures result == TlsRecordFrag(ctx, pos, draw)
  {
    if !HasSni(ctx) {
      return Err(NotApplicable);
    }
    if |ctx.payload| < 5 || ctx.payload[0] != HANDSHAKE {
      return Err(NotApplicable);
    }
    var major, minor := ctx.payload[1], ctx.payload[2];
    var len := BodyLen(ctx.payload);
    if |ctx.payload| - 5 < len || len < 2 {
      return Err(NotApplicable);
    }
    var resolved := Resolve(ctx, pos, draw);
    if resolved.None? {
      return Err(NotApplicable);
    }
    var dataOffset := DataOffset(resolved.value, len);
    var data := ctx.payload[5..5 + len];
    var combined := WriteTlsRecord([], major, minor, data[..dataOffset]);
    combined := WriteTlsRecord(combined, major, minor, data[dataOffset..len]);
    TwoPieces(major, minor, data, dataOffset);
    return Ok(Replace(combined));
  }

  lemma TwoPieces(major: Byte, minor: Byte, data: seq<Byte>, cut: nat)
    requires 0 < cut < |data|
    ensures Encode(Pieces(major, minor, data, [cut]))
         == [] + EncodeRecord(Record(major, minor, data[..cut]))
            + EncodeRecord(Record(major, minor, data[cut..|data|]))
  {
    var rs := Pieces(major, minor, data, [cut]);
    assert rs == [Record(major, minor, data[..cut]), Record(major, minor, data[cut..|data|])];
    assert rs[..0] == [] && rs[..2] == rs;
    EncodeNext(rs, 0);
    EncodeNext(rs, 1);
  }

  /** Between 2 and 8 the configured number is taken, the new setting before the old one; 3 without either. */
  lemma FragmentsTaken(n: nat, sniMode: Option<nat>)
    requires 2 <= n <= 8
    ensures FragmentCount(Some(n), sniMode) == n && FragmentCount(None, Some(n)) == n && FragmentCount(None, None) == 3
  {
  }

  /** The fragment count from the configuration; a numeric `sni_mode` is the deprecated spelling. */
  function FragmentCount(fragments: Option<nat>, sniMode: Option<nat>): (n: nat)
    ensures MIN_FRAGMENTS <= n <= MAX_FRAGMENTS
  {
    var wanted := if fragments.Some? then fragments.value
                  else if sniMode.Some? then sniMode.value else DEFAULT_FRAGMENTS;
    Clamp(wanted, MIN_FRAGMENTS, MAX_FRAGMENTS)
  }
}
