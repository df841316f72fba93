/** Where a payload is cut: split positions resolved against the detected protocol. */
module SplitPositions {
  import opened Bytes
  import opened Types

  datatype SplitPosition =
    | Absolute(offset: nat)
    | Sni
    | SniOffset(delta: int)
    | Random(min: nat, max: nat)
    | SniExtStart
    | EndSld
    | MidSld
    | OffsetFrom(marker: SplitPosition, shift: int)

  datatype PayloadContext = PayloadContext(payload: seq<Byte>, protocol: AppProtocol)

  predicate NoDot(b: seq<Byte>, from: nat, to: nat) {
    forall i :: from <= i < to && i < |b| ==> b[i] != DOT
  }

  /** `rposition` of the last dot in `b[..n]`. */
  function LastDot(b: seq<Byte>, n: nat): (r: Option<nat>)
    requires n <= |b|
    ensures r.None? ==> NoDot(b, 0, n)
    ensures r.Some? ==> r.value < n && b[r.value] == DOT && NoDot(b, r.value + 1, n)
  {
    if n == 0 then None else if b[n - 1] == DOT then Some(n - 1) else LastDot(b, n - 1)
  }

  /** `b[start..end]` is the non-empty label before the last one. */
  predicate IsSld(b: seq<Byte>, start: nat, end: nat) {
    && start < end < |b|
    && b[end] == DOT && NoDot(b, end + 1, |b|)
    && NoDot(b, start, end) && (start == 0 || b[start - 1] == DOT)
  }

  function SldRange(host: seq<Byte>): (r: Option<(nat, nat)>)
    ensures r.Some? ==> IsSld(host, r.value.0, r.value.1)
  {
    match LastDot(host, |host|)
    case None => None
    case Some(lastDot) =>
      var before := LastDot(host, lastDot);
      var start := if before.Some? then before.value + 1 else 0;
      if start >= lastDot then None else Some((start, lastDot))
  }

  /** Whenever the host has a second-level label, it is the one found. */
  lemma SldRangeComplete(host: seq<Byte>, start: nat, end: nat)
    requires IsSld(host, start, end)
    ensures SldRange(host) == Some((start, end))
  {
    assert LastDot(host, |host|) == Some(end);
    assert LastDot(host, end) == if start == 0 then None else Some(start - 1);
  }

  function DefaultSplitOffset(proto: AppProtocol): Option<nat> {
    match proto
    case TlsClientHello(Some(_), offset, _) => Some(offset)
    case HttpRequest(_, Some(_), offset) => Some(offset)
    case _ => None
  }

  function Shifted(base: Option<nat>, delta: int, len: nat): Option<nat> {
    match base
    case None => None
    case Some(b) => if 0 <= b + delta < len then Some(b + delta) else None
  }

  function Below(offset: nat, len: nat): Option<nat> {
    if offset < len then Some(offset) else None
  }

  predicate HasSni(ctx: PayloadContext) {
    ctx.protocol.TlsClientHello? && ctx.protocol.sni.Some?
  }

  /** A place inside the second-level label of the SNI. */
  function InSld(ctx: PayloadContext, place: (nat, nat) -> nat): (r: Option<nat>)
    ensures r.Some? ==> r.value < |ctx.payload|
  {
    if !HasSni(ctx) then None
    else match SldRange(ctx.protocol.sni.value)
      case None => None
      case Some(range) => Below(ctx.protocol.sniOffset + place(range.0, range.1), |ctx.payload|)
  }

  /** Resolve a position; `draw` is the outcome of the random generator. */
  function Resolve(ctx: PayloadContext, pos: SplitPosition, draw: nat): (r: Option<nat>)
    ensures r.Some? && r.value >= |ctx.payload| ==> pos.Sni?
    decreases pos
  {
    var len := |ctx.payload|;
    match pos
    case Absolute(offset) => Below(offset, len)
    case Sni => DefaultSplitOffset(ctx.protocol)
    case SniOffset(delta) => Shifted(DefaultSplitOffset(ctx.protocol), delta, len)
    case Random(min, max) => if min >= max || max >= len then None else Some(min + draw % (max - min))
    case OffsetFrom(marker, shift) => Shifted(Resolve(ctx, marker, draw), shift, len)
    case SniExtStart =>
      if HasSni(ctx) && ctx.protocol.sniOffset >= 9 then Below(ctx.protocol.sniOffset - 9, len) else None
    case EndSld => InSld(ctx, (start, end) => end)
    case MidSld => InSld(ctx, (start, end) => if start <= end then start + (end - start) / 2 else start)
  }
}
