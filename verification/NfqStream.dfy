/** What a packet-queue run does to the byte stream of one connection, as the receiver's TCP reassembles it. */
module NfqStream {
  import opened Bytes
  import opened RawPacket
  import opened ConnTracking
  import opened Nfq
  import opened NfqRuns
  import RecordFrag
  import TlsRecords

  /** Sequence numbers are kept modulo 2^32: `Wrap(x)` is the remainder, as `WrapIsRemainder` shows. */
  const WRAP: nat := 0x1_0000_0000
  const HALF: nat := 0x8000_0000

  function Wrap(x: int): (n: nat)
    ensures n < WRAP
    decreases if x < 0 then WRAP - x else x
  {
    if x < 0 then Wrap(x + WRAP) else if x >= WRAP then Wrap(x - WRAP) else x
  }

  /** The sequence number of the first byte, and the bytes. */
  datatype Segment = Segment(seqNo: nat, data: seq<Byte>)

  /** The segment a packet carries for this connection. */
  function SegmentOf(data: seq<Byte>, key: ConnKey): seq<Segment> {
    match ParseIpTcp(data)
    case None => []
    case Some(parsed) => if KeyOf(parsed) == key then [Segment(parsed.seqNo, parsed.payload)] else []
  }

  function SentBy(e: Event, key: ConnKey): seq<Segment> {
    if e.Arrives? then SegmentOf(e.packet.data, key) else []
  }

  /** What the verdict lets through: a modified packet travels on in place of the original. */
  function DeliveredBy(e: Event, key: ConnKey): seq<Segment> {
    match e
    case Arrives(p, Accept) => SegmentOf(p.data, key)
    case Arrives(_, Modify(data)) => SegmentOf(data, key)
    case _ => []
  }

  /** The segments of a connection as its sender emitted them, from event `i` on. */
  function Sent(events: seq<Event>, i: nat, key: ConnKey): seq<Segment>
    decreases |events| - i
  {
    if i >= |events| then [] else SentBy(events[i], key) + Sent(events, i + 1, key)
  }

  /** The same as they leave the queue. */
  function Delivered(events: seq<Event>, i: nat, key: ConnKey): seq<Segment>
    decreases |events| - i
  {
    if i >= |events| then [] else DeliveredBy(events[i], key) + Delivered(events, i + 1, key)
  }

  function Joined(segs: seq<Segment>): seq<Byte> {
    if segs == [] then [] else segs[0].data + Joined(segs[1..])
  }

  /** Every segment starts where the one before it ends. */
  predicate InSequence(segs: seq<Segment>, seqNo: int) {
    segs == [] || (segs[0].seqNo == Wrap(seqNo) && InSequence(segs[1..], seqNo + |segs[0].data|))
  }

  /** What is left of `s` behind its first `d` bytes. */
  function Past(s: seq<Byte>, d: nat): seq<Byte> {
    if d == 0 then s else if d < |s| then s[d..] else []
  }

  lemma PastJoined(a: seq<Byte>, b: seq<Byte>, d: nat)
    ensures Past(a + b, d) == if d < |a| then Past(a, d) + b else Past(b, d - |a|)
  {
    if 0 < d < |a| {
      assert (a + b)[d..] == a[d..] + b;
    } else if d == |a| {
      assert d > 0 && b != [] ==> (a + b)[d..] == b;
      assert d == 0 ==> a + b == b;
    } else if |a| < d < |a| + |b| {
      assert (a + b)[d..] == b[d - |a|..];
    }
  }

  /**
   * What a receiver expecting byte `expected` hands to its application: of each segment the part it does
   * not have yet, sequence numbers compared as signed differences (section 3.3 of RFC 793). A segment
   * beyond a gap waits for the gap to be filled.
   */
  function Reassembled(segs: seq<Segment>, expected: int): seq<Byte>
    decreases |segs|
  {
    if segs == [] then []
    else
      var s, known := segs[0], Wrap(expected - segs[0].seqNo);
      if known < HALF && known < |s.data| then
        Past(s.data, known) + Reassembled(segs[1..], expected + |s.data| - known)
      else Reassembled(segs[1..], expected)
  }

  lemma {:induction false} WrapIs(x: int, q: int, r: nat)
    requires x == WRAP * q + r && r < WRAP
    ensures Wrap(x) == r
    decreases if q < 0 then -q else q
  {
    if q < 0 {
      WrapIs(x + WRAP, q + 1, r);
    } else if q > 0 {
      WrapIs(x - WRAP, q - 1, r);
    }
  }

  lemma WrapIsRemainder(x: int)
    ensures Wrap(x) == x % WRAP
  {
    WrapIs(x, x / WRAP, x % WRAP);
  }

  lemma WrapAround(x: int)
    ensures Wrap(x + WRAP) == Wrap(x)
  {
  }

  /** The signed difference is right whatever multiple of 2^32 was dropped. */
  lemma {:induction false} Distance(expected: int, seqNo: int, d: nat)
    requires expected == seqNo + d && d < WRAP
    ensures Wrap(expected - Wrap(seqNo)) == d
    decreases if seqNo < 0 then WRAP - seqNo else seqNo
  {
    if seqNo < 0 {
      Distance(expected + WRAP, seqNo + WRAP, d);
      WrapAround(expected - Wrap(seqNo));
    } else if seqNo >= WRAP {
      Distance(expected - WRAP, seqNo - WRAP, d);
      WrapAround(expected - WRAP - Wrap(seqNo));
    }
  }

  /** What one segment adds for a receiver that already has its first `d` bytes. */
  lemma OneSegment(segs: seq<Segment>, seqNo: int, d: nat, n: nat)
    requires segs != [] && n == |segs[0].data| && segs[0].seqNo == Wrap(seqNo) && d < HALF
    ensures Reassembled(segs, seqNo + d)
            == if d < n then Past(segs[0].data, d) + Reassembled(segs[1..], seqNo + n) else Reassembled(segs[1..], seqNo + d)
  {
    Distance(seqNo + d, seqNo, d);
  }

  /** A receiver that is `d` bytes ahead of the sender misses the next `d` bytes. */
  lemma {:induction false} Overlapped(segs: seq<Segment>, seqNo: int, d: nat)
    requires InSequence(segs, seqNo) && d < HALF
    ensures Reassembled(segs, seqNo + d) == Past(Joined(segs), d)
    decreases |segs|
  {
    if segs == [] {
    } else {
      var n, k := |segs[0].data|, if d < |segs[0].data| then 0 else d - |segs[0].data|;
      OneSegment(segs, seqNo, d, n);
      PastJoined(segs[0].data, Joined(segs[1..]), d);
      Overlapped(segs[1..], seqNo + n, k);
      assert seqNo + n + k == if d < n then seqNo + n else seqNo + d;
    }
  }

  lemma BeyondGap(segs: seq<Segment>, seqNo: int, expected: int)
    requires segs != [] && segs[0].seqNo == Wrap(seqNo) && 0 < seqNo - expected <= HALF
    ensures Reassembled(segs, expected) == Reassembled(segs[1..], expected)
  {
    Distance(expected, seqNo - WRAP, WRAP - (seqNo - expected));
    WrapAround(seqNo - WRAP);
  }

  /** A receiver that is behind gets nothing of what follows the gap. */
  lemma {:induction false} Gapped(segs: seq<Segment>, seqNo: int, expected: int)
    requires InSequence(segs, seqNo) && expected < seqNo && seqNo + |Joined(segs)| <= expected + HALF
    ensures Reassembled(segs, expected) == []
    decreases |segs|
  {
    if segs == [] {
    } else {
      BeyondGap(segs, seqNo, expected);
      Gapped(segs[1..], seqNo + |segs[0].data|, expected);
    }
  }

  /** The receiver sees every byte of a stream that is in sequence. */
  lemma Transparent(segs: seq<Segment>, seqNo: int)
    requires InSequence(segs, seqNo)
    ensures Reassembled(segs, seqNo) == Joined(segs)
  {
    Overlapped(segs, seqNo, 0);
  }

  /** The sender never has more than half of the sequence space outstanding behind a gap. */
  predicate Outstanding(replacement: nat, original: nat, rest: nat) {
    replacement < HALF && (replacement < original ==> original + rest <= HALF)
  }

  /**
   * The first segment is replaced, the later ones stay where the sender put them: the receiver gets the
   * replacement and then all the rest exactly when the lengths agree, or nothing follows.
   */
  lemma ReplacedFirst(segs: seq<Segment>, seqNo: nat, m: nat, rest: seq<Segment>)
    requires segs != [] && segs[0].seqNo == seqNo < WRAP && segs[1..] == rest && InSequence(rest, seqNo + m)
    requires Outstanding(|segs[0].data|, m, |Joined(rest)|)
    ensures Reassembled(segs, seqNo) == segs[0].data + Joined(rest) <==> |segs[0].data| == m || Joined(rest) == []
  {
    var payload := segs[0].data;
    FirstTaken(segs, seqNo, payload, rest);
    ReceivedBehind(seqNo, |payload|, m, rest);
    SameFront(payload, Reassembled(rest, seqNo + |payload|), Joined(rest));
  }

  /** What a receiver gets of the rest when the first segment took `n` bytes in place of `m`. */
  lemma ReceivedBehind(seqNo: nat, n: nat, m: nat, rest: seq<Segment>)
    requires InSequence(rest, seqNo + m) && Outstanding(n, m, |Joined(rest)|)
    ensures Reassembled(rest, seqNo + n) == Joined(rest) <==> n == m || Joined(rest) == []
  {
    if n < m {
      Gapped(rest, seqNo + m, seqNo + n);
    } else {
      var d := n - m;
      Overlapped(rest, seqNo + m, d);
      assert seqNo + m + d == seqNo + n;
      PastIsWhole(Joined(rest), d);
    }
  }

  lemma PastIsWhole(s: seq<Byte>, d: nat)
    ensures Past(s, d) == s <==> d == 0 || s == []
  {
  }

  lemma FirstTaken(segs: seq<Segment>, seqNo: nat, payload: seq<Byte>, rest: seq<Segment>)
    requires seqNo < WRAP && segs != [] && segs[0] == Segment(seqNo, payload) && segs[1..] == rest
    ensures Reassembled(segs, seqNo) == payload + Reassembled(rest, seqNo + |payload|)
  {
  }

  lemma SameFront(front: seq<Byte>, a: seq<Byte>, b: seq<Byte>)
    ensures front + a == front + b <==> a == b
  {
    if front + a == front + b {
      assert a == (front + a)[|front|..] && b == (front + b)[|front|..];
    }
  }

  // ---------- The streams of a run ----------

  /** A packet of a connection the table holds passes as it is. */
  lemma KnownPasses(blockQuic: bool, max: nat, before: Table, e: Event, after: Table, key: ConnKey)
    requires Settled(before) && Step(blockQuic, max, before, e, after) && key in before
    ensures DeliveredBy(e, key) == SentBy(e, key)
  {
    if e.Arrives? && SentBy(e, key) != [] {
      VerdictMeaning(blockQuic, max, before, e.packet, e.verdict, after);
    } else if e.Arrives? && e.verdict.Modify? {
      VerdictMeaning(blockQuic, max, before, e.packet, e.verdict, after);
    }
  }

  /** While the entry stays, nothing of the connection is changed. */
  lemma {:induction false} TailUntouched(
      blockQuic: bool, max: nat, tables: seq<Table>, events: seq<Event>, i: nat, key: ConnKey)
    requires IsRun(blockQuic, max, tables, events) && i <= |events|
    requires forall m :: i <= m < |events| ==> key in tables[m]
    ensures Delivered(events, i, key) == Sent(events, i, key)
    decreases |events| - i
  {
    if i < |events| {
      TablesBounded(blockQuic, max, tables, events, i);
      assert Step(blockQuic, max, tables[i], events[i], tables[i + 1]);
      KnownPasses(blockQuic, max, tables[i], events[i], tables[i + 1], key);
      TailUntouched(blockQuic, max, tables, events, i + 1, key);
    }
  }

  /** The packet that opens the connection: its segment, and what is delivered for it. */
  lemma OpeningDelivers(
      blockQuic: bool, max: nat, before: Table, e: Event, after: Table, key: ConnKey)
    requires Settled(before) && Step(blockQuic, max, before, e, after) && OpensKey(blockQuic, before, e, key)
    ensures var parsed := ParseIpTcp(e.packet.data).value;
            && SentBy(e, key) == [Segment(parsed.seqNo, parsed.payload)]
            && DeliveredBy(e, key)
               == [Segment(parsed.seqNo, if Rewrites(e, key) then e.packet.selected.value.data else parsed.payload)]
    ensures Rewrites(e, key) <==> e.packet.selected.Some? && e.packet.selected.value.Replace?
  {
    VerdictMeaning(blockQuic, max, before, e.packet, e.verdict, after);
  }

  /** What the run makes of the payload that opened the connection. */
  function FirstOut(e: Event, key: ConnKey): seq<Byte>
    requires e.Arrives? && ParseIpTcp(e.packet.data).Some?
    requires Rewrites(e, key) ==> e.packet.selected.Some? && e.packet.selected.value.Replace?
  {
    if Rewrites(e, key) then e.packet.selected.value.data else ParseIpTcp(e.packet.data).value.payload
  }

  /** From its opening on, the connection is sent and delivered alike but for the first payload. */
  lemma OpeningStream(
      blockQuic: bool, max: nat, tables: seq<Table>, events: seq<Event>, i: nat, key: ConnKey)
    requires IsRun(blockQuic, max, tables, events) && i < |events|
    requires OpensKey(blockQuic, tables[i], events[i], key)
    requires forall m :: i < m < |events| ==> key in tables[m]
    ensures Rewrites(events[i], key) ==> events[i].packet.selected.Some? && events[i].packet.selected.value.Replace?
    ensures var parsed, rest := ParseIpTcp(events[i].packet.data).value, Sent(events, i + 1, key);
            && parsed.seqNo < WRAP
            && Sent(events, i, key) == [Segment(parsed.seqNo, parsed.payload)] + rest
            && Delivered(events, i, key) == [Segment(parsed.seqNo, FirstOut(events[i], key))] + rest
  {
    TablesBounded(blockQuic, max, tables, events, i);
    assert Step(blockQuic, max, tables[i], events[i], tables[i + 1]);
    OpeningDelivers(blockQuic, max, tables[i], events[i], tables[i + 1], key);
    TailUntouched(blockQuic, max, tables, events, i + 1, key);
  }

  /**
   * Over a whole run, for a sender in sequence and as long as the entry stays: the receiver's stream is the
   * sender's with the first payload replaced exactly when the replacement is as long, or nothing follows it.
   * The queue rewrites one packet and renumbers none.
   */
  lemma StreamKept(
      blockQuic: bool, max: nat, tables: seq<Table>, events: seq<Event>, i: nat, key: ConnKey)
    requires IsRun(blockQuic, max, tables, events) && i < |events|
    requires OpensKey(blockQuic, tables[i], events[i], key)
    requires forall m :: i < m < |events| ==> key in tables[m]
    requires InSequence(Sent(events, i, key), ParseIpTcp(events[i].packet.data).value.seqNo)
    ensures Rewrites(events[i], key) ==> events[i].packet.selected.Some? && events[i].packet.selected.value.Replace?
    ensures var parsed := ParseIpTcp(events[i].packet.data).value;
            var first, rest := FirstOut(events[i], key), Joined(Sent(events, i + 1, key));
            Outstanding(|first|, |parsed.payload|, |rest|) ==>
              (Reassembled(Delivered(events, i, key), parsed.seqNo) == first + rest
               <==> |first| == |parsed.payload| || rest == [])
  {
    OpeningStream(blockQuic, max, tables, events, i, key);
    var parsed := ParseIpTcp(events[i].packet.data).value;
    ReplacedStream(Sent(events, i, key), Delivered(events, i, key), parsed.seqNo,
                   FirstOut(events[i], key), parsed.payload, Sent(events, i + 1, key));
  }

  lemma ReplacedStream(
      sent: seq<Segment>, delivered: seq<Segment>, seqNo: nat, first: seq<Byte>, original: seq<Byte>, rest: seq<Segment>)
    requires seqNo < WRAP && InSequence(sent, seqNo) && sent == [Segment(seqNo, original)] + rest
    requires delivered == [Segment(seqNo, first)] + rest
    ensures Outstanding(|first|, |original|, |Joined(rest)|) ==>
              (Reassembled(delivered, seqNo) == first + Joined(rest) <==> |first| == |original| || Joined(rest) == [])
  {
    assert sent[1..] == rest && delivered[1..] == rest;
    if Outstanding(|first|, |original|, |Joined(rest)|) {
      ReplacedFirst(delivered, seqNo, |original|, rest);
    }
  }

  /** A hello that fills its packet: fragmenting its record adds a header per cut, so nothing may follow it. */
  lemma FragmentsGrow(p: seq<Byte>, points: seq<nat>)
    requires |p| == 5 + RecordFrag.BodyLen(p) && RecordFrag.Cuts(points, RecordFrag.BodyLen(p)) && points != []
    ensures RecordFrag.Fragmented(p, points).Replace?
    ensures |RecordFrag.Fragmented(p, points).data| == |p| + 5 * |points| > |p|
  {
    var data := p[5..5 + RecordFrag.BodyLen(p)];
    var rs := RecordFrag.Pieces(p[1], p[2], data, points);
    RecordFrag.PiecesUpTo(p[1], p[2], data, points, |rs|);
    assert rs[..|rs|] == rs && data[..|data|] == data;
    TlsRecords.EncodeLength(rs);
  }
}
