/** The record layer as data: encoding a list of handshake records and gathering them back. */
module TlsRecords {
  import opened Bytes
  import opened TlsParser
  import opened TlsStability

  datatype Record = Record(major: Byte, minor: Byte, body: seq<Byte>)

  /** A record a TLS peer may send: accepted version, representable length. */
  predicate Sound(r: Record) {
    VersionOk(r.major, r.minor) && |r.body| < 0x1_0000
  }

  predicate AllSound(rs: seq<Record>) {
    rs == [] || (Sound(rs[0]) && AllSound(rs[1..]))
  }

  function EncodeRecord(r: Record): (s: seq<Byte>)
    ensures |s| == 5 + |r.body|
  {
    [22, r.major, r.minor] + U16Bytes(|r.body|) + r.body
  }

  function Encode(rs: seq<Record>): seq<Byte> {
    if rs == [] then [] else EncodeRecord(rs[0]) + Encode(rs[1..])
  }

  /** The handshake bytes a list of records carries. */
  function Payload(rs: seq<Record>): seq<Byte> {
    if rs == [] then [] else rs[0].body + Payload(rs[1..])
  }

  lemma {:induction false} EncodeLength(rs: seq<Record>)
    ensures |Encode(rs)| == 5 * |rs| + |Payload(rs)|
  {
    if rs == [] {
    } else {
      EncodeLength(rs[1..]);
    }
  }

  lemma EncodeOne(r: Record)
    ensures Encode([r]) == EncodeRecord(r) && Payload([r]) == r.body
  {
    assert [r][1..] == [];
    assert EncodeRecord(r) + [] == EncodeRecord(r) && r.body + [] == r.body;
  }

  lemma {:induction false} EncodeSnoc(rs: seq<Record>, r: Record)
    ensures Encode(rs + [r]) == Encode(rs) + EncodeRecord(r)
    ensures Payload(rs + [r]) == Payload(rs) + r.body
  {
    var all := rs + [r];
    if rs == [] {
      assert all == [r];
      EncodeOne(r);
    } else {
      assert all[0] == rs[0] && all[1..] == rs[1..] + [r];
      EncodeSnoc(rs[1..], r);
      Assoc(EncodeRecord(rs[0]), Encode(rs[1..]), EncodeRecord(r));
      Assoc(rs[0].body, Payload(rs[1..]), r.body);
    }
  }

  /** What an encoded record looks like at the front of a buffer. */
  lemma RecordShape(d: seq<Byte>, r: Record, rest: seq<Byte>)
    requires Sound(r) && d == EncodeRecord(r) + rest
    ensures |d| == 5 + |r.body| + |rest|
    ensures d[0] == HANDSHAKE && d[1] == r.major && d[2] == r.minor && Word(d, 3) == |r.body|
    ensures d[5..5 + |r.body|] == r.body && d[5 + |r.body|..] == rest
  {
    var l := U16Bytes(|r.body|);
    U16RoundTrip(|r.body|);
    assert d[3] == l[0] && d[4] == l[1];
  }

  /** The same further inside a buffer. */
  lemma RecordAt(d: seq<Byte>, pos: nat, r: Record, rest: seq<Byte>)
    requires Sound(r) && 0 < pos <= |d| && d[pos..] == EncodeRecord(r) + rest
    ensures HeaderAt(d, pos) && Word(d, pos + 3) == |r.body|
    ensures pos + 5 + |r.body| + |rest| == |d|
    ensures d[pos + 5..pos + 5 + |r.body|] == r.body && d[pos + 5 + |r.body|..] == rest
  {
    var w := d[pos..];
    RecordShape(w, r, rest);
    Slice(d, pos, 5, 5 + |r.body|);
    assert w[5 + |r.body|..] == d[pos + 5 + |r.body|..];
    assert w[0] == d[pos] && w[1] == d[pos + 1] && w[2] == d[pos + 2] && w[3] == d[pos + 3] && w[4] == d[pos + 4];
  }

  lemma HeaderShift(d: seq<Byte>, pos: nat)
    requires 0 < pos <= |d|
    ensures HeaderAt(d, pos) == HeaderAt(d[pos..], 0)
  {
    if pos + 5 <= |d| {
      var w := d[pos..];
      assert w[0] == d[pos] && w[1] == d[pos + 1] && w[2] == d[pos + 2];
    }
  }

  /** The buffer holds record `r` at `pos`. */
  predicate RecordHere(d: seq<Byte>, pos: nat, r: Record) {
    var end := pos + 5 + |r.body|;
    && end <= |d| && HeaderAt(d, pos) && Word(d, pos + 3) == |r.body|
    && d[pos + 5..end] == r.body
  }

  /** The buffer holds the records back to back from `pos` to `end`. */
  predicate Holds(d: seq<Byte>, pos: nat, rs: seq<Record>, end: nat)
    decreases |rs|
  {
    if rs == [] then pos == end
    else RecordHere(d, pos, rs[0]) && Holds(d, pos + 5 + |rs[0].body|, rs[1..], end)
  }

  lemma HoldsEncoded(d: seq<Byte>, pos: nat, rs: seq<Record>, tail: seq<Byte>)
    requires AllSound(rs) && 0 < pos <= |d| && d[pos..] == Encode(rs) + tail
    ensures |tail| <= |d| && Holds(d, pos, rs, |d| - |tail|) && d[|d| - |tail|..] == tail
  {
    Taken(d, pos, Encode(rs), tail);
    HoldsUpTo(d, pos, rs, tail, pos + |Encode(rs)|);
  }

  lemma {:induction false} HoldsUpTo(d: seq<Byte>, pos: nat, rs: seq<Record>, tail: seq<Byte>, end: nat)
    requires AllSound(rs) && 0 < pos <= |d| && d[pos..] == Encode(rs) + tail && end == pos + |Encode(rs)|
    ensures Holds(d, pos, rs, end)
    decreases |rs|
  {
    if rs == [] {
    } else {
      FirstRecordHere(d, pos, rs, tail);
      HoldsUpTo(d, pos + 5 + |rs[0].body|, rs[1..], tail, end);
    }
  }

  lemma FirstRecordHere(d: seq<Byte>, pos: nat, rs: seq<Record>, tail: seq<Byte>)
    requires AllSound(rs) && rs != [] && 0 < pos <= |d| && d[pos..] == Encode(rs) + tail
    ensures RecordHere(d, pos, rs[0]) && d[pos + 5 + |rs[0].body|..] == Encode(rs[1..]) + tail
    ensures |Encode(rs)| == 5 + |rs[0].body| + |Encode(rs[1..])|
  {
    EncodeHead(rs, tail);
    RecordAt(d, pos, rs[0], Encode(rs[1..]) + tail);
  }

  lemma GatherOne(d: seq<Byte>, pos: nat, acc: seq<Byte>, r: Record)
    requires RecordHere(d, pos, r)
    ensures Gather(d, pos, acc) == Gather(d, pos + 5 + |r.body|, acc + r.body)
  {
  }

  lemma {:induction false} GatherHeld(d: seq<Byte>, pos: nat, acc: seq<Byte>, rs: seq<Record>, end: nat)
    requires Holds(d, pos, rs, end) && !HeaderAt(d, end)
    ensures Gather(d, pos, acc) == Whole(acc + Payload(rs))
    decreases |rs|
  {
    if rs == [] {
      assert acc + [] == acc;
    } else {
      GatherOne(d, pos, acc, rs[0]);
      GatherHeld(d, pos + 5 + |rs[0].body|, acc + rs[0].body, rs[1..], end);
      Assoc(acc, rs[0].body, Payload(rs[1..]));
    }
  }

  lemma EncodeHead(rs: seq<Record>, tail: seq<Byte>)
    requires rs != []
    ensures Encode(rs) + tail == EncodeRecord(rs[0]) + (Encode(rs[1..]) + tail)
  {
    Assoc(EncodeRecord(rs[0]), Encode(rs[1..]), tail);
  }

  /** A stream the parser will take: sound records, the first within the size limit. */
  predicate Acceptable(rs: seq<Record>) {
    AllSound(rs) && |rs| > 0 && 0 < |rs[0].body| <= MAX_TLS_RECORD
  }

  lemma StreamHolds(d: seq<Byte>, rs: seq<Record>, tail: seq<Byte>)
    requires Acceptable(rs) && d == Encode(rs) + tail
    ensures |tail| <= |d| && d[|d| - |tail|..] == tail
    ensures FirstHeaderOk(d) && FirstRecordLen(d) == |rs[0].body| && 5 + |rs[0].body| <= |d|
    ensures d[5..5 + |rs[0].body|] == rs[0].body
    ensures Holds(d, 5 + |rs[0].body|, rs[1..], |d| - |tail|)
  {
    EncodeHead(rs, tail);
    RecordShape(d, rs[0], Encode(rs[1..]) + tail);
    HoldsEncoded(d, 5 + |rs[0].body|, rs[1..], tail);
  }

  /**
   * Fragmentation invariance: however a handshake is cut into records, and whatever
   * non-record bytes follow, the parser's verdict is the verdict on the handshake.
   */
  lemma FragmentationInvariance(rs: seq<Record>, tail: seq<Byte>)
    requires Acceptable(rs) && !HeaderAt(tail, 0)
    ensures Parse(Encode(rs) + tail) == ParseHandshake(Payload(rs))
  {
    var d := Encode(rs) + tail;
    StreamHolds(d, rs, tail);
    HeaderShift(d, |d| - |tail|);
    GatherHeld(d, 5 + |rs[0].body|, rs[0].body, rs[1..], |d| - |tail|);
  }

  // ---------- Incomplete streams ----------

  predicate AllFilled(rs: seq<Record>) {
    rs == [] || (|rs[0].body| > 0 && AllFilled(rs[1..]))
  }

  /** The records are exactly one ClientHello: its length field covers their whole payload. */
  predicate ExactHello(rs: seq<Record>) {
    && Acceptable(rs)
    && AllFilled(rs)
    && |Payload(rs)| >= 4 && Payload(rs)[0] == CLIENT_HELLO
    && |Payload(rs)| == MessageLen(Payload(rs))
  }

  lemma RecordCut(d: seq<Byte>, full: seq<Byte>, pos: nat, acc: seq<Byte>, r: Record)
    requires d <= full && pos <= |d| && RecordHere(full, pos, r)
    ensures var end := pos + 5 + |r.body|;
            Gather(d, pos, acc) == (if pos + 5 > |d| then Whole(acc)
                                    else if end > |d| then Cut(end)
                                    else Gather(d, end, acc + r.body))
  {
    var end := pos + 5 + |r.body|;
    if end <= |d| {
      assert d[pos + 5..end] == full[pos + 5..end];
    }
  }

  lemma {:induction false} GatherTruncated(
      d: seq<Byte>, full: seq<Byte>, pos: nat, acc: seq<Byte>, rs: seq<Record>, all: seq<Byte>)
    requires AllFilled(rs) && d < full && pos <= |d| && Holds(full, pos, rs, |full|) && all == acc + Payload(rs)
    ensures var r := Gather(d, pos, acc);
            if r.Cut? then |d| < r.needed <= |full| else r.handshake < all
    decreases |rs|
  {
    assert rs != [];
    var body, rest := rs[0].body, Payload(rs[1..]);
    var end := pos + 5 + |body|;
    RecordCut(d, full, pos, acc, rs[0]);
    Assoc(acc, body, rest);
    if |d| >= end {
      GatherTruncated(d, full, end, acc + body, rs[1..], all);
    }
  }

  /** Every proper non-empty prefix of an exact hello asks for more, within the stream's own length. */
  lemma ProperPrefixNeedsMore(rs: seq<Record>, d: seq<Byte>)
    requires ExactHello(rs) && 0 < |d| && d < Encode(rs)
    ensures Parse(d).NeedMore? && Parse(d).needed <= |Encode(rs)|
  {
    var full := Encode(rs);
    EncodeLength(rs);
    assert full == full + [];
    StreamHolds(full, rs, []);
    PrefixOfStream(d, full, rs[0].body, rs[1..], Payload(rs));
  }

  lemma PrefixOfStream(d: seq<Byte>, full: seq<Byte>, first: seq<Byte>, rs: seq<Record>, all: seq<Byte>)
    requires 0 < |d| && d < full && |full| >= 5 && FirstHeaderOk(full)
    requires FirstRecordLen(full) == |first| && 5 + |first| <= |full| && full[5..5 + |first|] == first
    requires Holds(full, 5 + |first|, rs, |full|) && AllFilled(rs) && all == first + Payload(rs)
    requires 4 <= |all| && 5 + |all| <= |full| && all[0] == CLIENT_HELLO && |all| == MessageLen(all)
    ensures Parse(d).NeedMore? && Parse(d).needed <= |full|
  {
    var end := 5 + |first|;
    if |d| >= end {
      assert d[5..end] == first;
      GatherTruncated(d, full, end, first, rs, all);
      GatherBound(d, end, first);
      var r := Gather(d, end, first);
      if r.Whole? {
        ShortHello(r.handshake, all);
      }
    }
  }

  lemma ShortHello(h: seq<Byte>, all: seq<Byte>)
    requires 0 < |h| && h < all && 4 <= |all| && all[0] == CLIENT_HELLO && |all| == MessageLen(all)
    ensures ParseHandshake(h).NeedMore? && ParseHandshake(h).needed <= 5 + |all|
  {
  }
}
