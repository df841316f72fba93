/** How many bytes the parser asks for, by the bytes that have come. */
module TlsNeeds {
  import opened Bytes
  import opened TlsParser
  import opened TlsStability
  import opened TlsRecords
  import opened MessageEnd
  import opened ClientHello

  // ---------- The record layer ----------

  /** A first header and less than it announces: the parser asks for exactly that record. */
  lemma RecordToCome(d: seq<Byte>, len: nat)
    requires |d| >= 5 && d[0] == 22 && d[1] == 3 && 1 <= d[2] <= 3
    requires len == 256 * d[3] as int + d[4] as int && 0 < len <= 18432 && |d| < 5 + len
    ensures Parse(d) == NeedMore(5 + len)
  {
  }

  lemma FirstOfList(rs: seq<Record>, k: nat)
    requires 0 < k <= |rs|
    ensures |Encode(rs[..k])| == 5 + |rs[0].body| + |Encode(rs[1..][..k - 1])|
    ensures Payload(rs[..k]) == rs[0].body + Payload(rs[1..][..k - 1])
  {
    assert rs[..k][1..] == rs[1..][..k - 1];
  }

  /** The first `k` records and no more have come whole. */
  predicate CutInRecord(d: seq<Byte>, pos: nat, rs: seq<Record>, k: nat) {
    k < |rs| && pos + |Encode(rs[..k])| <= |d| < pos + |Encode(rs[..k + 1])|
  }

  lemma CutFurther(d: seq<Byte>, pos: nat, rs: seq<Record>, k: nat)
    requires CutInRecord(d, pos, rs, k) && k > 0
    ensures pos + 5 + |rs[0].body| <= |d| && CutInRecord(d, pos + 5 + |rs[0].body|, rs[1..], k - 1)
  {
    FirstOfList(rs, k);
    FirstOfList(rs, k + 1);
  }

  lemma {:induction false} GatherCutStream(
      d: seq<Byte>, full: seq<Byte>, pos: nat, acc: seq<Byte>, rs: seq<Record>, k: nat)
    requires d <= full && pos <= |d| && Holds(full, pos, rs, |full|) && CutInRecord(d, pos, rs, k)
    ensures Gather(d, pos, acc) ==
            if |d| >= pos + |Encode(rs[..k])| + 5 then Cut(pos + |Encode(rs[..k + 1])|)
            else Whole(acc + Payload(rs[..k]))
    decreases k
  {
    RecordCut(d, full, pos, acc, rs[0]);
    if k == 0 {
      FirstOfList(rs, 1);
      assert rs[..0] == [] && rs[1..][..0] == [] && acc + [] == acc;
    } else {
      CutFurther(d, pos, rs, k);
      FirstOfList(rs, k);
      FirstOfList(rs, k + 1);
      Assoc(acc, rs[0].body, Payload(rs[1..][..k - 1]));
      GatherCutStream(d, full, pos + 5 + |rs[0].body|, acc + rs[0].body, rs[1..], k - 1);
    }
  }

  lemma {:induction false} PayloadGrows(rs: seq<Record>, k: nat)
    requires AllFilled(rs) && k < |rs|
    ensures Payload(rs[..k]) < Payload(rs) && (k > 0 ==> |Payload(rs[..k])| > 0)
  {
    if k == 0 {
      assert rs[..0] == [];
    } else {
      FirstOfList(rs, k);
      PayloadGrows(rs[1..], k - 1);
    }
  }

  lemma PartOfHello(h: seq<Byte>, all: seq<Byte>)
    requires 0 < |h| && h < all && 4 <= |all| && all[0] == CLIENT_HELLO && |all| == MessageLen(all)
    ensures ParseHandshake(h) == NeedMore(if |h| < 4 then 9 else 5 + |all|)
  {
  }

  /** What is asked for when the records behind the first `k` have not come. */
  function Needed(rs: seq<Record>, k: nat, got: nat): nat
    requires k < |rs|
  {
    if got < 5 then 5
    else if got >= |Encode(rs[..k])| + 5 then |Encode(rs[..k + 1])|
    else if |Payload(rs[..k])| < 4 then 9
    else 5 + |Payload(rs)|
  }

  /**
   * A stream that is exactly one hello, cut anywhere: inside a record whose header is there the parser asks for
   * the end of that record, between records for the message with one header in front of it.
   */
  lemma PrefixNeeds(rs: seq<Record>, d: seq<Byte>, k: nat)
    requires ExactHello(rs) && 0 < |d| && d < Encode(rs) && CutInRecord(d, 0, rs, k)
    ensures Parse(d) == NeedMore(Needed(rs, k, |d|))
  {
    var full := Encode(rs);
    assert full == full + [];
    StreamHolds(full, rs, []);
    if 5 <= |d| {
      if k == 0 {
        FirstOfList(rs, 1);
        assert rs[..0] == [] && rs[1..][..0] == [];
        FirstIncomplete(d, full, rs[0].body);
      } else {
        CutFurther(d, 0, rs, k);
        LaterIncomplete(d, full, rs, k, rs[0].body, rs[1..], Payload(rs));
      }
    }
  }

  lemma LaterIncomplete(
      d: seq<Byte>, full: seq<Byte>, rs: seq<Record>, k: nat, first: seq<Byte>, rest: seq<Record>, all: seq<Byte>)
    requires 0 < k < |rs| && first == rs[0].body && rest == rs[1..] && AllFilled(rs) && all == Payload(rs)
    requires d < full && FirstHeaderOk(full) && FirstRecordLen(full) == |first| && 5 + |first| <= |d|
    requires full[5..5 + |first|] == first && Holds(full, 5 + |first|, rest, |full|)
    requires CutInRecord(d, 5 + |first|, rest, k - 1)
    requires 4 <= |all| && all[0] == CLIENT_HELLO && |all| == MessageLen(all)
    ensures Parse(d) == NeedMore(Needed(rs, k, |d|))
  {
    CutLater(d, full, rs, k, first, rest);
    PayloadGrows(rs, k);
    PartOfHello(Payload(rs[..k]), all);
  }

  lemma CutLater(d: seq<Byte>, full: seq<Byte>, rs: seq<Record>, k: nat, first: seq<Byte>, rest: seq<Record>)
    requires 0 < k < |rs| && first == rs[0].body && rest == rs[1..]
    requires d < full && FirstHeaderOk(full) && FirstRecordLen(full) == |first| && 5 + |first| <= |d|
    requires full[5..5 + |first|] == first && Holds(full, 5 + |first|, rest, |full|)
    requires CutInRecord(d, 5 + |first|, rest, k - 1)
    ensures Parse(d) == if |d| >= |Encode(rs[..k])| + 5 then NeedMore(|Encode(rs[..k + 1])|)
                        else ParseHandshake(Payload(rs[..k]))
  {
    SameFirst(d, full, first);
    FirstOfList(rs, k);
    FirstOfList(rs, k + 1);
    GatherCutStream(d, full, 5 + |first|, first, rest, k - 1);
  }

  lemma FirstIncomplete(d: seq<Byte>, full: seq<Byte>, first: seq<Byte>)
    requires d <= full && FirstHeaderOk(full) && FirstRecordLen(full) == |first| && 5 <= |d| < 5 + |first|
    ensures Parse(d) == NeedMore(5 + |first|)
  {
  }

  lemma SameFirst(d: seq<Byte>, full: seq<Byte>, first: seq<Byte>)
    requires d <= full && FirstHeaderOk(full) && FirstRecordLen(full) == |first| && 5 + |first| <= |d|
    requires full[5..5 + |first|] == first
    ensures Parse(d) == Judge(Gather(d, 5 + |first|, first))
  {
    PrefixSlice(d, full, 5, 5 + |first|);
  }

  /** One record: from the header on, the parser asks for exactly the hello. */
  lemma OneRecordNeeds(r: Record, d: seq<Byte>)
    requires ExactHello([r]) && 0 < |d| && d < Encode([r])
    ensures Parse(d) == NeedMore(if |d| < 5 then 5 else |Encode([r])|)
  {
    assert [r][..0] == [] && [r][..1] == [r];
    PrefixNeeds([r], d, 0);
  }

  /**
   * Between the records of a hello the amount asked for is no more than what is there exactly when the bytes
   * that are missing number no more than those of the later headers that have come.
   */
  lemma NeedAlreadyThere(rs: seq<Record>, k: nat)
    requires ExactHello(rs) && 0 < k < |rs| && |Payload(rs[..k])| >= 4
    ensures var d := Encode(rs[..k]);
            && Parse(d).NeedMore?
            && (Parse(d).needed > |d| <==> |Payload(rs)| - |Payload(rs[..k])| > 5 * (k - 1))
  {
    var d := Encode(rs[..k]);
    EncodedPrefix(rs, k);
    PrefixNeeds(rs, d, k);
    EncodeLength(rs[..k]);
  }

  lemma EncodedPrefix(rs: seq<Record>, k: nat)
    requires 0 < k < |rs|
    ensures 0 < |Encode(rs[..k])| && Encode(rs[..k]) < Encode(rs) && CutInRecord(Encode(rs[..k]), 0, rs, k)
  {
    EncodeJoined(rs[..k], rs[k..]);
    assert rs[..k] + rs[k..] == rs && rs[..k + 1] == rs[..k] + [rs[k]];
    EncodeSnoc(rs[..k], rs[k]);
    EncodeLength(rs[k..]);
    FirstOfList(rs, k);
  }

  lemma {:induction false} EncodeJoined(rs: seq<Record>, more: seq<Record>)
    ensures Encode(rs + more) == Encode(rs) + Encode(more)
  {
    if rs == [] {
      assert rs + more == more;
    } else {
      assert (rs + more)[1..] == rs[1..] + more;
      EncodeJoined(rs[1..], more);
      Assoc(EncodeRecord(rs[0]), Encode(rs[1..]), Encode(more));
    }
  }

  /** What the header of the first record announces. */
  function FirstLen(d: seq<Byte>): nat {
    if |d| < 5 then 0 else 256 * d[3] as int + d[4] as int
  }

  /**
   * For any buffer: the amount is above what has come whenever a record is incomplete, and above the handshake
   * bytes that have come otherwise; so it is not above the buffer only if other bytes have come beside the
   * first header and the handshake.
   */
  lemma NeedBeyond(d: seq<Byte>)
    requires Parse(d).NeedMore?
    ensures |d| < 5 ==> Parse(d).needed == 5
    ensures |d| >= 5 ==> d[0] == 22 && d[1] == 3 && 1 <= d[2] <= 3 && 0 < FirstLen(d) <= 18432
    ensures 5 <= |d| < 5 + FirstLen(d) ==> Parse(d).needed == 5 + FirstLen(d)
    ensures |d| >= 5 + FirstLen(d) ==>
              match Gather(d, 5 + FirstLen(d), d[5..5 + FirstLen(d)])
              case Cut(end) => Parse(d).needed == end > |d|
              case Whole(h) => Parse(d).needed > 5 + |h|
    ensures |d| <= 5 + FirstLen(d) ==> Parse(d).needed > |d|
  {
    var end := 5 + FirstLen(d);
    if |d| >= end {
      NeedOfRecords(d, end, d[5..end]);
    }
  }

  lemma NeedOfRecords(d: seq<Byte>, end: nat, first: seq<Byte>)
    requires 5 <= end <= |d| && |first| == end - 5
    ensures match Gather(d, end, first)
            case Cut(n) => n > |d|
            case Whole(h) => (ParseHandshake(h).NeedMore? ==> ParseHandshake(h).needed > 5 + |h|) && |h| >= end - 5
  {
    GatherBound(d, end, first);
    if Gather(d, end, first).Whole? {
      HandshakeNeeds(Gather(d, end, first).handshake);
    }
  }

  lemma HandshakeNeeds(h: seq<Byte>)
    ensures ParseHandshake(h).NeedMore? ==> ParseHandshake(h).needed > 5 + |h|
  {
    if |h| >= 4 {
      HelloEndPrefix(h, h);
      if HelloEnd(h).At? {
        BlockNeeds(h, HelloEnd(h).pos);
      }
    }
  }

  // ---------- The fields ----------

  /** The end of the first field, or length prefix of a field, that does not end by `at`. */
  function NextEdge(ch: Hello, at: nat): (n: nat)
    requires at < BlockStart(ch)
    ensures at < n <= BlockStart(ch)
  {
    var session := 39 + |ch.sessionId|;
    var ciphers := session + 2 + |ch.ciphers|;
    if at < 6 then 6 else if at < 38 then 38 else if at < 39 then 39 else if at < session then session
    else if at < session + 2 then session + 2 else if at < ciphers then ciphers
    else if at < ciphers + 1 then ciphers + 1 else BlockStart(ch)
  }

  lemma WalkBehindRandom(h: seq<Byte>)
    requires |h| >= 4
    ensures |h| < 6 ==> HelloEnd(h) == Short(5 + 6)
    ensures 6 <= |h| < 38 ==> HelloEnd(h) == Short(5 + 38)
    ensures 38 <= |h| ==> HelloEnd(h) == Walk(h, 38, SESSION_ID)
  {
    if |h| >= 6 {
      assert HelloEnd(h) == Walk(h, 6, RANDOM);
    }
  }

  /** The walk by the length bytes it meets, as far as they are there. */
  lemma CutWalk(ch: Hello, h: seq<Byte>, session: nat, ciphers: nat)
    requires |h| >= 4 && session == 39 + |ch.sessionId| && ciphers == session + 2 + |ch.ciphers|
    requires |h| > 38 ==> h[38] == |ch.sessionId|
    requires |h| >= session + 2 ==> Word(h, session) == |ch.ciphers|
    requires |h| > ciphers ==> h[ciphers] == |ch.compression|
    ensures HelloEnd(h) == if |h| < BlockStart(ch) then Short(5 + NextEdge(ch, |h|)) else At(BlockStart(ch))
  {
    WalkBehindRandom(h);
    if |h| >= session {
      WalkNext(h, 38, SESSION_ID, session);
      if |h| >= ciphers {
        WalkNext(h, session, CIPHER_SUITES, ciphers);
        if |h| >= BlockStart(ch) {
          WalkNext(h, ciphers, COMPRESSION, BlockStart(ch));
        }
      }
    }
  }

  lemma CutBytes(ch: Hello, h: seq<Byte>, f: seq<Byte>, rest: seq<Byte>)
    requires Fits(ch) && f == PrintFixed(ch) && |h| >= 4 && h[4..] <= f + rest
    ensures |h| > 38 ==> h[38] == |ch.sessionId|
    ensures var session := 39 + |ch.sessionId|; |h| >= session + 2 ==> Word(h, session) == |ch.ciphers|
    ensures var ciphers := 41 + |ch.sessionId| + |ch.ciphers|; |h| > ciphers ==> h[ciphers] == |ch.compression|
  {
    FixedShape(ch, f);
    var t, session := h[4..], 39 + |ch.sessionId|;
    assert forall i :: 0 <= i < |t| && i < |f| ==> t[i] == f[i];
    assert forall i :: 4 <= i < |h| ==> h[i] == t[i - 4];
    if |h| >= session + 2 {
      assert h[session] == f[session - 4] && h[session + 1] == f[session - 3];
    }
  }

  lemma CutBlock(ch: Hello, h: seq<Byte>, more: seq<Byte>)
    requires Fits(ch) && BlockStart(ch) <= |h| && h[BlockStart(ch)..] == more && more < ExtensionBlock(ch)
    ensures ParseExtensions(h, BlockStart(ch)) ==
            if |more| < 2 then NO_SNI else NeedMore(5 + BlockStart(ch) + |ExtensionBlock(ch)|)
  {
    var block, l := ExtensionBlock(ch), U16Bytes(|PrintExtensions(ch.extensions.value)|);
    if |more| >= 2 {
      U16RoundTrip(|PrintExtensions(ch.extensions.value)|);
      assert more[0] == block[0] == l[0] && more[1] == block[1] == l[1];
      assert h[BlockStart(ch)] == more[0] && h[BlockStart(ch) + 1] == more[1];
    }
  }

  /** The message whose length field covers the first `n` bytes of the hello's body, and nothing more. */
  function CutMessage(ch: Hello, n: nat): seq<Byte>
    requires Fits(ch) && n <= |PrintFixed(ch) + ExtensionBlock(ch)|
  {
    PrintMessage((PrintFixed(ch) + ExtensionBlock(ch))[..n])
  }

  /**
   * A message that ends inside its own fields: the parser asks for the end of the field, or of the length
   * prefix, that is cut; only a cut in front of the block or in its length counts as a missing block.
   */
  lemma CutMessageNeeds(ch: Hello, n: nat)
    requires Fits(ch) && n < |PrintFixed(ch) + ExtensionBlock(ch)|
    ensures ParseHandshake(CutMessage(ch, n)) ==
            if 4 + n < BlockStart(ch) then NeedMore(5 + NextEdge(ch, 4 + n))
            else if 4 + n < BlockStart(ch) + 2 then NO_SNI
            else NeedMore(5 + |Handshake(ch)|)
  {
    var f, block := PrintFixed(ch), ExtensionBlock(ch);
    var body := (f + block)[..n];
    var h := CutMessage(ch, n);
    MessageHeader(body, []);
    assert PrintMessage(body) + [] == h && body + [] == body;
    CutBytes(ch, h, f, block);
    CutWalk(ch, h, 39 + |ch.sessionId|, 41 + |ch.sessionId| + |ch.ciphers|);
    if 4 + n >= BlockStart(ch) {
      var more := h[BlockStart(ch)..];
      BehindFixed(h, f, block, body, more);
      CutBlock(ch, h, more);
      BodyReached(h, BlockStart(ch));
    }
  }

  lemma BehindFixed(h: seq<Byte>, f: seq<Byte>, block: seq<Byte>, body: seq<Byte>, more: seq<Byte>)
    requires |h| >= 4 + |f| && h[4..] == body && body < f + block && more == h[4 + |f|..]
    ensures more < block
  {
    assert more == body[|f|..] == (f + block)[|f|..|body|] == block[..|body| - |f|];
  }

  // ---------- What is no TLS ----------

  /** A handshake record header, by its bytes. */
  lemma HeaderByBytes(d: seq<Byte>, pos: nat)
    ensures HeaderAt(d, pos) <==> pos + 5 <= |d| && d[pos] == 22 && d[pos + 1] == 3 && 1 <= d[pos + 2] <= 3
  {
  }

  /**
   * A buffer is no TLS by its first bytes alone: the type, the version, the length up to 18432, and, once its
   * records are whole, a first handshake byte that is not a hello's.
   */
  lemma NotTlsByBytes(d: seq<Byte>)
    ensures Parse(d) == NotTls <==>
            || d == [] || d[0] != 22
            || (|d| >= 5 && (d[1] != 3 || d[2] < 1 || d[2] > 3 || FirstLen(d) == 0 || FirstLen(d) > 18432))
            || (|d| >= 5 + FirstLen(d) && |d| > 5 && d[5] != 1
                && Gather(d, 5 + FirstLen(d), d[5..5 + FirstLen(d)]).Whole?)
  {
    if FirstHeaderHere(d) {
      var end := 5 + FirstLen(d);
      var first := d[5..end];
      GatherBound(d, end, first);
      if Gather(d, end, first).Whole? {
        var h := Gather(d, end, first).handshake;
        assert h[0] == first[0] == d[5];
        NotTlsHandshake(h);
      }
    }
  }

  predicate FirstHeaderHere(d: seq<Byte>) {
    |d| >= 5 && FirstHeaderOk(d) && |d| >= 5 + FirstLen(d)
  }

  lemma NotTlsHandshake(h: seq<Byte>)
    requires |h| > 0
    ensures ParseHandshake(h) == NotTls <==> h[0] != 1
  {
    if |h| >= 4 && h[0] == CLIENT_HELLO && HelloEnd(h).At? {
      ExtensionsPrefix(h, h, HelloEnd(h).pos);
    }
  }
}
