/** What the bytes behind a message do to its verdict, in the handshake and in the received buffer. */
module MessageEnd {
  import opened Bytes
  import opened TlsParser
  import opened TlsStability
  import opened TlsRecords

  // ---------- Behind the message ----------

  /** The handshake bytes are one hello, by its own length field. */
  predicate WholeMessage(g: seq<Byte>) {
    |g| >= 4 && g[0] == CLIENT_HELLO && |g| == MessageLen(g)
  }

  /** Read as an extension block, the bytes at `pos` are complete and carry no name. */
  predicate PlainBlock(h: seq<Byte>, pos: nat) {
    && pos + 2 <= |h| && pos + 2 + U16At(h, pos) <= |h|
    && FindSni(h, pos + 2, pos + 2 + U16At(h, pos)) == NO_SNI
  }

  /** The verdict on the message does not depend on the bytes that follow it in `h`. */
  predicate Insulated(g: seq<Byte>, h: seq<Byte>)
    requires WholeMessage(g)
  {
    match HelloEnd(g)
    case Short(n) => 5 + |h| < n
    case At(pos) =>
      if pos + 2 > |g| then |h| < pos + 2 || PlainBlock(h, pos)
      else pos + 2 + U16At(g, pos) <= |g| || |h| < pos + 2 + U16At(g, pos)
  }

  /** The verdict on a whole message, by where its walk ends. */
  lemma VerdictByWalk(g: seq<Byte>, h: seq<Byte>)
    requires WholeMessage(g) && g <= h
    ensures ParseHandshake(h) == ParseBody(h)
    ensures HelloEnd(h).Short? ==> ParseHandshake(h) == NeedMore(HelloEnd(h).needed) && HelloEnd(h).needed > 5 + |h|
    ensures HelloEnd(h).At? ==> ParseHandshake(h) == ParseExtensions(h, HelloEnd(h).pos)
    ensures HelloEnd(g).At? ==> HelloEnd(h) == HelloEnd(g)
    ensures HelloEnd(g).Short? && 5 + |h| < HelloEnd(g).needed ==> HelloEnd(h) == HelloEnd(g)
  {
    HelloEndPrefix(g, h);
    HelloEndPrefix(h, h);
  }

  /** The verdict on an extension block, by whether the block is there. */
  lemma BlockVerdict(h: seq<Byte>, pos: nat)
    ensures |h| < pos + 2 ==> ParseExtensions(h, pos) == NO_SNI
    ensures pos + 2 <= |h| < pos + 2 + U16At(h, pos) ==> ParseExtensions(h, pos) == NeedMore(5 + pos + 2 + U16At(h, pos))
    ensures pos + 2 + U16At(h, pos) <= |h| && pos + 2 <= |h| ==>
              ParseExtensions(h, pos) == FindSni(h, pos + 2, pos + 2 + U16At(h, pos)) && ParseExtensions(h, pos).Complete?
  {
    if pos + 2 + U16At(h, pos) <= |h| && pos + 2 <= |h| {
      FindSniCompletes(h, pos + 2, pos + 2 + U16At(h, pos));
    }
  }

  lemma BlockDecides(g: seq<Byte>, h: seq<Byte>, pos: nat)
    requires g <= h && pos <= |g|
    ensures ParseExtensions(h, pos) == ParseExtensions(g, pos) <==>
            if pos + 2 > |g| then |h| < pos + 2 || PlainBlock(h, pos)
            else pos + 2 + U16At(g, pos) <= |g| || |h| < pos + 2 + U16At(g, pos)
  {
    BlockVerdict(g, pos);
    BlockVerdict(h, pos);
    ExtensionsPrefix(g, h, pos);
  }

  /**
   * The fields are walked up to the end of the handshake bytes, not of the message: a longer handshake
   * has the verdict of its first message exactly when the walk cannot use the bytes behind it.
   */
  lemma MessageDecides(g: seq<Byte>, h: seq<Byte>)
    requires WholeMessage(g) && g <= h
    ensures ParseHandshake(h) == ParseHandshake(g) <==> Insulated(g, h)
  {
    VerdictByWalk(g, h);
    VerdictByWalk(g, g);
    match HelloEnd(g) {
      case At(pos) =>
        HelloEndPrefix(g, g);
        BlockDecides(g, h, pos);
      case Short(n) =>
        if HelloEnd(h).At? {
          BlockVerdict(h, HelloEnd(h).pos);
          BlockNeeds(h, HelloEnd(h).pos);
        }
    }
  }

  lemma BlockNeeds(h: seq<Byte>, pos: nat)
    ensures ParseExtensions(h, pos).NeedMore? ==> ParseExtensions(h, pos).needed > 5 + |h|
  {
    BlockVerdict(h, pos);
  }

  /** A message's verdict holds whatever follows it exactly when its extension block is inside it. */
  lemma VerdictIsFinal(g: seq<Byte>)
    requires WholeMessage(g)
    ensures ParseHandshake(g).Complete? && HasExtensions(g) <==> forall h | g <= h :: ParseHandshake(h) == ParseHandshake(g)
  {
    var inside := ParseHandshake(g).Complete? && HasExtensions(g);
    if inside {
      forall h | g <= h ensures ParseHandshake(h) == ParseHandshake(g) {
        InsideIsInsulated(g, h);
        MessageDecides(g, h);
      }
    } else {
      var h := Behind(g);
      OutsideIsNot(g);
      MessageDecides(g, h);
    }
  }

  lemma InsideIsInsulated(g: seq<Byte>, h: seq<Byte>)
    requires WholeMessage(g) && ParseHandshake(g).Complete? && HasExtensions(g)
    ensures Insulated(g, h)
  {
    BlockVerdict(g, HelloEnd(g).pos);
  }

  /** What can follow a message to change its verdict: enough bytes, or a length no block has yet. */
  function Behind(g: seq<Byte>): (h: seq<Byte>)
    requires WholeMessage(g)
    ensures g <= h
  {
    if ParseHandshake(g).NeedMore? then g + Zeros(ParseHandshake(g).needed) else g + [255, 255]
  }

  lemma OutsideIsNot(g: seq<Byte>)
    requires WholeMessage(g) && !(ParseHandshake(g).Complete? && HasExtensions(g))
    ensures !Insulated(g, Behind(g))
  {
    VerdictByWalk(g, g);
    HelloEndPrefix(g, g);
    if HelloEnd(g).At? {
      var pos, h := HelloEnd(g).pos, Behind(g);
      BlockVerdict(g, pos);
      if |g| < pos + 2 {
        assert h == g + [255, 255] && U16At(h, pos) >= 255;
      }
    }
  }

  /** A server_name extension with one empty host name. */
  const EMPTY_NAME: seq<Byte> := [0, 0, 0, 5, 0, 3, 0, 0, 0]

  /** The handshake holds, at `pos`, the length of an extension block that starts with an empty name. */
  predicate NameBlockAt(g: seq<Byte>, pos: nat) {
    && pos + 11 <= |g| && 9 <= U16At(g, pos) && pos + 2 + U16At(g, pos) <= |g|
    && g[pos + 2..pos + 11] == EMPTY_NAME
  }

  lemma EmptyNameFound(g: seq<Byte>, pos: nat)
    requires NameBlockAt(g, pos)
    ensures ParseExtensions(g, pos).HasSni()
  {
    var e := g[pos + 2..pos + 11];
    assert e[0] == g[pos + 2] && e[1] == g[pos + 3] && e[2] == g[pos + 4] && e[3] == g[pos + 5];
    var body := g[pos + 6..pos + 11];
    assert body == [0, 3, 0, 0, 0] by {
      Window(g, pos + 2, pos + 11, 4, 9);
    }
  }

  /** A hello without extension block turns into one with a name when such a block follows it. */
  lemma NameFromBehind(g: seq<Byte>, h: seq<Byte>)
    requires ParseHandshake(g) == NO_SNI && g <= h
    requires HelloEnd(g).At? && NameBlockAt(h, HelloEnd(g).pos) && !HasExtensions(g)
    ensures ParseHandshake(h).HasSni()
  {
    HelloEndPrefix(g, h);
    EmptyNameFound(h, HelloEnd(g).pos);
  }

  /** The shortest hello: no session id, cipher suites, compression methods or extensions. */
  function BareHello(): (g: seq<Byte>)
    ensures |g| == 42
  {
    [CLIENT_HELLO, 0, 0, 38, 3, 3] + Zeros(32) + [0, 0, 0, 0]
  }

  lemma BareWalk(g: seq<Byte>)
    requires |g| >= 42 && g[38] == 0 && g[39] == 0 && g[40] == 0 && g[41] == 0
    ensures HelloEnd(g) == At(42)
  {
    assert Walk(g, 42, EXTENSIONS) == At(42);
    assert Walk(g, 41, COMPRESSION) == At(42);
    assert Walk(g, 39, CIPHER_SUITES) == At(42);
    assert Walk(g, 38, SESSION_ID) == At(42);
    assert Walk(g, 6, RANDOM) == At(42);
  }

  /** An input on which the message alone and the message with eleven bytes behind it are judged differently. */
  lemma BytesBehindAreRead()
    ensures WholeMessage(BareHello()) && ParseHandshake(BareHello()) == NO_SNI
    ensures ParseHandshake(BareHello() + ([0, 9] + EMPTY_NAME)).HasSni()
  {
    var g := BareHello();
    BareWalk(g);
    ElevenBehind(g, g + ([0, 9] + EMPTY_NAME));
  }

  lemma ElevenBehind(g: seq<Byte>, h: seq<Byte>)
    requires |g| == 42 && WholeMessage(g) && HelloEnd(g) == At(42) && h == g + ([0, 9] + EMPTY_NAME)
    ensures ParseHandshake(g) == NO_SNI && ParseHandshake(h).HasSni()
  {
    assert h[44..53] == EMPTY_NAME;
    NameFromBehind(g, h);
  }

  // ---------- In the received buffer ----------

  /** Where the gathering of continuation records stops. */
  function GatherEnd(d: seq<Byte>, pos: nat): (p: nat)
    requires pos <= |d|
    ensures pos <= p <= |d|
    decreases |d| - pos
  {
    if !HeaderAt(d, pos) then pos
    else
      var end := pos + 5 + Word(d, pos + 3);
      if |d| < end then pos else GatherEnd(d, end)
  }

  /** The bytes may still grow into the header of a continuation record. */
  predicate MayBecomeHeader(t: seq<Byte>) {
    && |t| < 5
    && (|t| >= 1 ==> t[0] == HANDSHAKE) && (|t| >= 2 ==> t[1] == 3) && (|t| >= 3 ==> 1 <= t[2] <= 3)
  }

  /** No continuation can follow: every longer buffer carries the same handshake. */
  lemma {:induction false} GatherStops(d: seq<Byte>, x: seq<Byte>, pos: nat, acc: seq<Byte>)
    requires d <= x && pos <= |d| && Gather(d, pos, acc).Whole? && !MayBecomeHeader(d[GatherEnd(d, pos)..])
    ensures Gather(x, pos, acc) == Gather(d, pos, acc)
    decreases |d| - pos
  {
    if HeaderAt(d, pos) {
      var end := pos + 5 + Word(d, pos + 3);
      PrefixSlice(d, x, pos + 5, end);
      GatherStops(d, x, end, acc + d[pos + 5..end]);
    } else {
      NoHeader(d, x, pos);
    }
  }

  lemma NoHeader(d: seq<Byte>, x: seq<Byte>, pos: nat)
    requires d <= x && pos <= |d| && !HeaderAt(d, pos) && !MayBecomeHeader(d[pos..])
    ensures !HeaderAt(x, pos)
  {
    var t := d[pos..];
    assert forall i :: 0 <= i < |t| ==> t[i] == x[pos + i];
    assert |t| >= 3 ==> t[2] == x[pos + 2];
  }

  lemma GatherOnce(d: seq<Byte>, pos: nat, acc: seq<Byte>, end: nat, body: seq<Byte>)
    requires HeaderAt(d, pos) && end == pos + 5 + Word(d, pos + 3) <= |d| && body == d[pos + 5..end]
    ensures Gather(d, pos, acc) == Gather(d, end, acc + body)
  {
  }

  lemma HeaderKept(d: seq<Byte>, x: seq<Byte>, pos: nat)
    requires d <= x && HeaderAt(d, pos)
    ensures HeaderAt(x, pos) && Word(x, pos + 3) == Word(d, pos + 3)
  {
  }

  /** Buffers that agree up to where the gathering stops carry the same handshake up to there. */
  lemma {:induction false} GatherGoesOn(d: seq<Byte>, x: seq<Byte>, pos: nat, acc: seq<Byte>)
    requires d <= x && pos <= |d| && Gather(d, pos, acc).Whole?
    ensures Gather(x, pos, acc) == Gather(x, GatherEnd(d, pos), Gather(d, pos, acc).handshake)
    decreases |d| - pos
  {
    if HeaderAt(d, pos) {
      var end := pos + 5 + Word(d, pos + 3);
      var body := d[pos + 5..end];
      HeaderKept(d, x, pos);
      PrefixSlice(d, x, pos + 5, end);
      GatherOnce(d, pos, acc, end, body);
      GatherOnce(x, pos, acc, end, body);
      GatherGoesOn(d, x, end, acc + body);
    }
  }

  /** Handshake bytes that bring a name, followed by `fill` zeros. */
  function NameBytes(h: seq<Byte>, pos: nat, fill: nat): (m: seq<Byte>)
    requires pos <= |h| < pos + 2
  {
    if pos == |h| then [0, 9] + EMPTY_NAME + Zeros(fill)
    else [9] + EMPTY_NAME + Zeros(U16(h[pos], 0) + fill)
  }

  lemma NameBytesWork(h: seq<Byte>, pos: nat, fill: nat)
    requires pos <= |h| < pos + 2
    ensures NameBlockAt(h + NameBytes(h, pos, fill), pos)
    ensures fill <= |NameBytes(h, pos, fill)| < 0x1_0000 + fill
  {
    var m := NameBytes(h, pos, fill);
    var g := h + m;
    if pos == |h| {
      assert m[2..11] == EMPTY_NAME && g[pos + 2..pos + 11] == m[2..11];
    } else {
      assert m[1..10] == EMPTY_NAME && g[pos + 2..pos + 11] == m[1..10];
      assert U16At(g, pos) == U16(h[pos], 0) + 9;
    }
  }

  /** Two records that continue the header begun by `t` and carry `m`. */
  function Continuation(t: seq<Byte>, m: seq<Byte>): (rs: seq<Record>)
    requires MayBecomeHeader(t) && FirstLen(t) <= |m|
    ensures |rs| == 2
  {
    [Record(3, if |t| >= 3 then t[2] else 1, m[..FirstLen(t)]), Record(3, 1, m[FirstLen(t)..])]
  }

  function FirstLen(t: seq<Byte>): nat {
    if |t| >= 4 then U16(t[3], 0) else 0
  }

  lemma HighByteKept(b: Byte)
    ensures U16Bytes(U16(b, 0))[0] == b
  {
    U16RoundTrip(U16(b, 0));
  }

  lemma ContinuationFits(t: seq<Byte>, m: seq<Byte>)
    requires MayBecomeHeader(t) && FirstLen(t) <= |m| < 0x1_0000 + FirstLen(t)
    ensures var rs := Continuation(t, m); AllSound(rs) && Payload(rs) == m && t <= Encode(rs)
  {
    var rs := Continuation(t, m);
    var last := rs[1..];
    assert last == [rs[1]];
    EncodeOne(rs[1]);
    assert last[1..] == [];
    if |t| >= 4 {
      HighByteKept(t[3]);
    }
    assert Encode(rs) == EncodeRecord(rs[0]) + EncodeRecord(rs[1]);
    assert t <= EncodeRecord(rs[0]);
  }

  /** The records gathered behind the first, and the handshake they complete. */
  lemma Continued(x: seq<Byte>, p: nat, h: seq<Byte>, rs: seq<Record>)
    requires 0 < p <= |x| && AllSound(rs) && x[p..] == Encode(rs)
    ensures Gather(x, p, h) == Whole(h + Payload(rs))
  {
    assert x[p..] == Encode(rs) + [];
    HoldsEncoded(x, p, rs, []);
    GatherHeld(x, p, h, rs, |x|);
  }

  /** The handshake a buffer with a complete first record carries, and what is left behind it. */
  function Carried(d: seq<Byte>): Gathered
    requires |d| >= 5 && 5 + FirstRecordLen(d) <= |d|
  {
    Gather(d, 5 + FirstRecordLen(d), d[5..5 + FirstRecordLen(d)])
  }

  function LeftBehind(d: seq<Byte>): seq<Byte>
    requires |d| >= 5 && 5 + FirstRecordLen(d) <= |d|
  {
    d[GatherEnd(d, 5 + FirstRecordLen(d))..]
  }

  /** A buffer that carries more handshake bytes, the first record being the same. */
  lemma {:induction false} CarriesMore(d: seq<Byte>, x: seq<Byte>, h: seq<Byte>, rs: seq<Record>)
    requires |d| >= 5 && FirstHeaderOk(d) && 5 + FirstRecordLen(d) <= |d| && Carried(d) == Whole(h)
    requires d <= x && AllSound(rs) && x == d[..GatherEnd(d, 5 + FirstRecordLen(d))] + Encode(rs)
    ensures Parse(x) == ParseHandshake(h + Payload(rs))
  {
    var e := 5 + FirstRecordLen(d);
    PrefixSlice(d, x, 5, e);
    GatherGoesOn(d, x, e, d[5..e]);
    assert x[GatherEnd(d, e)..] == Encode(rs);
    Continued(x, GatherEnd(d, e), h, rs);
  }

  /** When the block is missing and a record may follow, some continuation brings a name. */
  lemma NameMayFollow(d: seq<Byte>, h: seq<Byte>) returns (x: seq<Byte>)
    requires |d| >= 5 && FirstHeaderOk(d) && 5 + FirstRecordLen(d) <= |d| && Carried(d) == Whole(h)
    requires ParseHandshake(h) == NO_SNI && !HasExtensions(h) && MayBecomeHeader(LeftBehind(d))
    ensures d <= x && Parse(x).HasSni()
  {
    var p, t := GatherEnd(d, 5 + FirstRecordLen(d)), LeftBehind(d);
    var m := NamingBytes(h, FirstLen(t));
    ContinuationFits(t, m);
    var rs := Continuation(t, m);
    x := d[..p] + Encode(rs);
    assert d == d[..p] + t;
    CarriesMore(d, x, h, rs);
  }

  lemma NamingBytes(h: seq<Byte>, fill: nat) returns (m: seq<Byte>)
    requires ParseHandshake(h) == NO_SNI && !HasExtensions(h)
    ensures ParseHandshake(h + m).HasSni() && fill <= |m| < 0x1_0000 + fill
  {
    HelloEndPrefix(h, h);
    m := NameBytes(h, HelloEnd(h).pos, fill);
    NameBytesWork(h, HelloEnd(h).pos, fill);
    NameFromBehind(h, h + m);
  }

  /**
   * "No SNI" for a received buffer stays, up to waiting for records, exactly when the extension block is
   * there or nothing that follows can be read as a further record.
   */
  lemma NoSniIsFinal(d: seq<Byte>)
    requires Parse(d) == NO_SNI
    ensures |d| >= 5 && 5 + FirstRecordLen(d) <= |d| && Carried(d).Whole?
    ensures HasExtensions(Carried(d).handshake) || !MayBecomeHeader(LeftBehind(d))
            <==> forall x | d <= x :: Parse(x) == NO_SNI || Parse(x).NeedMore?
  {
    CompleteHeader(d);
    var h := Carried(d).handshake;
    if HasExtensions(h) || !MayBecomeHeader(LeftBehind(d)) {
      forall x | d <= x ensures Parse(x) == NO_SNI || Parse(x).NeedMore? {
        StaysNoSni(d, x, h);
      }
    } else {
      var x := NameMayFollow(d, h);
    }
  }

  lemma StaysNoSni(d: seq<Byte>, x: seq<Byte>, h: seq<Byte>)
    requires Parse(d) == NO_SNI && d <= x && |d| >= 5 && FirstHeaderOk(d) && 5 + FirstRecordLen(d) <= |d|
    requires Carried(d) == Whole(h) && (HasExtensions(h) || !MayBecomeHeader(LeftBehind(d)))
    ensures Parse(x) == NO_SNI || Parse(x).NeedMore?
  {
    var e := 5 + FirstRecordLen(d);
    ParsePrefix(d, x);
    if HasExtensions(h) {
      var s := Gather(x, e, d[5..e]);
      if s.Whole? {
        BlockAlreadyThere(h, s.handshake);
      }
    } else {
      GatherStops(d, x, e, d[5..e]);
    }
  }
}
