/** Probes for domains so long that the builder's casts truncate. */
module ProbeLong {
  import opened Bytes
  import opened Types
  import opened TlsParser
  import opened ClientHello
  import opened ServerView
  import opened Probe
  import Utf8

  // ---------- What the parser cannot report ----------

  lemma {:induction false} NameLenFits(ext: seq<Byte>, pos: nat, wire: nat)
    requires FindName(ext, pos, wire).HasSni()
    ensures FindName(ext, pos, wire).proto.sniLen < 0x1_0000
    decreases |ext| - pos
  {
    if ext[pos] != 0 {
      NameLenFits(ext, pos + 3 + Word(ext, pos + 1), wire);
    }
  }

  lemma {:induction false} BlockLenFits(h: seq<Byte>, pos: nat, end: nat)
    requires end <= |h| && FindSni(h, pos, end).HasSni()
    ensures FindSni(h, pos, end).proto.sniLen < 0x1_0000
    decreases end - pos
  {
    var len, body := Word(h, pos + 2), pos + 4;
    if Word(h, pos) == 0 {
      NameLenFits(h[body..body + len], 2, 5 + body);
    } else {
      BlockLenFits(h, body + len, end);
    }
  }

  lemma HandshakeLenFits(h: seq<Byte>)
    requires ParseHandshake(h).HasSni()
    ensures ParseHandshake(h).proto.sniLen < 0x1_0000
  {
    var pos := HelloEnd(h).pos;
    BlockLenFits(h, pos + 2, pos + 2 + Word(h, pos));
  }

  lemma ParsedHandshake(d: seq<Byte>) returns (h: seq<Byte>)
    requires Parse(d).HasSni()
    ensures Parse(d) == ParseHandshake(h)
  {
    h := Gather(d, 5 + FirstRecordLen(d), d[5..5 + FirstRecordLen(d)]).handshake;
  }

  lemma SniLenFits(d: seq<Byte>)
    requires Parse(d).HasSni()
    ensures Parse(d).proto.sniLen < 0x1_0000
  {
    var h := ParsedHandshake(d);
    HandshakeLenFits(h);
  }

  lemma WrapsBelow(n: nat)
    requires n > 0xFFFF
    ensures Low16(n) <= n - 0x1_0000
  {
  }

  lemma ShortRecord(p: seq<Byte>, n: nat)
    requires 5 + n <= |p|
    requires Parse(p) == if 0 < n <= MAX_TLS_RECORD then ParseHandshake(p[5..5 + n]) else NotTls
    ensures Parse(p).HasSni() ==> Parse(p).proto.sniLen <= n
  {
    if Parse(p).HasSni() {
      HandshakeSni(p[5..5 + n]);
    }
  }

  lemma FirstRecordOnly(p: seq<Byte>, n: nat)
    requires HeaderAt(p, 0) && Word(p, 3) == n && 5 + n <= |p| && !HeaderAt(p, 5 + n)
    ensures Parse(p) == if 0 < n <= MAX_TLS_RECORD then ParseHandshake(p[5..5 + n]) else NotTls
  {
    if 0 < n <= MAX_TLS_RECORD {
      assert Gather(p, 5 + n, p[5..5 + n]) == Whole(p[5..5 + n]);
    }
  }

  /**
   * A domain for which a cast truncates: the parser judges as many bytes as the header claims, unless what
   * follows them reads as another record. A name of the domain's length is reported only then, and only
   * while the length itself fits in sixteen bits.
   */
  lemma LongProbeMisread(domain: seq<Byte>, random: seq<Byte>, sessionId: seq<Byte>, key: seq<Byte>)
    requires Sizes(random, sessionId, key) && |domain| + HELLO_OVERHEAD > 0xFFFF
    ensures var p, n := ProbeWire(domain, random, sessionId, key), ClaimedLen(domain);
            && n < |p| - 5
            && (!HeaderAt(p, 5 + n) ==>
                  Parse(p) == if 0 < n <= MAX_TLS_RECORD then ParseHandshake(p[5..5 + n]) else NotTls)
            && (Parse(p).HasSni() && Parse(p).proto.sniLen == |domain| ==> |domain| < 0x1_0000 && HeaderAt(p, 5 + n))
  {
    var p, n := ProbeWire(domain, random, sessionId, key), ClaimedLen(domain);
    ProbeHeader(domain, random, sessionId, key);
    WrapsBelow(|domain| + HELLO_OVERHEAD);
    if !HeaderAt(p, 5 + n) {
      FirstRecordOnly(p, n);
      ShortRecord(p, n);
    }
    if Parse(p).HasSni() {
      SniLenFits(p);
    }
  }

  // ---------- Random bytes that read as a record ----------

  /** The header of a handshake record of 65531 bytes. */
  const FAKE_HEADER: seq<Byte> := [0x16, 3, 1, 0xFF, 0xFB]

  /** A record of `n` bytes, the fake header and exactly what it announces: the parser joins the two. */
  lemma JoinedRecords(p: seq<Byte>, a: seq<Byte>, c: seq<Byte>, n: nat)
    requires p == a + FAKE_HEADER + c && |a| == 5 + n && |c| == 65531 && 0 < n <= MAX_TLS_RECORD
    requires HeaderAt(p, 0) && Word(p, 3) == n
    ensures Parse(p) == ParseHandshake(a[5..] + c)
  {
    HeaderBehind(p, a, c);
    assert p[5..5 + n] == a[5..] && p[|a| + 5..|p|] == c;
    GatherTwo(p, 5 + n, a[5..], c);
  }

  lemma HeaderBehind(p: seq<Byte>, a: seq<Byte>, c: seq<Byte>)
    requires p == a + FAKE_HEADER + c
    ensures HeaderAt(p, |a|) && Word(p, |a| + 3) == 65531
  {
    assert p[|a|] == 0x16 && p[|a| + 1] == 3 && p[|a| + 2] == 1 && p[|a| + 3] == 0xFF && p[|a| + 4] == 0xFB;
  }

  lemma GatherTwo(p: seq<Byte>, pos: nat, acc: seq<Byte>, c: seq<Byte>)
    requires HeaderAt(p, pos) && pos + 5 + Word(p, pos + 3) == |p| && p[pos + 5..|p|] == c
    ensures Gather(p, pos, acc) == Whole(acc + c)
  {
    assert Gather(p, |p|, acc + c) == Whole(acc + c);
  }

  /** The hello the parser sees: five random bytes are gone, the session id begins five bytes later. */
  function SeenHello(
      domain: seq<Byte>, r1: seq<Byte>, r2: seq<Byte>, s1: seq<Byte>, s2: seq<Byte>, key: seq<Byte>): Hello
  {
    Hello(U16Bytes(0x0303), r1 + r2 + [32] + s1, s2, U16s(SUITES), [0], Some(Extensions(domain, key)))
  }

  /** The parts of the five random bytes, the session id and the domain's length that make the fields line up again. */
  predicate LinesUp(
      domain: seq<Byte>, r1: seq<Byte>, r2: seq<Byte>, s1: seq<Byte>, s2: seq<Byte>, key: seq<Byte>)
  {
    |r1| + |r2| == 27 && |s1| == 4 && |s2| == 27 && |key| == 32 && |domain| == |r1| + 65331
  }

  lemma SeenFits(domain: seq<Byte>, r1: seq<Byte>, r2: seq<Byte>, s1: seq<Byte>, s2: seq<Byte>, key: seq<Byte>)
    requires LinesUp(domain, r1, r2, s1, s2, key)
    ensures var ch := SeenHello(domain, r1, r2, s1, s2, key);
            Fits(ch) && BlockStart(ch) == 84 && |PrintExtensions(ch.extensions.value)| == |domain| + 120
  {
    ExtensionsLength(domain, key);
  }

  lemma SeenMeaning(domain: seq<Byte>, r1: seq<Byte>, r2: seq<Byte>, s1: seq<Byte>, s2: seq<Byte>, key: seq<Byte>)
    requires LinesUp(domain, r1, r2, s1, s2, key) && Utf8.Valid(domain)
    ensures Meaning(SeenHello(domain, r1, r2, s1, s2, key)) == Complete(TlsClientHello(Some(domain), 100, |domain|))
  {
    SeenFits(domain, r1, r2, s1, s2, key);
    SniSize(domain);
    Utf8.LossyKeepsValid(domain);
    ProbeMeaning(SeenHello(domain, r1, r2, s1, s2, key), [ServerName(HOST_NAME, domain)], key);
  }

  /** A message that claims less than it has, printed from its parts, has the meaning of its hello. */
  lemma ShortClaim(ch: Hello, h: seq<Byte>, head: seq<Byte>)
    requires Fits(ch) && ch.extensions.Some? && |head| == 4 && h == head + (PrintFixed(ch) + ExtensionBlock(ch))
    requires h[0] == CLIENT_HELLO && MessageLen(h) <= |h|
    ensures ParseHandshake(h) == Meaning(ch)
  {
    var f, block := PrintFixed(ch), ExtensionBlock(ch);
    assert h[4..] == f + block && block + [] == block;
    MessageParsed(ch, h, f, []);
  }

  /** The probe, cut where the fake header stands. */
  lemma CutProbe(
      f: seq<Byte>, g: seq<Byte>, e: seq<Byte>, front: seq<Byte>, back: seq<Byte>) returns (a: seq<Byte>, c: seq<Byte>)
    requires f == front + FAKE_HEADER + back && g == front + back
    ensures CastWire(f, e) == a + FAKE_HEADER + c && |a| == 9 + |front|
    ensures a[5..] + c == [CLIENT_HELLO] + ([0x00] + U16Bytes(|f| + 2 + |e|)) + (g + (U16Bytes(|e|) + e))
  {
    var x := [HANDSHAKE] + U16Bytes(0x0301) + U16Bytes(4 + |f| + 2 + |e|);
    var m, block := [CLIENT_HELLO] + ([0x00] + U16Bytes(|f| + 2 + |e|)), U16Bytes(|e|) + e;
    a, c := x + (m + front), back + block;
    assert a[5..] == m + front;
    assert (m + front) + (back + block) == m + ((front + back) + block);
    assert x + (m + ((front + FAKE_HEADER + back) + block)) == (x + (m + front)) + FAKE_HEADER + (back + block);
  }

  /** What the fixed part ends with: cipher suites and compression methods. */
  function FixedTail(): seq<Byte> {
    U16Bytes(2 * |SUITES|) + U16s(SUITES) + [1] + [0]
  }

  lemma TailBehind(x: seq<Byte>, a: seq<Byte>, b: seq<Byte>, c: seq<Byte>, d: seq<Byte>)
    ensures x + a + b + c + d == x + (a + b + c + d)
  {
  }

  lemma FakeInside(
      v: seq<Byte>, r1: seq<Byte>, fake: seq<Byte>, r2: seq<Byte>, l: seq<Byte>, s1: seq<Byte>, m: seq<Byte>, s2: seq<Byte>)
    ensures v + (r1 + fake + r2) + l + (s1 + m + s2) == (v + r1) + fake + (r2 + l + (s1 + m + s2))
    ensures (v + r1) + (r2 + l + (s1 + m + s2)) == v + (r1 + r2 + l + s1) + m + s2
  {
  }

  lemma FixedCut(r1: seq<Byte>, r2: seq<Byte>, s1: seq<Byte>, s2: seq<Byte>) returns (front: seq<Byte>, back: seq<Byte>)
    ensures FixedPart(r1 + FAKE_HEADER + r2, s1 + [27] + s2) == front + FAKE_HEADER + back && |front| == 2 + |r1|
    ensures front + back == U16Bytes(0x0303) + (r1 + r2 + [32] + s1) + [27] + s2
                            + U16Bytes(2 * |SUITES|) + U16s(SUITES) + [1] + [0]
  {
    var v, l, m, mid := U16Bytes(0x0303), [32], [27], r2 + [32] + (s1 + [27] + s2);
    front, back := v + r1, mid + FixedTail();
    FakeInside(v, r1, FAKE_HEADER, r2, l, s1, m, s2);
    TailBehind(v + (r1 + FAKE_HEADER + r2) + l + (s1 + m + s2), U16Bytes(2 * |SUITES|), U16s(SUITES), [1], [0]);
    TailBehind(v + (r1 + r2 + l + s1) + m + s2, U16Bytes(2 * |SUITES|), U16s(SUITES), [1], [0]);
    Assoc(front + FAKE_HEADER, mid, FixedTail());
    Assoc(front, mid, FixedTail());
  }

  lemma ClaimedMessage(h: seq<Byte>, n: nat, rest: seq<Byte>)
    requires h == [CLIENT_HELLO] + ([0x00] + U16Bytes(n)) + rest
    ensures |h| == 4 + |rest| && h[0] == CLIENT_HELLO && MessageLen(h) == 4 + Low16(n)
  {
    assert h[1] == 0 && h[2] == U16Bytes(n)[0] && h[3] == U16Bytes(n)[1];
    U16Low(n);
  }

  /** Once the fields line up, the parser sees the hello they print. */
  lemma AlignedParse(
      p: seq<Byte>, a: seq<Byte>, c: seq<Byte>, ch: Hello, n: nat, claimed: nat)
    requires p == a + FAKE_HEADER + c && |a| == 5 + n && |c| == 65531 && 0 < n <= MAX_TLS_RECORD
    requires HeaderAt(p, 0) && Word(p, 3) == n && Fits(ch) && ch.extensions.Some?
    requires a[5..] + c == [CLIENT_HELLO] + ([0x00] + U16Bytes(claimed)) + (PrintFixed(ch) + ExtensionBlock(ch))
    requires 4 + Low16(claimed) <= n + 65531
    ensures Parse(p) == Meaning(ch)
  {
    JoinedRecords(p, a, c, n);
    ClaimedMessage(a[5..] + c, claimed, PrintFixed(ch) + ExtensionBlock(ch));
    ShortClaim(ch, a[5..] + c, [CLIENT_HELLO] + ([0x00] + U16Bytes(claimed)));
  }

  lemma Wrapped(n: nat)
    requires n < 0x1_0000
    ensures Low16(n + 0x1_0000) == n && (n >= 4 ==> Low16(n + 0x1_0000 - 4) == n - 4)
  {
  }

  lemma CutParses(f: seq<Byte>, e: seq<Byte>, front: seq<Byte>, back: seq<Byte>, ch: Hello, n: nat)
    requires Fits(ch) && ch.extensions.Some? && e == PrintExtensions(ch.extensions.value)
    requires f == front + FAKE_HEADER + back && front + back == PrintFixed(ch) && n == |front| + 4 <= MAX_TLS_RECORD
    requires 4 + |f| + 2 + |e| == n + 0x1_0000
    ensures Parse(CastWire(f, e)) == Meaning(ch)
  {
    CastHeader(f, e);
    Wrapped(n);
    var a, c := CutProbe(f, front + back, e, front, back);
    AlignedParse(CastWire(f, e), a, c, ch, n, |f| + 2 + |e|);
  }

  /**
   * The domain of a long probe can be found: five of the random bytes read as a record header, the rest of
   * the probe is that record, and with the right byte in the session id the fields line up again.
   */
  lemma RandomReadsAsRecord(
      domain: seq<Byte>, r1: seq<Byte>, r2: seq<Byte>, s1: seq<Byte>, s2: seq<Byte>, key: seq<Byte>)
    requires LinesUp(domain, r1, r2, s1, s2, key) && Utf8.Valid(domain)
    ensures Parse(ProbeWire(domain, r1 + FAKE_HEADER + r2, s1 + [27] + s2, key))
            == Complete(TlsClientHello(Some(domain), 100, |domain|))
  {
    var e, ch := PrintExtensions(Extensions(domain, key)), SeenHello(domain, r1, r2, s1, s2, key);
    SeenFits(domain, r1, r2, s1, s2, key);
    SeenMeaning(domain, r1, r2, s1, s2, key);
    var f, front, back := CutFixed(r1, r2, s1, s2, ch);
    CutParses(f, e, front, back, ch, |r1| + 6);
  }

  lemma CutFixed(r1: seq<Byte>, r2: seq<Byte>, s1: seq<Byte>, s2: seq<Byte>, ch: Hello)
    returns (f: seq<Byte>, front: seq<Byte>, back: seq<Byte>)
    requires |s2| == 27 && ch.version == U16Bytes(0x0303) && ch.random == r1 + r2 + [32] + s1
    requires ch.sessionId == s2 && ch.ciphers == U16s(SUITES) && ch.compression == [0]
    ensures f == FixedPart(r1 + FAKE_HEADER + r2, s1 + [27] + s2) && |f| == |r1| + |r2| + |s1| + 54
    ensures f == front + FAKE_HEADER + back && |front| == 2 + |r1| && front + back == PrintFixed(ch)
  {
    f := FixedPart(r1 + FAKE_HEADER + r2, s1 + [27] + s2);
    front, back := FixedCut(r1, r2, s1, s2);
  }
}
