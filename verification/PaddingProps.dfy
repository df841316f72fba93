/** Padding preserves meaning: lengths stay consistent, the list gains one extension, the SNI stays put. */
module PaddingProps {
  import opened Bytes
  import opened Types
  import opened TlsParser
  import opened TlsStability
  import opened TlsRecords
  import opened ClientHello
  import opened Padding

  // ---------- Splicing concatenations ----------

  lemma SpliceRight(a: seq<Byte>, s: seq<Byte>, at: nat, b: seq<Byte>)
    requires at + |b| <= |s|
    ensures Splice(a + s, |a| + at, b) == a + Splice(s, at, b)
  {
    var k := |a| + at;
    assert (a + s)[..k] == a + s[..at];
    assert (a + s)[k + |b|..] == s[at + |b|..];
  }

  lemma SpliceLeft(s: seq<Byte>, c: seq<Byte>, at: nat, b: seq<Byte>)
    requires at + |b| <= |s|
    ensures Splice(s + c, at, b) == Splice(s, at, b) + c
  {
    assert (s + c)[..at] == s[..at];
    assert (s + c)[at + |b|..] == s[at + |b|..] + c;
  }

  lemma SpliceEnd(a: seq<Byte>, was: seq<Byte>, b: seq<Byte>)
    requires |was| == |b|
    ensures Splice(a + was, |a|, b) == a + b
  {
    assert (a + was)[..|a|] == a;
  }

  // ---------- Printed hellos ----------

  function WithPadding(ch: Hello, padLen: nat): Hello
    requires ch.extensions.Some?
  {
    ch.(extensions := Some(ch.extensions.value + [PadExtension(padLen)]))
  }

  lemma {:induction false} PrintSnoc(es: seq<Extension>, e: Extension)
    ensures PrintExtensions(es + [e]) == PrintExtensions(es) + PrintExtension(e)
  {
    var all := es + [e];
    if es == [] {
      assert all == [e] && [e][1..] == [];
      assert PrintExtension(e) + [] == PrintExtension(e);
    } else {
      assert all[0] == es[0] && all[1..] == es[1..] + [e];
      PrintSnoc(es[1..], e);
      Assoc(PrintExtension(es[0]), PrintExtensions(es[1..]), PrintExtension(e));
    }
  }

  lemma {:induction false} FitsSnoc(es: seq<Extension>, e: Extension)
    requires ExtensionsFit(es) && ExtensionFits(e)
    ensures ExtensionsFit(es + [e])
  {
    var all := es + [e];
    if es != [] {
      assert all[0] == es[0] && all[1..] == es[1..] + [e];
      FitsSnoc(es[1..], e);
    } else {
      assert all == [e] && [e][1..] == [];
    }
  }

  /** Growing the lengths of record header, handshake header and extension block, part by part. */
  lemma GrownParts(x: seq<Byte>, rl: seq<Byte>, t: seq<Byte>, hl: seq<Byte>, f: seq<Byte>, el: seq<Byte>,
                                      es: seq<Byte>, record: nat, handshake: nat, extensions: nat)
    requires |x| == 3 && |rl| == 2 && |t| == 1 && |hl| == 3 && |el| == 2 && handshake < 0x100_0000
    ensures Grown((x + rl) + ((t + hl) + (f + (el + es))), 9 + |f|, record, handshake, extensions)
         == (x + U16Bytes(record)) + ((t + U24Bytes(handshake)) + (f + (U16Bytes(extensions) + es)))
  {
    var r, h, e := U16Bytes(record), U24Bytes(handshake), U16Bytes(extensions);
    var block := el + es;
    var body := f + block;
    var msg := (t + hl) + body;
    SpliceLeft(x + rl, msg, 3, r);
    SpliceEnd(x, rl, r);
    SpliceRight(x + r, msg, 1, h);
    SpliceLeft(t + hl, body, 1, h);
    SpliceEnd(t, hl, h);
    SpliceRight(x + r, (t + h) + body, 4 + |f|, e);
    SpliceRight(t + h, body, |f|, e);
    SpliceRight(f, block, 0, e);
    SpliceLeft(el, es, 0, e);
    SpliceAll(el, e);
  }

  lemma SpliceAll(was: seq<Byte>, b: seq<Byte>)
    requires |was| == |b|
    ensures Splice(was, 0, b) == b
  {
  }

  /** The wire form of a hello in one record. */
  function OneRecord(major: Byte, minor: Byte, ch: Hello): seq<Byte>
    requires Fits(ch)
  {
    EncodeRecord(Record(major, minor, Handshake(ch)))
  }

  /** A one-record hello from its fixed fields and its extensions, grouped as the length fields enclose them. */
  function Wire(major: Byte, minor: Byte, f: seq<Byte>, e: seq<Byte>): (p: seq<Byte>)
    requires |f| + 2 + |e| < 0x100_0000
  {
    ([HANDSHAKE, major, minor] + U16Bytes(4 + |f| + 2 + |e|))
    + (([CLIENT_HELLO] + U24Bytes(|f| + 2 + |e|)) + (f + (U16Bytes(|e|) + e)))
  }

  lemma MessageWire(f: seq<Byte>, e: seq<Byte>, body: seq<Byte>)
    requires |f| + 2 + |e| < 0x100_0000 && body == f + (U16Bytes(|e|) + e)
    ensures |PrintMessage(body)| == 4 + |f| + 2 + |e|
    ensures PrintMessage(body) == ([CLIENT_HELLO] + U24Bytes(|f| + 2 + |e|)) + (f + (U16Bytes(|e|) + e))
  {
  }

  lemma OneRecordWire(major: Byte, minor: Byte, ch: Hello)
    requires Fits(ch) && ch.extensions.Some?
    ensures var f, e := PrintFixed(ch), PrintExtensions(ch.extensions.value);
            && |f| + 2 + |e| < 0x100_0000 && |Handshake(ch)| == 4 + |f| + 2 + |e|
            && OneRecord(major, minor, ch) == Wire(major, minor, f, e)
  {
    MessageWire(PrintFixed(ch), PrintExtensions(ch.extensions.value), PrintFixed(ch) + ExtensionBlock(ch));
  }

  /** Growing the lengths behind an appended extension is printing the longer list. */
  lemma GrownWire(major: Byte, minor: Byte, f: seq<Byte>, e: seq<Byte>, pad: seq<Byte>)
    requires |f| + 2 + |e| + |pad| < 0x100_0000 - 4
    ensures Grown(Wire(major, minor, f, e) + pad, 9 + |f|,
                  4 + |f| + 2 + |e + pad|, |f| + 2 + |e + pad|, |e + pad|)
            == Wire(major, minor, f, e + pad)
  {
    var x, rl, t, hl, el := [HANDSHAKE, major, minor], U16Bytes(4 + |f| + 2 + |e|),
                            [CLIENT_HELLO], U24Bytes(|f| + 2 + |e|), U16Bytes(|e|);
    var longer := e + pad;
    AppendInside(x + rl, t + hl, f, el, e, pad);
    GrownParts(x, rl, t, hl, f, el, longer, 4 + |f| + 2 + |longer|, |f| + 2 + |longer|, |longer|);
  }

  lemma AppendInside(a: seq<Byte>, b: seq<Byte>, f: seq<Byte>, l: seq<Byte>, e: seq<Byte>, pad: seq<Byte>)
    ensures a + (b + (f + (l + e))) + pad == a + (b + (f + (l + (e + pad))))
  {
    Assoc(a, b + (f + (l + e)), pad);
    Assoc(b, f + (l + e), pad);
    Assoc(f, l + e, pad);
    Assoc(l, e, pad);
  }

  lemma InsertedAtEnd(p: seq<Byte>, padLen: nat)
    ensures Inserted(p, |p|, padLen) == p + PrintExtension(PadExtension(padLen))
  {
    assert p[..|p|] == p && p[|p|..] == [];
  }

  lemma AppliedAtEnd(p: seq<Byte>, padLen: nat, x: Plan)
    requires Sane(p, x) && x.end == |p|
    ensures Applied(p, padLen, x)
            == Grown(p + PrintExtension(PadExtension(padLen)), x.blockPos, x.record, x.handshake, x.extensions)
  {
    InsertedAtEnd(p, padLen);
  }

  lemma WireLength(major: Byte, minor: Byte, f: seq<Byte>, e: seq<Byte>)
    requires |f| + 2 + |e| < 0x100_0000
    ensures |Wire(major, minor, f, e)| == 9 + |f| + 2 + |e|
  {
  }

  /** What the walk over a one-record hello finds. */
  lemma BlockFound(major: Byte, minor: Byte, ch: Hello)
    requires Fits(ch) && ch.extensions.Some? && |Handshake(ch)| < 0x1_0000
    ensures var p, e := OneRecord(major, minor, ch), PrintExtensions(ch.extensions.value);
            && |p| == 5 + BlockStart(ch) + 2 + |e| && p[5..] == Handshake(ch)
            && p[0] == HANDSHAKE && p[5] == CLIENT_HELLO
            && Word(p, 3) == |Handshake(ch)| && Word24(p, 6) == |Handshake(ch)| - 4
            && HelloEnd(p[5..]) == At(BlockStart(ch)) && U16At(p[5..], BlockStart(ch)) == |e|
  {
    var p, h, body := OneRecord(major, minor, ch), Handshake(ch), PrintFixed(ch) + ExtensionBlock(ch);
    var e := PrintExtensions(ch.extensions.value);
    RecordHeader(p, Record(major, minor, h));
    MessageHeader(body, []);
    assert h + [] == h && body + [] == body;
    FixedPartSkipped(ch, h, PrintFixed(ch), ExtensionBlock(ch));
    assert ExtensionBlock(ch) == U16Bytes(|e|) + e + [];
    LengthPrefixed(h, BlockStart(ch), e, []);
    HeaderBytes(p, h);
  }

  lemma RecordHeader(p: seq<Byte>, r: Record)
    requires |r.body| < 0x1_0000 && p == EncodeRecord(r)
    ensures p[0] == HANDSHAKE && Word(p, 3) == |r.body| && p[5..] == r.body
  {
    U16RoundTrip(|r.body|);
  }

  lemma HeaderBytes(p: seq<Byte>, h: seq<Byte>)
    requires |h| >= 4 && |p| == 5 + |h| && p[5..] == h
    ensures p[5] == h[0] && Word24(p, 6) == Word24(h, 1)
  {
    assert p[5] == p[5..][0] && p[6] == p[5..][1] && p[7] == p[5..][2] && p[8] == p[5..][3];
  }

  lemma PaddingFits(ch: Hello, padLen: nat)
    requires Fits(ch) && ch.extensions.Some? && |Handshake(ch)| + 4 + padLen <= 0xFFFF
    ensures Fits(WithPadding(ch, padLen))
    ensures PrintExtensions(WithPadding(ch, padLen).extensions.value)
         == PrintExtensions(ch.extensions.value) + PrintExtension(PadExtension(padLen))
  {
    PrintSnoc(ch.extensions.value, PadExtension(padLen));
    FitsSnoc(ch.extensions.value, PadExtension(padLen));
  }

  lemma AppliedWire(major: Byte, minor: Byte, f: seq<Byte>, e: seq<Byte>, padLen: nat, x: Plan)
    requires |f| + 2 + |e| + 4 + padLen < 0x100_0000 - 4
    requires x.blockPos == 9 + |f| && x.end == 9 + |f| + 2 + |e| && x.extensions == |e| + 4 + padLen
    requires x.handshake == |f| + 2 + x.extensions && x.record == 4 + x.handshake
    ensures var p := Wire(major, minor, f, e);
            Sane(p, x) && Applied(p, padLen, x) == Wire(major, minor, f, e + PrintExtension(PadExtension(padLen)))
  {
    WireLength(major, minor, f, e);
    AppliedAtEnd(Wire(major, minor, f, e), padLen, x);
    GrownWire(major, minor, f, e, PrintExtension(PadExtension(padLen)));
  }

  /** The padded one-record hello, by its parts. */
  lemma PaddedRecord(major: Byte, minor: Byte, ch: Hello, padLen: nat, f: seq<Byte>, e: seq<Byte>)
    requires Fits(ch) && ch.extensions.Some? && |Handshake(ch)| + 4 + padLen <= 0xFFFF
    requires f == PrintFixed(ch) && e == PrintExtensions(ch.extensions.value) && Fits(WithPadding(ch, padLen))
    ensures OneRecord(major, minor, ch) == Wire(major, minor, f, e) && |Handshake(ch)| == 4 + |f| + 2 + |e|
    ensures |Handshake(WithPadding(ch, padLen))| == |Handshake(ch)| + 4 + padLen
    ensures OneRecord(major, minor, WithPadding(ch, padLen))
         == Wire(major, minor, f, e + PrintExtension(PadExtension(padLen)))
  {
    PaddingFits(ch, padLen);
    OneRecordWire(major, minor, ch);
    OneRecordWire(major, minor, WithPadding(ch, padLen));
  }

  /** The plan for a one-record hello: append to its extensions, grow all three lengths alike. */
  function HelloPlan(ch: Hello, padLen: nat): Plan
    requires Fits(ch) && ch.extensions.Some?
  {
    var l, e, n := |Handshake(ch)|, |PrintExtensions(ch.extensions.value)|, 4 + padLen;
    Plan(5 + BlockStart(ch), 5 + l, l + n, l - 4 + n, e + n)
  }

  /** Padding a one-record hello fails exactly when the longer message does not fit the record length. */
  lemma PlanForHello(major: Byte, minor: Byte, ch: Hello, padLen: nat)
    requires Fits(ch) && ch.extensions.Some? && |Handshake(ch)| < 0x1_0000
    ensures PlanFor(OneRecord(major, minor, ch), padLen)
         == if |Handshake(ch)| + 4 + padLen > 0xFFFF then None else Some(HelloPlan(ch, padLen))
  {
    BlockFound(major, minor, ch);
    PlanOnce(OneRecord(major, minor, ch), padLen, HelloPlan(ch, padLen));
  }

  lemma PlanOnce(p: seq<Byte>, padLen: nat, x: Plan)
    requires |p| >= 43 && p[0] == HANDSHAKE && p[5] == CLIENT_HELLO && BlockInside(p[5..])
    requires x.blockPos == 5 + HelloEnd(p[5..]).pos && x.end == x.blockPos + 2 + U16At(p[5..], x.blockPos - 5)
    requires x.extensions == U16At(p[5..], x.blockPos - 5) + 4 + padLen && x.extensions <= x.record
    requires x.record == Word(p, 3) + 4 + padLen && x.handshake == Word24(p, 6) + 4 + padLen
    requires x.handshake <= x.record
    ensures PlanFor(p, padLen) == if x.record > 0xFFFF then None else Some(x)
  {
  }

  /**
   * Padding a one-record hello is adding one extension at the end of its list: record, handshake
   * and extensions length all are those of the longer message.
   */
  lemma PlanAppendsExtension(major: Byte, minor: Byte, ch: Hello, padLen: nat)
    requires Fits(ch) && ch.extensions.Some? && |Handshake(ch)| + 4 + padLen <= 0xFFFF
    ensures Fits(WithPadding(ch, padLen)) && Sane(OneRecord(major, minor, ch), HelloPlan(ch, padLen))
    ensures Applied(OneRecord(major, minor, ch), padLen, HelloPlan(ch, padLen))
         == OneRecord(major, minor, WithPadding(ch, padLen))
  {
    var f, e := PrintFixed(ch), PrintExtensions(ch.extensions.value);
    PaddingFits(ch, padLen);
    PaddedRecord(major, minor, ch, padLen, f, e);
    AppliedWire(major, minor, f, e, padLen, HelloPlan(ch, padLen));
  }

  /** Padding a one-record hello yields the record of the hello with one more extension, or fails for its length. */
  lemma PaddedHello(major: Byte, minor: Byte, ch: Hello, padLen: nat)
    requires Fits(ch) && ch.extensions.Some? && |Handshake(ch)| < 0x1_0000
    ensures |Handshake(ch)| + 4 + padLen <= 0xFFFF ==> Fits(WithPadding(ch, padLen))
    ensures Padded(OneRecord(major, minor, ch), padLen)
         == if |Handshake(ch)| + 4 + padLen > 0xFFFF then None
            else Some(OneRecord(major, minor, WithPadding(ch, padLen)))
  {
    PlanForHello(major, minor, ch, padLen);
    if |Handshake(ch)| + 4 + padLen <= 0xFFFF {
      PlanAppendsExtension(major, minor, ch, padLen);
    }
  }

  lemma {:induction false} PaddingMeansNothing(es: seq<Extension>, padLen: nat, wire: nat)
    ensures ExtensionsMeaning(es + [PadExtension(padLen)], wire) == ExtensionsMeaning(es, wire)
  {
    var all := es + [PadExtension(padLen)];
    if es == [] {
      assert all == [PadExtension(padLen)] && all[1..] == [];
    } else {
      assert all[0] == es[0] && all[1..] == es[1..] + [PadExtension(padLen)];
      PaddingMeansNothing(es[1..], padLen, wire + 4 + |es[0].body|);
    }
  }

  /** The padded hello has the same meaning. */
  lemma PaddedMeaning(ch: Hello, padLen: nat)
    requires Fits(ch) && ch.extensions.Some?
    ensures Meaning(WithPadding(ch, padLen)) == Meaning(ch) && Meaning(ch).Complete?
  {
    PaddingMeansNothing(ch.extensions.value, padLen, 5 + BlockStart(ch) + 2);
    ExtensionsComplete(ch.extensions.value, 5 + BlockStart(ch) + 2);
  }

  lemma PaddedLength(ch: Hello, padLen: nat)
    requires Fits(ch) && ch.extensions.Some? && |Handshake(ch)| + 4 + padLen <= 0xFFFF && Fits(WithPadding(ch, padLen))
    ensures |Handshake(WithPadding(ch, padLen))| == |Handshake(ch)| + 4 + padLen
  {
    PaddingFits(ch, padLen);
  }

  /** It parses to that meaning exactly while the record stays within the parser's limit. */
  lemma PaddedHelloParses(major: Byte, minor: Byte, ch: Hello, padLen: nat)
    requires Fits(ch) && ch.extensions.Some? && VersionOk(major, minor)
    requires |Handshake(ch)| + 4 + padLen <= 0xFFFF && Fits(WithPadding(ch, padLen))
    ensures Parse(OneRecord(major, minor, WithPadding(ch, padLen))) == Meaning(ch)
            <==> |Handshake(ch)| + 4 + padLen <= MAX_TLS_RECORD
  {
    PaddedMeaning(ch, padLen);
    PaddedLength(ch, padLen);
    OneRecordParses(Record(major, minor, Handshake(WithPadding(ch, padLen))), WithPadding(ch, padLen));
  }

  lemma OneRecordParses(r: Record, ch: Hello)
    requires Fits(ch) && r.body == Handshake(ch) && VersionOk(r.major, r.minor) && 0 < |r.body| < 0x1_0000
    ensures Parse(EncodeRecord(r)) == if |r.body| <= MAX_TLS_RECORD then Meaning(ch) else NotTls
  {
    EncodeOne(r);
    if |r.body| <= MAX_TLS_RECORD {
      assert [r][1..] == [];
      ParserInvertsWire(ch, [r]);
    } else {
      RecordHeader(EncodeRecord(r), r);
    }
  }

  lemma {:induction false} ExtensionsComplete(es: seq<Extension>, wire: nat)
    ensures ExtensionsMeaning(es, wire).Complete?
  {
    if es == [] {
    } else {
      if es[0].kind == SERVER_NAME {
        FindNameCompletes(es[0].body, 2, wire + 4);
      } else {
        ExtensionsComplete(es[1..], wire + 4 + |es[0].body|);
      }
    }
  }
}
