/** The hello the prober builds for a domain. */
module Probe {
  import opened Bytes
  import opened Types
  import opened TlsParser
  import opened TlsRecords
  import opened ClientHello
  import opened PaddingProps
  import Utf8

  function U16s(xs: seq<nat>): (s: seq<Byte>)
    ensures |s| == 2 * |xs|
  {
    if xs == [] then [] else U16s(xs[..|xs| - 1]) + U16Bytes(xs[|xs| - 1])
  }

  const GROUPS: seq<nat> := [0x001d, 0x0017, 0x0018, 0x0019]
  const SIGNATURES: seq<nat> := [0x0403, 0x0503, 0x0804, 0x0805, 0x0806, 0x0401, 0x0501, 0x0601]
  const VERSIONS: seq<nat> := [0x0304, 0x0303]
  const SUITES: seq<nat> := [0x1301, 0x1302, 0x1303, 0xc02c, 0xc02b, 0xc030, 0xc02f]
  const H2: seq<Byte> := [0x68, 0x32]
  const HTTP11: seq<Byte> := [0x68, 0x74, 0x74, 0x70, 0x2f, 0x31, 0x2e, 0x31]

  /** The extensions behind the server name, with the random key share. */
  function Others(key: seq<Byte>): seq<Extension> {
    [Extension(0x000b, [1, 0]),
     Extension(0x000a, U16Bytes(8) + U16s(GROUPS)),
     Extension(0x000d, U16Bytes(16) + U16s(SIGNATURES)),
     Extension(0x002b, [4] + U16s(VERSIONS)),
     Extension(0x0010, U16Bytes(12) + ([2] + H2 + [8] + HTTP11)),
     Extension(0x0033, U16Bytes(36) + U16Bytes(0x001d) + U16Bytes(32) + key)]
  }

  function Extensions(domain: seq<Byte>, key: seq<Byte>): seq<Extension> {
    [SniExtension([ServerName(HOST_NAME, domain)])] + Others(key)
  }

  function ProbeHello(domain: seq<Byte>, random: seq<Byte>, sessionId: seq<Byte>, key: seq<Byte>): Hello {
    Hello(U16Bytes(0x0303), random, sessionId, U16s(SUITES), [0], Some(Extensions(domain, key)))
  }

  // ---------- Building ----------

  method PushU16s(buf: seq<Byte>, xs: seq<nat>) returns (out: seq<Byte>)
    ensures out == buf + U16s(xs)
  {
    out := buf;
    var i := 0;
    while i < |xs|
      invariant 0 <= i <= |xs| && out == buf + U16s(xs[..i])
    {
      assert xs[..i + 1][..i] == xs[..i];
      Assoc(buf, U16s(xs[..i]), U16Bytes(xs[i]));
      out := out + U16Bytes(xs[i]);
      i := i + 1;
    }
    assert xs[..|xs|] == xs;
  }

  method PushExtension(buf: seq<Byte>, kind: nat, body: seq<Byte>, ghost es: seq<Extension>) returns (out: seq<Byte>)
    requires buf == PrintExtensions(es)
    ensures out == PrintExtensions(es + [Extension(kind, body)])
  {
    PrintSnoc(es, Extension(kind, body));
    Assoc(buf, U16Bytes(kind) + U16Bytes(|body|), body);
    out := buf + (U16Bytes(kind) + U16Bytes(|body|));
    out := out + body;
  }

  method BuildSniBody(domain: seq<Byte>) returns (body: seq<Byte>)
    ensures body == SniExtension([ServerName(HOST_NAME, domain)]).body
  {
    var sniListLen := 1 + 2 + |domain|;
    body := U16Bytes(sniListLen);
    body := body + ([HOST_NAME] + U16Bytes(|domain|) + domain);
    var names := [ServerName(HOST_NAME, domain)];
    assert names[1..] == [];
    assert PrintNames(names) == PrintName(names[0]) + [] == [HOST_NAME] + U16Bytes(|domain|) + domain;
  }

  method BuildExtensions(domain: seq<Byte>, key: seq<Byte>) returns (out: seq<Byte>)
    ensures out == PrintExtensions(Extensions(domain, key))
  {
    var sni := BuildSniBody(domain);
    ghost var es: seq<Extension> := [];
    out := PushExtension([], SERVER_NAME, sni, es);
    es := es + [Extension(SERVER_NAME, sni)];
    out := PushExtension(out, 0x000b, [1, 0], es);
    es := es + [Extension(0x000b, [1, 0])];
    var body := PushU16s(U16Bytes(2 * |GROUPS|), GROUPS);
    out := PushExtension(out, 0x000a, body, es);
    es := es + [Extension(0x000a, body)];
    body := PushU16s(U16Bytes(2 * |SIGNATURES|), SIGNATURES);
    out := PushExtension(out, 0x000d, body, es);
    es := es + [Extension(0x000d, body)];
    body := PushU16s([4], VERSIONS);
    out := PushExtension(out, 0x002b, body, es);
    es := es + [Extension(0x002b, body)];
    var alpn := [2] + H2 + [8] + HTTP11;
    body := U16Bytes(|alpn|) + alpn;
    out := PushExtension(out, 0x0010, body, es);
    es := es + [Extension(0x0010, body)];
    body := U16Bytes(36) + U16Bytes(0x001d) + U16Bytes(32) + key;
    out := PushExtension(out, 0x0033, body, es);
    es := es + [Extension(0x0033, body)];
    assert es == Extensions(domain, key);
  }

  /** The random parts have their fixed sizes. */
  predicate Sizes(random: seq<Byte>, sessionId: seq<Byte>, key: seq<Byte>) {
    |random| == 32 && |sessionId| == 32 && |key| == 32
  }

  /** The length of the message beside the domain itself. */
  const HELLO_OVERHEAD: nat := 211

  /** The part of the body in front of the extension block. */
  function FixedPart(random: seq<Byte>, sessionId: seq<Byte>): seq<Byte> {
    U16Bytes(0x0303) + random + [32] + sessionId + U16Bytes(2 * |SUITES|) + U16s(SUITES) + [1] + [0]
  }

  /** The probe with each length behind an `as u16` cast, for domains of any length. */
  function CastWire(f: seq<Byte>, e: seq<Byte>): seq<Byte> {
    ([HANDSHAKE] + U16Bytes(0x0301) + U16Bytes(4 + |f| + 2 + |e|))
    + (([CLIENT_HELLO] + ([0x00] + U16Bytes(|f| + 2 + |e|))) + (f + (U16Bytes(|e|) + e)))
  }

  function ProbeWire(domain: seq<Byte>, random: seq<Byte>, sessionId: seq<Byte>, key: seq<Byte>): seq<Byte> {
    CastWire(FixedPart(random, sessionId), PrintExtensions(Extensions(domain, key)))
  }

  method BuildProbeClientHello(domain: seq<Byte>, random: seq<Byte>, sessionId: seq<Byte>, key: seq<Byte>)
    returns (buf: seq<Byte>)
    requires Sizes(random, sessionId, key)
    ensures buf == ProbeWire(domain, random, sessionId, key)
  {
    var extensions := BuildExtensions(domain, key);
    var chBodyLen := 2 + 32 + 1 + 32 + 2 + 2 * |SUITES| + 1 + 1 + 2 + |extensions|;
    var hsLen := 4 + chBodyLen;
    var header: seq<Byte> := [0x16];
    header := header + U16Bytes(0x0301);
    header := header + U16Bytes(hsLen);
    var message: seq<Byte> := [0x01];
    message := message + ([0x00] + U16Bytes(chBodyLen));
    var fixed := BuildFixedPart(random, sessionId);
    var block := U16Bytes(|extensions|) + extensions;
    buf := header + (message + (fixed + block));
  }

  method BuildFixedPart(random: seq<Byte>, sessionId: seq<Byte>) returns (fixed: seq<Byte>)
    ensures fixed == FixedPart(random, sessionId)
    ensures |fixed| == |random| + |sessionId| + 21
  {
    var suites := PushU16s([], SUITES);
    fixed := U16Bytes(0x0303) + random;
    fixed := fixed + [32] + sessionId;
    assert [] + U16s(SUITES) == U16s(SUITES);
    fixed := fixed + U16Bytes(2 * |SUITES|) + suites;
    fixed := fixed + [1] + [0];
  }

  // ---------- The bytes ----------

  /** Numbers by their bytes. */
  lemma {:induction false} U16sOf(xs: seq<nat>, b: seq<Byte>)
    requires |b| == 2 * |xs| && forall i :: 0 <= i < |xs| ==> xs[i] == Word(b, 2 * i)
    ensures U16s(xs) == b
  {
    if xs == [] {
    } else {
      var n := |xs| - 1;
      WordBytes(b[2 * n], b[2 * n + 1]);
      U16sOf(xs[..n], b[..2 * n]);
      assert b == b[..2 * n] + [b[2 * n], b[2 * n + 1]];
    }
  }

  lemma SuitesByBytes(xs: seq<nat>, b: seq<Byte>)
    requires xs == SUITES && b == [0x13, 1, 0x13, 2, 0x13, 3, 0xC0, 0x2C, 0xC0, 0x2B, 0xC0, 0x30, 0xC0, 0x2F]
    ensures U16s(xs) == b
  {
    U16sOf(xs, b);
  }

  lemma GroupsByBytes(xs: seq<nat>, b: seq<Byte>)
    requires xs == GROUPS && b == [0, 29, 0, 23, 0, 24, 0, 25]
    ensures U16s(xs) == b
  {
    U16sOf(xs, b);
  }

  lemma SignaturesByBytes(xs: seq<nat>, b: seq<Byte>)
    requires xs == SIGNATURES && b == [4, 3, 5, 3, 8, 4, 8, 5, 8, 6, 4, 1, 5, 1, 6, 1]
    ensures U16s(xs) == b
  {
    U16sOf(xs, b);
  }

  lemma VersionsByBytes(xs: seq<nat>, b: seq<Byte>)
    requires xs == VERSIONS && b == [3, 4, 3, 3]
    ensures U16s(xs) == b
  {
    U16sOf(xs, b);
  }

  /** Version, random bytes, session id, the seven cipher suites and the one compression method. */
  lemma FixedByBytes(random: seq<Byte>, sessionId: seq<Byte>)
    ensures FixedPart(random, sessionId) == [3, 3] + random + [32] + sessionId
              + [0, 14] + [0x13, 1, 0x13, 2, 0x13, 3, 0xC0, 0x2C, 0xC0, 0x2B, 0xC0, 0x30, 0xC0, 0x2F] + [1] + [0]
  {
    SuitesByBytes(SUITES, [0x13, 1, 0x13, 2, 0x13, 3, 0xC0, 0x2C, 0xC0, 0x2B, 0xC0, 0x30, 0xC0, 0x2F]);
    WordBytes(3, 3);
    WordBytes(0, 14);
  }

  lemma PrintedShort(e: Extension, kind: Byte)
    requires e.kind == kind && |e.body| < 256
    ensures PrintExtension(e) == [0, kind, 0, |e.body|] + e.body
  {
    WordBytes(0, kind);
    WordBytes(0, |e.body|);
    assert [0 as Byte, kind] + [0 as Byte, |e.body|] == [0, kind, 0, |e.body|];
  }

  lemma ListsByBytes(key: seq<Byte>)
    ensures Others(key)[1].body == [0, 8] + [0, 29, 0, 23, 0, 24, 0, 25]
    ensures Others(key)[2].body == [0, 16] + [4, 3, 5, 3, 8, 4, 8, 5, 8, 6, 4, 1, 5, 1, 6, 1]
    ensures Others(key)[3].body == [4] + [3, 4, 3, 3]
  {
    GroupsByBytes(GROUPS, [0, 29, 0, 23, 0, 24, 0, 25]);
    SignaturesByBytes(SIGNATURES, [4, 3, 5, 3, 8, 4, 8, 5, 8, 6, 4, 1, 5, 1, 6, 1]);
    VersionsByBytes(VERSIONS, [3, 4, 3, 3]);
    WordBytes(0, 8);
    WordBytes(0, 16);
  }

  lemma OtherBodiesByBytes(key: seq<Byte>)
    ensures Others(key)[0].body == [1, 0]
    ensures Others(key)[4].body == [0, 12] + ([2] + Text("h2") + [8] + Text("http/1.1"))
    ensures Others(key)[5].body == [0, 36] + [0, 29] + [0, 32] + key
  {
    WordBytes(0, 12);
    WordBytes(0, 29);
    WordBytes(0, 32);
    WordBytes(0, 36);
    assert H2 == Text("h2") && HTTP11 == Text("http/1.1");
  }

  /**
   * The extensions behind the name, each with a type and a length of two bytes: point formats, groups, signature
   * algorithms, versions, protocols and the key share.
   */
  lemma OthersByBytes(key: seq<Byte>)
    requires |key| == 32
    ensures |Others(key)| == 6
    ensures PrintExtension(Others(key)[0]) == [0, 11, 0, 2] + [1, 0]
    ensures PrintExtension(Others(key)[1]) == [0, 10, 0, 10] + ([0, 8] + [0, 29, 0, 23, 0, 24, 0, 25])
    ensures PrintExtension(Others(key)[2])
            == [0, 13, 0, 18] + ([0, 16] + [4, 3, 5, 3, 8, 4, 8, 5, 8, 6, 4, 1, 5, 1, 6, 1])
    ensures PrintExtension(Others(key)[3]) == [0, 43, 0, 5] + ([4] + [3, 4, 3, 3])
    ensures PrintExtension(Others(key)[4]) == [0, 16, 0, 14] + ([0, 12] + ([2] + Text("h2") + [8] + Text("http/1.1")))
    ensures PrintExtension(Others(key)[5]) == [0, 51, 0, 38] + ([0, 36] + [0, 29] + [0, 32] + key)
  {
    ListsByBytes(key);
    OtherBodiesByBytes(key);
    PrintedShort(Others(key)[0], 11);
    PrintedShort(Others(key)[1], 10);
    PrintedShort(Others(key)[2], 13);
    PrintedShort(Others(key)[3], 43);
    PrintedShort(Others(key)[4], 16);
    PrintedShort(Others(key)[5], 51);
  }

  /** While the lengths fit in sixteen bits, the casts change nothing. */
  lemma CastsFit(f: seq<Byte>, e: seq<Byte>)
    requires 4 + |f| + 2 + |e| < 0x1_0000
    ensures CastWire(f, e) == Wire(3, 1, f, e)
  {
    ShortLength(|f| + 2 + |e|);
    assert [HANDSHAKE] + [3 as Byte, 1] == [HANDSHAKE, 3, 1];
  }

  /** A domain that fits: the pushes are the printed form of the probe's hello in one record. */
  lemma ProbeIsOneRecord(domain: seq<Byte>, random: seq<Byte>, sessionId: seq<Byte>, key: seq<Byte>)
    requires Sizes(random, sessionId, key) && |domain| + HELLO_OVERHEAD <= 0xFFFF
    ensures Fits(ProbeHello(domain, random, sessionId, key))
    ensures ProbeWire(domain, random, sessionId, key) == OneRecord(3, 1, ProbeHello(domain, random, sessionId, key))
  {
    var ch := ProbeHello(domain, random, sessionId, key);
    ProbeFits(domain, random, sessionId, key);
    OneRecordWire(3, 1, ch);
    assert PrintFixed(ch) == FixedPart(random, sessionId);
    CastsFit(PrintFixed(ch), PrintExtensions(ch.extensions.value));
  }

  lemma ShortLength(n: nat)
    requires n < 0x1_0000
    ensures [0x00] + U16Bytes(n) == U24Bytes(n)
    ensures U16Bytes(0x0301) == [3, 1]
  {
    assert HighByte(n) < 256 && HighByte(HighByte(n)) == 0 && LowByte(HighByte(n)) == HighByte(n);
    assert HighByte(0x0301) == 3 && LowByte(0x0301) == 1;
  }

  lemma ExtensionsLength(domain: seq<Byte>, key: seq<Byte>)
    requires |key| == 32
    ensures |PrintExtensions(Extensions(domain, key))| == |domain| + 120
    ensures |domain| + 5 < 0x1_0000 ==> ExtensionsFit(Extensions(domain, key))
  {
    var es, os := Extensions(domain, key), Others(key);
    assert es[1..] == os;
    SniSize(domain);
    OthersSize(key);
  }

  lemma SniSize(domain: seq<Byte>)
    ensures |SniExtension([ServerName(HOST_NAME, domain)]).body| == |domain| + 5
  {
    var names := [ServerName(HOST_NAME, domain)];
    assert names[1..] == [] && PrintNames([]) == [];
  }

  lemma OtherBodies(key: seq<Byte>)
    requires |key| == 32
    ensures var os := Others(key);
            && |os| == 6
            && |os[0].body| == 2 && |os[1].body| == 10 && |os[2].body| == 18
            && |os[3].body| == 5 && |os[4].body| == 14 && |os[5].body| == 38
    ensures forall e :: e in Others(key) ==> ExtensionFits(e)
  {
  }

  lemma OthersSize(key: seq<Byte>)
    requires |key| == 32
    ensures |PrintExtensions(Others(key))| == 111 && ExtensionsFit(Others(key))
  {
    OtherBodies(key);
    SixSizes(Others(key));
  }

  lemma {:induction false} SixSizes(os: seq<Extension>)
    requires |os| == 6 && forall e :: e in os ==> ExtensionFits(e)
    ensures |PrintExtensions(os)|
            == 24 + |os[0].body| + |os[1].body| + |os[2].body| + |os[3].body| + |os[4].body| + |os[5].body|
    ensures ExtensionsFit(os)
  {
    TailSize(os, 5);
    TailSize(os, 4);
    TailSize(os, 3);
    TailSize(os, 2);
    TailSize(os, 1);
    assert PrintExtensions(os[6..]) == [] && ExtensionsFit(os[6..]);
  }

  lemma TailSize(es: seq<Extension>, i: nat)
    requires 0 < i < |es|
    ensures |PrintExtensions(es[i..])| == 4 + |es[i].body| + |PrintExtensions(es[i + 1..])|
    ensures ExtensionsFit(es[i..]) <==> ExtensionFits(es[i]) && ExtensionsFit(es[i + 1..])
  {
    assert es[i..][0] == es[i] && es[i..][1..] == es[i + 1..];
  }

  lemma ProbeFits(domain: seq<Byte>, random: seq<Byte>, sessionId: seq<Byte>, key: seq<Byte>)
    requires Sizes(random, sessionId, key) && |domain| + HELLO_OVERHEAD <= 0xFFFF
    ensures var ch := ProbeHello(domain, random, sessionId, key);
            && Fits(ch) && BlockStart(ch) == 89
            && |PrintExtensions(ch.extensions.value)| == |domain| + 120
            && |Handshake(ch)| == |domain| + HELLO_OVERHEAD
  {
    ExtensionsLength(domain, key);
  }

  /** What the record header of a probe claims: the length of the message, cut to sixteen bits. */
  function ClaimedLen(domain: seq<Byte>): nat {
    Low16(|domain| + HELLO_OVERHEAD)
  }

  /**
   * For every domain and every choice of random bytes: the probe's hello parses to the domain,
   * exactly while the record is within the parser's limit; a longer one is not taken for TLS.
   */
  lemma {:induction false} ProbeParses(domain: seq<Byte>, random: seq<Byte>, sessionId: seq<Byte>, key: seq<Byte>)
    requires Sizes(random, sessionId, key) && Utf8.Valid(domain) && |domain| + HELLO_OVERHEAD <= 0xFFFF
    ensures Parse(ProbeWire(domain, random, sessionId, key))
            == if |domain| + HELLO_OVERHEAD <= MAX_TLS_RECORD
               then Complete(TlsClientHello(Some(domain), 105, |domain|)) else NotTls
  {
    var ch, names := ProbeHello(domain, random, sessionId, key), [ServerName(HOST_NAME, domain)];
    ProbeIsOneRecord(domain, random, sessionId, key);
    ProbeFits(domain, random, sessionId, key);
    SniSize(domain);
    Utf8.LossyKeepsValid(domain);
    ProbeMeaning(ch, names, key);
    OneRecordParses(Record(3, 1, Handshake(ch)), ch);
  }

  lemma ProbeHeader(domain: seq<Byte>, random: seq<Byte>, sessionId: seq<Byte>, key: seq<Byte>)
    requires Sizes(random, sessionId, key)
    ensures var p := ProbeWire(domain, random, sessionId, key);
            |p| == 5 + |domain| + HELLO_OVERHEAD && HeaderAt(p, 0) && Word(p, 3) == ClaimedLen(domain)
  {
    ExtensionsLength(domain, key);
    CastHeader(FixedPart(random, sessionId), PrintExtensions(Extensions(domain, key)));
  }

  lemma CastHeader(f: seq<Byte>, e: seq<Byte>)
    ensures var p, n := CastWire(f, e), 4 + |f| + 2 + |e|;
            && |p| == 5 + n && HeaderAt(p, 0) && Word(p, 3) == Low16(n)
  {
    var p, n := CastWire(f, e), 4 + |f| + 2 + |e|;
    assert p[0] == HANDSHAKE && p[1] == 3 && p[2] == 1 && p[3] == U16Bytes(n)[0] && p[4] == U16Bytes(n)[1];
    U16Low(n);
  }

  lemma ProbeMeaning(ch: Hello, names: seq<ServerName>, key: seq<Byte>)
    requires ch.extensions == Some([SniExtension(names)] + Others(key)) && |names| == 1 && names[0].kind == HOST_NAME
    requires |names[0].name| < 0x1_0000 && ExtensionFits(SniExtension(names))
    ensures Meaning(ch)
            == Complete(TlsClientHello(Some(Utf8.Lossy(names[0].name)), 5 + BlockStart(ch) + 11, |names[0].name|))
  {
    assert [] + [SniExtension(names)] + Others(key) == [SniExtension(names)] + Others(key);
    assert names[1..] == [];
    HostNameMeaning(ch, [], names, Others(key));
  }
}
