/** ClientHello messages as values, their wire form, and the SNI they carry. */
module ClientHello {
  import opened Bytes
  import opened Types
  import opened TlsParser
  import opened TlsRecords
  import Utf8

  datatype ServerName = ServerName(kind: Byte, name: seq<Byte>)

  datatype Extension = Extension(kind: nat, body: seq<Byte>)

  datatype Hello = Hello(
    version: seq<Byte>,
    random: seq<Byte>,
    sessionId: seq<Byte>,
    ciphers: seq<Byte>,
    compression: seq<Byte>,
    extensions: Option<seq<Extension>>)

  const SERVER_NAME: nat := 0
  const HOST_NAME: Byte := 0

  // ---------- Printing ----------

  function PrintName(n: ServerName): seq<Byte> {
    [n.kind] + U16Bytes(|n.name|) + n.name
  }

  function PrintNames(ns: seq<ServerName>): seq<Byte> {
    if ns == [] then [] else PrintName(ns[0]) + PrintNames(ns[1..])
  }

  /** The server_name extension for a list of names. */
  function SniExtension(ns: seq<ServerName>): Extension {
    Extension(SERVER_NAME, U16Bytes(|PrintNames(ns)|) + PrintNames(ns))
  }

  function PrintExtension(e: Extension): seq<Byte> {
    U16Bytes(e.kind) + U16Bytes(|e.body|) + e.body
  }

  function PrintExtensions(es: seq<Extension>): seq<Byte> {
    if es == [] then [] else PrintExtension(es[0]) + PrintExtensions(es[1..])
  }

  function ExtensionBlock(ch: Hello): seq<Byte> {
    match ch.extensions
    case None => []
    case Some(es) => U16Bytes(|PrintExtensions(es)|) + PrintExtensions(es)
  }

  function PrintFixed(ch: Hello): (f: seq<Byte>)
    requires |ch.sessionId| < 256 && |ch.compression| < 256
    ensures |f| == |ch.version| + |ch.random| + 1 + |ch.sessionId| + 2 + |ch.ciphers| + 1 + |ch.compression|
  {
    ch.version + ch.random
    + [|ch.sessionId|] + ch.sessionId
    + U16Bytes(|ch.ciphers|) + ch.ciphers
    + [|ch.compression|] + ch.compression
  }

  function PrintMessage(body: seq<Byte>): seq<Byte>
    requires |body| < 0x100_0000
  {
    [1] + U24Bytes(|body|) + body
  }

  predicate NamesFit(ns: seq<ServerName>) {
    ns == [] || (|ns[0].name| < 0x1_0000 && NamesFit(ns[1..]))
  }

  predicate ExtensionFits(e: Extension) {
    e.kind < 0x1_0000 && |e.body| < 0x1_0000
  }

  predicate ExtensionsFit(es: seq<Extension>) {
    es == [] || (ExtensionFits(es[0]) && ExtensionsFit(es[1..]))
  }

  /** Every field fits the length prefix the format gives it. */
  predicate Fits(ch: Hello) {
    && |ch.version| == 2 && |ch.random| == 32
    && |ch.sessionId| < 256 && |ch.ciphers| < 0x1_0000 && |ch.compression| < 256
    && match ch.extensions
       case None => true
       case Some(es) =>
         |PrintExtensions(es)| < 0x1_0000 && ExtensionsFit(es)
  }

  function Handshake(ch: Hello): seq<Byte>
    requires Fits(ch)
  {
    PrintMessage(PrintFixed(ch) + ExtensionBlock(ch))
  }

  // ---------- Meaning ----------

  /** The first host_name entry, with the wire offset of its bytes. */
  function NamesMeaning(ns: seq<ServerName>, wire: nat): ParseStatus {
    if ns == [] then NO_SNI
    else if ns[0].kind == HOST_NAME then
      Complete(TlsClientHello(Some(Utf8.Lossy(ns[0].name)), wire + 3, |ns[0].name|))
    else NamesMeaning(ns[1..], wire + 3 + |ns[0].name|)
  }

  /** The first server_name extension decides, whatever its body. */
  function ExtensionsMeaning(es: seq<Extension>, wire: nat): ParseStatus {
    if es == [] then NO_SNI
    else if es[0].kind == SERVER_NAME then ParseSni(es[0].body, wire + 4)
    else ExtensionsMeaning(es[1..], wire + 4 + |es[0].body|)
  }

  /** Where the extension block starts inside the handshake. */
  function BlockStart(ch: Hello): nat {
    42 + |ch.sessionId| + |ch.ciphers| + |ch.compression|
  }

  function Meaning(ch: Hello): ParseStatus {
    match ch.extensions
    case None => NO_SNI
    case Some(es) => ExtensionsMeaning(es, 5 + BlockStart(ch) + 2)
  }

  // ---------- The parser inverts the printer ----------

  /** The list holds the name at `pos`. */
  predicate NameHere(ext: seq<Byte>, pos: nat, n: ServerName) {
    && pos + 3 + |n.name| <= |ext|
    && ext[pos] == n.kind && Word(ext, pos + 1) == |n.name|
    && ext[pos + 3..pos + 3 + |n.name|] == n.name
  }

  lemma NameAt(ext: seq<Byte>, pos: nat, n: ServerName, rest: seq<Byte>)
    requires |n.name| < 0x1_0000 && 0 < pos <= |ext| && ext[pos..] == PrintName(n) + rest
    ensures NameHere(ext, pos, n) && ext[pos + 3 + |n.name|..] == rest
  {
    var l, w := U16Bytes(|n.name|), ext[pos..];
    U16RoundTrip(|n.name|);
    assert w[0] == n.kind && w[1] == l[0] && w[2] == l[1];
    assert w[3..3 + |n.name|] == n.name && w[3 + |n.name|..] == rest;
    Slice(ext, pos, 3, 3 + |n.name|);
    assert w[3 + |n.name|..] == ext[pos + 3 + |n.name|..];
  }

  predicate HoldsNames(ext: seq<Byte>, pos: nat, ns: seq<ServerName>)
    decreases |ns|
  {
    if ns == [] then pos == |ext|
    else NameHere(ext, pos, ns[0]) && HoldsNames(ext, pos + 3 + |ns[0].name|, ns[1..])
  }

  lemma {:induction false} NamesHeld(ext: seq<Byte>, pos: nat, ns: seq<ServerName>)
    requires 0 < pos <= |ext| && ext[pos..] == PrintNames(ns) && NamesFit(ns)
    ensures HoldsNames(ext, pos, ns)
    decreases |ns|
  {
    if ns == [] {
    } else {
      NameAt(ext, pos, ns[0], PrintNames(ns[1..]));
      NamesHeld(ext, pos + 3 + |ns[0].name|, ns[1..]);
    }
  }

  lemma {:induction false} NamesParsed(ext: seq<Byte>, pos: nat, ns: seq<ServerName>, wire: nat)
    requires HoldsNames(ext, pos, ns)
    ensures FindName(ext, pos, wire) == NamesMeaning(ns, wire + pos)
    decreases |ns|
  {
    if ns != [] && ns[0].kind != HOST_NAME {
      NamesParsed(ext, pos + 3 + |ns[0].name|, ns[1..], wire);
    }
  }

  lemma TwoPrefixes(w: seq<Byte>, k: seq<Byte>, l: seq<Byte>, body: seq<Byte>, rest: seq<Byte>)
    requires |k| == 2 && |l| == 2 && w == k + l + body + rest
    ensures |w| == 4 + |body| + |rest| && w[0] == k[0] && w[1] == k[1] && w[2] == l[0] && w[3] == l[1]
    ensures w[4..4 + |body|] == body && w[4 + |body|..] == rest
  {
  }

  /** The block `h[..end]` holds the extension at `pos`. */
  predicate ExtensionHere(h: seq<Byte>, pos: nat, end: nat, e: Extension) {
    && pos + 4 + |e.body| <= end <= |h|
    && Word(h, pos) == e.kind && Word(h, pos + 2) == |e.body|
    && h[pos + 4..pos + 4 + |e.body|] == e.body
  }

  lemma ExtensionAt(h: seq<Byte>, pos: nat, end: nat, e: Extension, rest: seq<Byte>)
    requires ExtensionFits(e) && 0 < pos <= end <= |h| && h[pos..end] == PrintExtension(e) + rest
    ensures ExtensionHere(h, pos, end, e) && h[pos + 4 + |e.body|..end] == rest
  {
    var w := h[pos..end];
    U16RoundTrip(e.kind);
    U16RoundTrip(|e.body|);
    TwoPrefixes(w, U16Bytes(e.kind), U16Bytes(|e.body|), e.body, rest);
    Window(h, pos, end, 4, 4 + |e.body|);
    Window(h, pos, end, 4 + |e.body|, |w|);
    assert w[0] == h[pos] && w[1] == h[pos + 1] && w[2] == h[pos + 2] && w[3] == h[pos + 3];
  }

  predicate HoldsExtensions(h: seq<Byte>, pos: nat, es: seq<Extension>, end: nat)
    decreases |es|
  {
    if es == [] then pos == end <= |h|
    else ExtensionHere(h, pos, end, es[0]) && HoldsExtensions(h, pos + 4 + |es[0].body|, es[1..], end)
  }

  lemma {:induction false} HoldsPrinted(h: seq<Byte>, pos: nat, es: seq<Extension>, end: nat)
    requires 0 < pos <= end <= |h| && h[pos..end] == PrintExtensions(es) && ExtensionsFit(es)
    ensures HoldsExtensions(h, pos, es, end)
    decreases |es|
  {
    if es == [] {
      assert |h[pos..end]| == 0;
    } else {
      ExtensionAt(h, pos, end, es[0], PrintExtensions(es[1..]));
      HoldsPrinted(h, pos + 4 + |es[0].body|, es[1..], end);
    }
  }

  lemma {:induction false} ExtensionsParsed(h: seq<Byte>, pos: nat, end: nat, es: seq<Extension>)
    requires HoldsExtensions(h, pos, es, end) && end <= |h|
    ensures FindSni(h, pos, end) == ExtensionsMeaning(es, 5 + pos)
    decreases |es|
  {
    if es != [] && es[0].kind != SERVER_NAME {
      ExtensionsParsed(h, pos + 4 + |es[0].body|, end, es[1..]);
    }
  }

  /** The parser's cursor over the fixed fields, by the length bytes it meets. */
  lemma WalkFields(h: seq<Byte>, ciphers: nat, compression: nat, end: nat)
    requires ciphers == 39 + U8At(h, 38) && compression == ciphers + 2 + U16At(h, ciphers)
    requires end == compression + 1 + U8At(h, compression) <= |h|
    ensures HelloEnd(h) == At(end)
  {
    assert Walk(h, end, EXTENSIONS) == At(end);
    assert Walk(h, compression, COMPRESSION) == At(end);
    assert Walk(h, ciphers, CIPHER_SUITES) == At(end);
    assert Walk(h, 38, SESSION_ID) == At(end);
    assert Walk(h, 6, RANDOM) == At(end);
  }

  /** Where the length bytes of the fixed fields are. */
  lemma FixedShape(ch: Hello, f: seq<Byte>)
    requires Fits(ch) && f == PrintFixed(ch)
    ensures var c := 35 + |ch.sessionId|;
            var m := c + 2 + |ch.ciphers|;
            && |f| == m + 1 + |ch.compression|
            && f[34] == |ch.sessionId| && Word(f, c) == |ch.ciphers| && f[m] == |ch.compression|
  {
    var l, c := U16Bytes(|ch.ciphers|), 35 + |ch.sessionId|;
    U16RoundTrip(|ch.ciphers|);
    assert f[c] == l[0] && f[c + 1] == l[1];
  }

  /** The parser's cursor passes the fixed fields and lands on the extension block. */
  lemma FixedPartSkipped(ch: Hello, h: seq<Byte>, f: seq<Byte>, rest: seq<Byte>)
    requires Fits(ch) && f == PrintFixed(ch) && |h| >= 4 && h[4..] == f + rest
    ensures |h| == BlockStart(ch) + |rest| && h[BlockStart(ch)..] == rest
    ensures HelloEnd(h) == At(BlockStart(ch))
  {
    FixedShape(ch, f);
    assert forall i :: 0 <= i < |f| ==> h[4..][i] == f[i] && h[4 + i] == f[i];
    assert h[BlockStart(ch)..] == h[4..][|f|..];
    var c := 35 + |ch.sessionId|;
    WalkFields(h, 4 + c, 4 + c + 2 + |ch.ciphers|, BlockStart(ch));
  }

  lemma MessageHeader(body: seq<Byte>, more: seq<Byte>)
    requires |body| < 0x100_0000
    ensures var h := PrintMessage(body) + more;
            && |h| == 4 + |body| + |more| && h[0] == CLIENT_HELLO && MessageLen(h) == 4 + |body|
            && h[4..] == body + more
  {
    U24RoundTrip(|body|);
  }

  lemma LengthPrefixed(h: seq<Byte>, start: nat, p: seq<Byte>, more: seq<Byte>)
    requires |p| < 0x1_0000 && 0 < start <= |h| && h[start..] == U16Bytes(|p|) + p + more
    ensures |h| == start + 2 + |p| + |more|
    ensures Word(h, start) == |p| && h[start + 2..start + 2 + |p|] == p
  {
    var w, l := h[start..], U16Bytes(|p|);
    U16RoundTrip(|p|);
    assert w[0] == l[0] && w[1] == l[1];
    assert w[2..2 + |p|] == p;
  }

  lemma BlockParsed(es: seq<Extension>, h: seq<Byte>, start: nat, more: seq<Byte>)
    requires |PrintExtensions(es)| < 0x1_0000 && ExtensionsFit(es)
    requires 0 < start <= |h| && h[start..] == U16Bytes(|PrintExtensions(es)|) + PrintExtensions(es) + more
    ensures ParseExtensions(h, start) == ExtensionsMeaning(es, 5 + start + 2)
  {
    var p := PrintExtensions(es);
    LengthPrefixed(h, start, p, more);
    HoldsPrinted(h, start + 2, es, start + 2 + |p|);
    ExtensionsParsed(h, start + 2, start + 2 + |p|, es);
  }

  lemma BodyReached(h: seq<Byte>, pos: nat)
    requires |h| >= 4 && h[0] == CLIENT_HELLO && MessageLen(h) <= |h| && HelloEnd(h) == At(pos)
    ensures ParseHandshake(h) == ParseExtensions(h, pos)
  {
  }

  lemma BlockMeaning(ch: Hello, h: seq<Byte>, more: seq<Byte>)
    requires Fits(ch) && (ch.extensions.None? ==> |more| < 2)
    requires BlockStart(ch) <= |h| && h[BlockStart(ch)..] == ExtensionBlock(ch) + more
    ensures ParseExtensions(h, BlockStart(ch)) == Meaning(ch)
  {
    if ch.extensions.Some? {
      BlockParsed(ch.extensions.value, h, BlockStart(ch), more);
    }
  }

  lemma MessageParsed(ch: Hello, h: seq<Byte>, f: seq<Byte>, more: seq<Byte>)
    requires Fits(ch) && f == PrintFixed(ch) && (ch.extensions.None? ==> |more| < 2)
    requires |h| >= 4 && h[0] == CLIENT_HELLO && MessageLen(h) <= |h|
    requires h[4..] == f + (ExtensionBlock(ch) + more)
    ensures ParseHandshake(h) == Meaning(ch)
  {
    FixedPartSkipped(ch, h, f, ExtensionBlock(ch) + more);
    BodyReached(h, BlockStart(ch));
    BlockMeaning(ch, h, more);
  }

  /**
   * The parser inverts the printer, also when further handshake bytes follow the message.
   * A hello without extension block needs its end to be seen: see `TlsStability.MissingSniIsFinal`.
   */
  lemma ParserInvertsPrinter(ch: Hello, more: seq<Byte>)
    requires Fits(ch) && (ch.extensions.None? ==> |more| < 2)
    ensures ParseHandshake(Handshake(ch) + more) == Meaning(ch)
  {
    var body := PrintFixed(ch) + ExtensionBlock(ch);
    MessageHeader(body, more);
    Assoc(PrintFixed(ch), ExtensionBlock(ch), more);
    MessageParsed(ch, PrintMessage(body) + more, PrintFixed(ch), more);
  }

  lemma ParserInvertsExactly(ch: Hello)
    requires Fits(ch)
    ensures ParseHandshake(Handshake(ch)) == Meaning(ch)
  {
    var h := Handshake(ch);
    assert h + [] == h;
    ParserInvertsPrinter(ch, []);
  }

  /** The same for any way of sending the message in records. */
  lemma ParserInvertsWire(ch: Hello, rs: seq<Record>)
    requires Fits(ch) && Acceptable(rs) && Payload(rs) == Handshake(ch)
    ensures Parse(Encode(rs)) == Meaning(ch)
  {
    assert Encode(rs) + [] == Encode(rs);
    FragmentationInvariance(rs, []);
    ParserInvertsExactly(ch);
  }

  /** The body of a printed server_name extension yields its first host_name entry. */
  lemma SniBodyParsed(ns: seq<ServerName>, wire: nat)
    requires NamesFit(ns) && ExtensionFits(SniExtension(ns))
    ensures ParseSni(SniExtension(ns).body, wire) == NamesMeaning(ns, wire + 2)
  {
    var body := SniExtension(ns).body;
    assert body[2..] == PrintNames(ns);
    NamesHeld(body, 2, ns);
    NamesParsed(body, 2, ns, wire);
  }

  predicate NoServerName(es: seq<Extension>) {
    es == [] || (es[0].kind != SERVER_NAME && NoServerName(es[1..]))
  }

  lemma {:induction false} FirstSniDecides(before: seq<Extension>, e: Extension, after: seq<Extension>, wire: nat)
    requires NoServerName(before) && e.kind == SERVER_NAME
    ensures ExtensionsMeaning(before + [e] + after, wire) == ParseSni(e.body, wire + |PrintExtensions(before)| + 4)
    decreases |before|
  {
    var es := before + [e] + after;
    if before != [] {
      assert es[0] == before[0] && es[1..] == before[1..] + [e] + after;
      FirstSniDecides(before[1..], e, after, wire + 4 + |before[0].body|);
    }
  }

  lemma FirstSniMeaning(before: seq<Extension>, ns: seq<ServerName>, after: seq<Extension>, wire: nat)
    requires NoServerName(before) && NamesFit(ns) && ExtensionFits(SniExtension(ns))
    ensures ExtensionsMeaning(before + [SniExtension(ns)] + after, wire)
         == NamesMeaning(ns, wire + |PrintExtensions(before)| + 6)
  {
    FirstSniDecides(before, SniExtension(ns), after, wire);
    SniBodyParsed(ns, wire + |PrintExtensions(before)| + 4);
  }

  /** A hello whose first server_name extension lists `ns` means the first host_name of `ns`. */
  lemma HostNameMeaning(ch: Hello, before: seq<Extension>, ns: seq<ServerName>, after: seq<Extension>)
    requires ch.extensions == Some(before + [SniExtension(ns)] + after)
    requires NoServerName(before) && NamesFit(ns) && ExtensionFits(SniExtension(ns))
    ensures Meaning(ch) == NamesMeaning(ns, 5 + BlockStart(ch) + 2 + |PrintExtensions(before)| + 6)
  {
    FirstSniMeaning(before, ns, after, 5 + BlockStart(ch) + 2);
  }

  lemma {:induction false} NamesOffset(ns: seq<ServerName>, wire: nat)
    requires NamesMeaning(ns, wire).HasSni()
    ensures ns != [] && NamesMeaning(ns, wire).proto.sniOffset >= wire + 3
    ensures NamesMeaning(ns, wire).proto.sniOffset == wire + 3 <==> ns[0].kind == HOST_NAME
  {
    if ns[0].kind != HOST_NAME {
      NamesOffset(ns[1..], wire + 3 + |ns[0].name|);
    }
  }

  /** Nine bytes in front of the SNI is where its extension starts exactly when the host name comes first in its list. */
  lemma {:induction false} ExtensionStart(ch: Hello, before: seq<Extension>, ns: seq<ServerName>, after: seq<Extension>)
    requires ch.extensions == Some(before + [SniExtension(ns)] + after)
    requires NoServerName(before) && NamesFit(ns) && ExtensionFits(SniExtension(ns))
    ensures Meaning(ch).HasSni() ==>
              && ns != []
              && (Meaning(ch).proto.sniOffset - 9 == 5 + BlockStart(ch) + 2 + |PrintExtensions(before)|
                  <==> ns[0].kind == HOST_NAME)
  {
    HostNameMeaning(ch, before, ns, after);
    if Meaning(ch).HasSni() {
      NamesOffset(ns, 5 + BlockStart(ch) + 2 + |PrintExtensions(before)| + 6);
    }
  }
}
