/** A received hello on which the mixed-case mode panics. */
module SniPanic {
  import opened Bytes
  import opened Types
  import opened TlsParser
  import opened TlsRecords
  import opened ClientHello
  import opened SplitPositions
  import opened RecordFrag
  import opened ServerView
  import opened SniManip
  import PaddingProps
  import Utf8

  /** A name that is not text: one byte that no UTF-8 string contains. */
  const BAD_NAMES: seq<ServerName> := [ServerName(HOST_NAME, [0xFF])]

  function BadHello(): Hello {
    Hello([3, 3], Zeros(32), [], [], [], Some([SniExtension(BAD_NAMES)]))
  }

  lemma BadNamesPrinted()
    ensures PrintNames(BAD_NAMES) == [0, 0, 1, 0xFF] && |SniExtension(BAD_NAMES).body| == 6
    ensures |PrintExtensions([SniExtension(BAD_NAMES)])| == 10
  {
    var es := [SniExtension(BAD_NAMES)];
    assert BAD_NAMES[1..] == [] && es[1..] == [];
    assert U16Bytes(1) == [0, 1];
    assert PrintNames(BAD_NAMES) == PrintName(BAD_NAMES[0]) + [];
    assert PrintExtensions(es) == PrintExtension(es[0]) + [];
  }

  lemma BadHelloFits()
    ensures Fits(BadHello()) && BlockStart(BadHello()) == 42 && |Handshake(BadHello())| == 54
  {
    BadNamesPrinted();
    var es := [SniExtension(BAD_NAMES)];
    assert es[1..] == [] && ExtensionFits(es[0]);
  }

  lemma BadNameDecodes()
    ensures Utf8.Lossy(BAD_NAMES[0].name) == Utf8.REPLACEMENT
  {
    var b := BAD_NAMES[0].name;
    assert Utf8.Next(b) == Utf8.Broken(1) && b[1..] == [];
    assert Utf8.Lossy(b[1..]) == [];
  }

  lemma BadMeaning()
    ensures Meaning(BadHello()) == Complete(TlsClientHello(Some(Utf8.REPLACEMENT), 58, 1))
  {
    BadHelloFits();
    BadNamesPrinted();
    BadNameDecodes();
    var ns, sni := BAD_NAMES, SniExtension(BAD_NAMES);
    assert [] + [sni] + [] == [sni] && ns[1..] == [] && PrintExtensions([]) == [];
    HostNameMeaning(BadHello(), [], ns, []);
  }

  function BadRecord(): Record
    requires Fits(BadHello())
  {
    Record(3, 3, Handshake(BadHello()))
  }

  /** What arrives and what the parser makes of it. */
  function BadContext(): PayloadContext
    requires Fits(BadHello()) && Meaning(BadHello()).Complete? && |Handshake(BadHello())| < 0x1_0000
  {
    PayloadContext(EncodeRecord(BadRecord()), Meaning(BadHello()).proto)
  }

  lemma BadParses()
    ensures Fits(BadHello()) && Meaning(BadHello()).Complete? && |Handshake(BadHello())| == 54
    ensures Parse(BadContext().payload) == Complete(BadContext().protocol)
  {
    BadHelloFits();
    BadMeaning();
    PaddingProps.OneRecordParses(BadRecord(), BadHello());
  }

  lemma RecordBody(r: Record, p: seq<Byte>)
    requires |r.body| < 0x1_0000 && p == EncodeRecord(r)
    ensures |p| == 5 + |r.body| && BodyLen(p) == |r.body|
  {
    U16RoundTrip(|r.body|);
  }

  lemma BadInFirstRecord()
    ensures Fits(BadHello()) && Meaning(BadHello()).Complete? && |Handshake(BadHello())| == 54
    ensures SniInFirstRecord(BadContext())
  {
    BadParses();
    BadMeaning();
    RecordBody(BadRecord(), BadContext().payload);
  }

  /** The SNI 0xFF decodes to the three bytes of U+FFFD: the hello parses, and the technique panics on it. */
  lemma ReceivedHelloPanics(coins: nat -> bool) returns (ctx: PayloadContext)
    ensures SniInFirstRecord(ctx) && MixedCaseResult(ctx, coins) == Err(Panic)
  {
    BadInFirstRecord();
    BadMeaning();
    ctx := BadContext();
  }
}
