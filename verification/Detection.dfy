/** Which protocol a payload speaks. */
module Detection {
  import opened Bytes
  import opened Types
  import opened TlsParser
  import HttpParser
  import Quic

  /** TLS first, then HTTP, then QUIC. */
  function DetectProtocol(payload: seq<Byte>): AppProtocol {
    if Parse(payload).Complete? then Parse(payload).proto
    else if HttpParser.ParseHttp(payload).Some? then HttpParser.ParseHttp(payload).value
    else if Quic.ParseQuicInitial(payload).Some? then Quic.ParseQuicInitial(payload).value
    else Unknown
  }

  /** The three formats exclude each other, so the order of the attempts does not matter. */
  lemma FormatsExclude(payload: seq<Byte>)
    ensures Parse(payload).Complete? ==> HttpParser.ParseHttp(payload).None? && Quic.ParseQuicInitial(payload).None?
    ensures HttpParser.ParseHttp(payload).Some? ==> Quic.ParseQuicInitial(payload).None?
  {
    MethodsAreAscii(HttpParser.METHODS, payload);
  }

  /** What a parser accepts is detected as its format, with its result; what none accepts is unknown. */
  lemma DetectedExactly(payload: seq<Byte>)
    ensures DetectProtocol(payload).TlsClientHello? <==> Parse(payload).Complete?
    ensures Parse(payload).Complete? ==> Parse(payload) == Complete(DetectProtocol(payload))
    ensures DetectProtocol(payload).HttpRequest? <==> HttpParser.ParseHttp(payload).Some?
    ensures HttpParser.ParseHttp(payload).Some? ==> HttpParser.ParseHttp(payload) == Some(DetectProtocol(payload))
    ensures DetectProtocol(payload).QuicInitial? <==> Quic.ParseQuicInitial(payload).Some?
    ensures Quic.ParseQuicInitial(payload).Some? ==> Quic.ParseQuicInitial(payload) == Some(DetectProtocol(payload))
  {
    FormatsExclude(payload);
    if Parse(payload).Complete? {
      CompleteIsHello(payload);
    }
  }

  lemma CompleteIsHello(d: seq<Byte>)
    requires Parse(d).Complete?
    ensures Parse(d).proto.TlsClientHello?
  {
    var h := Gather(d, 5 + FirstRecordLen(d), d[5..5 + FirstRecordLen(d)]).handshake;
    var pos := HelloEnd(h).pos;
    if pos + 2 <= |h| {
      BlockIsHello(h, pos + 2, pos + 2 + Word(h, pos));
    }
  }

  lemma {:induction false} BlockIsHello(h: seq<Byte>, pos: nat, end: nat)
    requires end <= |h|
    ensures FindSni(h, pos, end).Complete? ==> FindSni(h, pos, end).proto.TlsClientHello?
    decreases end - pos
  {
    if pos + 4 <= end {
      var body, len := pos + 4, Word(h, pos + 2);
      if body + len <= end {
        NameIsHello(h[body..body + len], 2, 5 + body);
        BlockIsHello(h, body + len, end);
      }
    }
  }

  lemma {:induction false} NameIsHello(ext: seq<Byte>, pos: nat, wire: nat)
    ensures FindName(ext, pos, wire).Complete? ==> FindName(ext, pos, wire).proto.TlsClientHello?
    decreases |ext| - pos
  {
    if pos + 3 <= |ext| {
      var next := pos + 3 + Word(ext, pos + 1);
      if next <= |ext| {
        NameIsHello(ext, next, wire);
      }
    }
  }

  lemma {:induction false} MethodsAreAscii(ms: seq<seq<Byte>>, d: seq<Byte>)
    requires forall i :: 0 <= i < |ms| ==> |ms[i]| > 0 && 0x41 <= ms[i][0] < 0x80
    ensures HttpParser.FirstMethod(ms, d).Some? ==> |d| > 0 && 0x41 <= d[0] < 0x80
  {
    if ms != [] && !(ms[0] <= d) {
      MethodsAreAscii(ms[1..], d);
    }
  }
}
