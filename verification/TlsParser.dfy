/** The incremental ClientHello parser: a cursor over the reassembled handshake. */
module TlsParser {
  import opened Bytes
  import opened Types
  import Utf8

  const HANDSHAKE: Byte := 0x16
  const CLIENT_HELLO: Byte := 0x01
  const MAX_TLS_RECORD: nat := 16384 + 2048

  datatype ParseStatus = Complete(proto: AppProtocol) | NeedMore(needed: nat) | NotTls
  {
    predicate HasSni() {
      Complete? && proto.TlsClientHello? && proto.sni.Some?
    }
  }

  const NO_SNI: ParseStatus := Complete(TlsClientHello(None, 0, 0))

  // ---------- Specification: the handshake ----------

  /** A cursor inside the handshake, or the wire length at which it could move on. */
  datatype Cursor = At(pos: nat) | Short(needed: nat)

  /** The fields in front of the extension block, in order. */
  const VERSION := 0
  const RANDOM := 1
  const SESSION_ID := 2
  const CIPHER_SUITES := 3
  const COMPRESSION := 4
  const EXTENSIONS := 5

  /** The size of the field at `pos` with its length prefix, as far as the prefix can be read. */
  function FieldSize(h: seq<Byte>, pos: nat, field: nat): (n: nat)
    ensures n > 0
  {
    if field == VERSION then 2
    else if field == RANDOM then 32
    else if field == CIPHER_SUITES then 2 + U16At(h, pos)
    else 1 + U8At(h, pos)
  }

  /** Pass the fields from `field` up to the extension block. */
  function Walk(h: seq<Byte>, pos: nat, field: nat): Cursor
    decreases EXTENSIONS - field
  {
    if field >= EXTENSIONS then At(pos)
    else
      var next := pos + FieldSize(h, pos, field);
      if next > |h| then Short(5 + next) else Walk(h, next, field + 1)
  }

  /** The position just after the compression methods. */
  function HelloEnd(h: seq<Byte>): Cursor {
    Walk(h, 4, VERSION)
  }

  /** The first host_name entry of a server_name extension body, from `pos` on. */
  function FindName(ext: seq<Byte>, pos: nat, wire: nat): ParseStatus
    decreases |ext| - pos
  {
    if pos + 3 > |ext| then NO_SNI
    else
      var len := Word(ext, pos + 1);
      var start := pos + 3;
      if start + len > |ext| then NO_SNI
      else if ext[pos] == 0 then
        Complete(TlsClientHello(Some(Utf8.Lossy(ext[start..start + len])), wire + start, len))
      else FindName(ext, start + len, wire)
  }

  function ParseSni(ext: seq<Byte>, wire: nat): ParseStatus {
    if |ext| < 2 then NO_SNI else FindName(ext, 2, wire)
  }

  /** Walk the extension block `h[pos..end]` up to the first server_name extension. */
  function FindSni(h: seq<Byte>, pos: nat, end: nat): ParseStatus
    requires end <= |h|
    decreases end - pos
  {
    if pos + 4 > end then NO_SNI
    else
      var len := Word(h, pos + 2);
      var body := pos + 4;
      if body + len > end then NO_SNI
      else if Word(h, pos) == 0 then ParseSni(h[body..body + len], 5 + body)
      else FindSni(h, body + len, end)
  }

  function ParseExtensions(h: seq<Byte>, pos: nat): ParseStatus {
    if pos + 2 > |h| then NO_SNI
    else
      var len := Word(h, pos);
      if pos + 2 + len > |h| then NeedMore(5 + pos + 2 + len)
      else FindSni(h, pos + 2, pos + 2 + len)
  }

  /** Handshake header and body, by the length field. */
  function MessageLen(h: seq<Byte>): (n: nat)
    requires |h| >= 4
    ensures n >= 4
  {
    4 + Word24(h, 1)
  }

  function ParseBody(h: seq<Byte>): ParseStatus {
    match HelloEnd(h)
    case Short(n) => NeedMore(n)
    case At(pos) => ParseExtensions(h, pos)
  }

  function ParseHandshake(h: seq<Byte>): ParseStatus {
    if |h| == 0 || h[0] != CLIENT_HELLO then NotTls
    else if |h| < 4 then NeedMore(9)
    else if |h| < MessageLen(h) then NeedMore(5 + MessageLen(h))
    else ParseBody(h)
  }

  // ---------- Specification: the record layer ----------

  predicate VersionOk(major: Byte, minor: Byte) {
    0x0301 <= U16(major, minor) <= 0x0303
  }

  /** A record header that continues the handshake starts at `pos`. */
  predicate HeaderAt(d: seq<Byte>, pos: nat) {
    pos + 5 <= |d| && d[pos] == HANDSHAKE && VersionOk(d[pos + 1], d[pos + 2])
  }

  datatype Gathered = Whole(handshake: seq<Byte>) | Cut(needed: nat)

  /** Collect the bodies of the continuation records from `pos` on. */
  function Gather(d: seq<Byte>, pos: nat, acc: seq<Byte>): Gathered
    decreases |d| - pos
  {
    if !HeaderAt(d, pos) then Whole(acc)
    else
      var end := pos + 5 + Word(d, pos + 3);
      if |d| < end then Cut(end) else Gather(d, end, acc + d[pos + 5..end])
  }

  function FirstRecordLen(d: seq<Byte>): nat
    requires |d| >= 5
  {
    Word(d, 3)
  }

  predicate FirstHeaderOk(d: seq<Byte>) {
    HeaderAt(d, 0) && 0 < FirstRecordLen(d) <= MAX_TLS_RECORD
  }

  function Judge(g: Gathered): ParseStatus {
    match g
    case Cut(n) => NeedMore(n)
    case Whole(h) => ParseHandshake(h)
  }

  function Parse(d: seq<Byte>): ParseStatus {
    if |d| < 5 then (if |d| > 0 && d[0] == HANDSHAKE then NeedMore(5) else NotTls)
    else if !FirstHeaderOk(d) then NotTls
    else
      var end := 5 + FirstRecordLen(d);
      if |d| < end then NeedMore(end) else Judge(Gather(d, end, d[5..end]))
  }

  // ---------- The parser itself ----------

  method TryParseClientHello(data: seq<Byte>) returns (status: ParseStatus)
    ensures status == Parse(data)
  {
    if |data| < 5 {
      if |data| != 0 && data[0] == HANDSHAKE {
        return NeedMore(5);
      }
      return NotTls;
    }
    if data[0] != HANDSHAKE {
      return NotTls;
    }
    if !VersionOk(data[1], data[2]) {
      return NotTls;
    }
    var recordLength := Word(data, 3);
    if recordLength == 0 || recordLength > MAX_TLS_RECORD {
      return NotTls;
    }
    var recordEnd := 5 + recordLength;
    if |data| < recordEnd {
      return NeedMore(recordEnd);
    }

    var totalHandshake := data[5..recordEnd];
    var scanPos := recordEnd;
    while scanPos + 5 <= |data|
      invariant recordEnd <= scanPos <= |data|
      invariant Gather(data, recordEnd, data[5..recordEnd]) == Gather(data, scanPos, totalHandshake)
    {
      if data[scanPos] != HANDSHAKE {
        break;
      }
      if !VersionOk(data[scanPos + 1], data[scanPos + 2]) {
        break;
      }
      var contEnd := scanPos + 5 + Word(data, scanPos + 3);
      if |data| < contEnd {
        return NeedMore(contEnd);
      }
      totalHandshake := totalHandshake + data[scanPos + 5..contEnd];
      scanPos := contEnd;
    }
    status := RunHandshake(totalHandshake);
  }

  method RunHandshake(handshake: seq<Byte>) returns (status: ParseStatus)
    ensures status == ParseHandshake(handshake)
  {
    if |handshake| == 0 {
      return NotTls;
    }
    if handshake[0] != CLIENT_HELLO {
      return NotTls;
    }
    if |handshake| < 4 {
      return NeedMore(5 + 4);
    }
    var neededHandshake := 4 + Word24(handshake, 1);
    if |handshake| < neededHandshake {
      return NeedMore(5 + neededHandshake);
    }
    var c := SkipHello(handshake);
    match c {
      case Short(n) =>
        return NeedMore(n);
      case At(pos) =>
        status := RunExtensions(handshake, pos);
    }
  }

  /** Skip version, random, session id, cipher suites and compression methods. */
  method SkipHello(h: seq<Byte>) returns (c: Cursor)
    requires |h| >= 4
    ensures c == HelloEnd(h)
  {
    var pos: nat := 4;
    if pos + 2 > |h| {
      return Short(5 + pos + 2);
    }
    pos := pos + 2;
    if pos + 32 > |h| {
      return Short(5 + pos + 32);
    }
    pos := pos + 32;
    if pos + 1 > |h| {
      return Short(5 + pos + 1);
    }
    var sessionIdLen := h[pos];
    pos := pos + 1;
    if pos + sessionIdLen > |h| {
      return Short(5 + pos + sessionIdLen);
    }
    pos := pos + sessionIdLen;
    if pos + 2 > |h| {
      return Short(5 + pos + 2);
    }
    var cipherSuitesLen := Word(h, pos);
    pos := pos + 2;
    if pos + cipherSuitesLen > |h| {
      return Short(5 + pos + cipherSuitesLen);
    }
    pos := pos + cipherSuitesLen;
    if pos + 1 > |h| {
      return Short(5 + pos + 1);
    }
    var compMethodsLen := h[pos];
    pos := pos + 1;
    if pos + compMethodsLen > |h| {
      return Short(5 + pos + compMethodsLen);
    }
    pos := pos + compMethodsLen;
    return At(pos);
  }

  method RunExtensions(h: seq<Byte>, start: nat) returns (status: ParseStatus)
    ensures status == ParseExtensions(h, start)
  {
    var pos := start;
    if pos + 2 > |h| {
      return NO_SNI;
    }
    var extensionsLen := Word(h, pos);
    pos := pos + 2;
    if pos + extensionsLen > |h| {
      return NeedMore(5 + pos + extensionsLen);
    }
    var extensionsEnd := pos + extensionsLen;
    while pos + 4 <= extensionsEnd
      invariant pos <= extensionsEnd <= |h|
      invariant ParseExtensions(h, start) == FindSni(h, pos, extensionsEnd)
    {
      var extType := Word(h, pos);
      var extLen := Word(h, pos + 2);
      pos := pos + 4;
      if pos + extLen > extensionsEnd {
        return NO_SNI;
      }
      if extType == 0 {
        status := RunSniExtension(h[pos..pos + extLen], 5 + pos);
        return;
      }
      pos := pos + extLen;
    }
    return NO_SNI;
  }

  method RunSniExtension(extData: seq<Byte>, wireOffset: nat) returns (status: ParseStatus)
    ensures status == ParseSni(extData, wireOffset)
  {
    if |extData| < 2 {
      return NO_SNI;
    }
    var pos: nat := 2;
    while pos + 3 <= |extData|
      invariant 2 <= pos <= |extData|
      invariant ParseSni(extData, wireOffset) == FindName(extData, pos, wireOffset)
    {
      var nameType := extData[pos];
      var nameLen := Word(extData, pos + 1);
      pos := pos + 3;
      if pos + nameLen > |extData| {
        break;
      }
      if nameType == 0 {
        return Complete(TlsClientHello(Some(Utf8.Lossy(extData[pos..pos + nameLen])), wireOffset + pos, nameLen));
      }
      pos := pos + nameLen;
    }
    return NO_SNI;
  }
}
