/** Inserting a padding extension and keeping three nested length fields consistent. */
module Padding {
  import opened Bytes
  import opened Types
  import opened TlsParser
  import opened ClientHello

  const PADDING: nat := 0x0015

  function PadExtension(padLen: nat): Extension {
    Extension(PADDING, Zeros(padLen))
  }

  /** Type 21, section 4 of RFC 7685, the length, and zeros. */
  lemma PadIsZeros(padLen: nat)
    ensures PrintExtension(PadExtension(padLen)) == [0, 21] + U16Bytes(padLen) + Zeros(padLen)
  {
  }

  /** The extension block lies inside the buffer. */
  predicate BlockInside(h: seq<Byte>) {
    && |h| >= 38 && HelloEnd(h).At? && HelloEnd(h).pos + 2 <= |h|
    && HelloEnd(h).pos + 2 + U16At(h, HelloEnd(h).pos) <= |h|
  }

  /** `s[at..at + b.len()].copy_from_slice(b)` */
  function Splice(s: seq<Byte>, at: nat, b: seq<Byte>): (r: seq<Byte>)
    requires at + |b| <= |s|
    ensures |r| == |s|
  {
    s[..at] + b + s[at + |b|..]
  }

  /** The payload with the padding extension behind its extension block. */
  function Inserted(p: seq<Byte>, end: nat, padLen: nat): (r: seq<Byte>)
    requires end <= |p|
    ensures |r| == |p| + 4 + padLen
  {
    p[..end] + PrintExtension(PadExtension(padLen)) + p[end..]
  }

  /** The buffer with new record, handshake and extensions lengths. */
  function Grown(s: seq<Byte>, blockPos: nat, record: nat, handshake: nat, extensions: nat): (r: seq<Byte>)
    requires 9 <= blockPos && blockPos + 2 <= |s| && handshake < 0x100_0000
    ensures |r| == |s|
  {
    Splice(Splice(Splice(s, 3, U16Bytes(record)), 6, U24Bytes(handshake)), blockPos, U16Bytes(extensions))
  }

  /** Where to insert the padding, and the three new lengths. */
  datatype Plan = Plan(blockPos: nat, end: nat, record: nat, handshake: nat, extensions: nat)

  predicate Sane(p: seq<Byte>, x: Plan) {
    9 <= x.blockPos && x.blockPos + 2 <= x.end <= |p| && x.handshake < 0x100_0000
  }

  /** The plan, unless the payload is no hello or a new length does not fit its field. */
  function PlanFor(p: seq<Byte>, padLen: nat): (x: Option<Plan>)
    ensures x.Some? ==> Sane(p, x.value)
  {
    if |p| < 43 || p[0] != HANDSHAKE || p[5] != CLIENT_HELLO || !BlockInside(p[5..]) then None
    else
      var pos, n := HelloEnd(p[5..]).pos, 4 + padLen;
      var len, record, handshake := U16At(p[5..], pos), Word(p, 3) + n, Word24(p, 6) + n;
      if len + n > 0xFFFF || record > 0xFFFF || handshake > 0xFF_FFFF then None
      else Some(Plan(5 + pos, 5 + pos + 2 + len, record, handshake, len + n))
  }

  function Applied(p: seq<Byte>, padLen: nat, x: Plan): seq<Byte>
    requires Sane(p, x)
  {
    Grown(Inserted(p, x.end, padLen), x.blockPos, x.record, x.handshake, x.extensions)
  }

  function Padded(p: seq<Byte>, padLen: nat): Option<seq<Byte>> {
    match PlanFor(p, padLen)
    case None => None
    case Some(x) => Some(Applied(p, padLen, x))
  }

  // ---------- The algorithm ----------

  /** The plan once the walk has found the length field of the extension block. */
  lemma PlanAt(p: seq<Byte>, padLen: nat, blockPos: nat)
    requires |p| >= 43 && p[0] == HANDSHAKE && p[5] == CLIENT_HELLO
    requires 5 <= blockPos && blockPos + 2 <= |p| && HelloEnd(p[5..]) == At(blockPos - 5)
    ensures var len, n := Word(p, blockPos), 4 + padLen;
            var record, handshake := Word(p, 3) + n, Word24(p, 6) + n;
            PlanFor(p, padLen) == if blockPos + 2 + len > |p| || len + n > 0xFFFF || record > 0xFFFF || handshake > 0xFF_FFFF
                                  then None else Some(Plan(blockPos, blockPos + 2 + len, record, handshake, len + n))
  {
    var h := p[5..];
    assert h[blockPos - 5] == p[blockPos] && h[blockPos - 4] == p[blockPos + 1];
  }

  method AddTlsPadding(p: seq<Byte>, padLen: nat) returns (r: Option<seq<Byte>>)
    ensures r == Padded(p, padLen)
  {
    if |p| < 43 {
      return None;
    }
    if p[0] != HANDSHAKE {
      return None;
    }
    if p[5] != CLIENT_HELLO {
      return None;
    }
    var found := FindBlock(p);
    if found.None? {
      return None;
    }
    var extLenPos := found.value;
    PlanAt(p, padLen, extLenPos);
    var pos := extLenPos + 2;
    var extLen := Word(p, extLenPos);
    if pos + extLen > |p| {
      return None;
    }
    var newExtLen := extLen + (4 + padLen);
    if newExtLen > 0xFFFF {
      return None;
    }
    r := Grow(p, extLenPos, pos + extLen, padLen, newExtLen);
  }

  /** Insert the padding and add its size to the record and handshake lengths. */
  method Grow(p: seq<Byte>, blockPos: nat, extEnd: nat, padLen: nat, newExtLen: nat) returns (r: Option<seq<Byte>>)
    requires 43 <= blockPos && blockPos + 2 <= extEnd <= |p|
    ensures var record, handshake := Word(p, 3) + (4 + padLen), Word24(p, 6) + (4 + padLen);
            r == if record > 0xFFFF || handshake > 0xFFFFFF then None
                 else Some(Grown(Inserted(p, extEnd, padLen), blockPos, record, handshake, newExtLen))
  {
    var padExtTotal := 4 + padLen;
    var result := InsertPadding(p, extEnd, padLen);
    var newRecordLen := Word(result, 3) + padExtTotal;
    if newRecordLen > 0xFFFF {
      return None;
    }
    var newHsLen := Word24(result, 6) + padExtTotal;
    if newHsLen > 0xFFFFFF {
      return None;
    }
    result := Splice(result, 3, U16Bytes(newRecordLen));
    result := Splice(result, 6, U24Bytes(newHsLen));
    result := Splice(result, blockPos, U16Bytes(newExtLen));
    return Some(result);
  }

  method InsertPadding(p: seq<Byte>, extEnd: nat, padLen: nat) returns (result: seq<Byte>)
    requires 9 <= extEnd <= |p|
    ensures result == Inserted(p, extEnd, padLen)
    ensures forall i :: 0 <= i < 9 ==> result[i] == p[i]
  {
    result := p[..extEnd];
    result := result + U16Bytes(PADDING);
    result := result + U16Bytes(padLen);
    result := result + Zeros(padLen);
    if extEnd < |p| {
      result := result + p[extEnd..];
    }
  }

  /** Walk the payload to the extensions length field. */
  method FindBlock(p: seq<Byte>) returns (r: Option<nat>)
    requires |p| >= 43
    ensures var c := HelloEnd(p[5..]);
            r == if c.At? && 5 + c.pos + 2 <= |p| then Some(5 + c.pos) else None
  {
    ghost var h := p[5..];
    ghost var end := HelloEnd(h);
    assert end == Walk(h, 38, SESSION_ID) by {
      assert Walk(h, 4, VERSION) == Walk(h, 6, RANDOM);
    }
    var pos: nat := 43;
    if pos >= |p| {
      return None;
    }
    pos := pos + 1 + p[pos];
    if pos > |p| {
      return None;
    }
    assert end == Walk(h, pos - 5, CIPHER_SUITES);
    if pos + 2 > |p| {
      return None;
    }
    pos := pos + 2 + Word(p, pos);
    if pos > |p| {
      return None;
    }
    assert end == Walk(h, pos - 5, COMPRESSION);
    if pos >= |p| {
      return None;
    }
    pos := pos + 1 + p[pos];
    if pos > |p| {
      return None;
    }
    assert end == Walk(h, pos - 5, EXTENSIONS);
    if pos + 2 > |p| {
      return None;
    }
    return Some(pos);
  }
}
