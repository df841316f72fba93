/** Padding a hello whose extension block runs past its first record. */
module PaddingCut {
  import opened Bytes
  import opened Types
  import opened TlsParser
  import opened TlsStability
  import opened ClientHello
  import opened Padding
  import opened PaddingBytes

  /** Padding walks the payload, record headers and all, to an extension block that ends behind the first record. */
  predicate BlockBeyondFirstRecord(p: seq<Byte>, padLen: nat) {
    && |p| >= 5 && HeaderAt(p, 0) && 0 < FirstRecordLen(p) && 5 + FirstRecordLen(p) <= |p|
    && PlanFor(p, padLen).Some? && PlanFor(p, padLen).value.end > 5 + FirstRecordLen(p)
  }

  /** The length field of the extension block is cut off, but nothing in front of it. */
  predicate BlockLengthCut(x: Plan) {
    x.blockPos <= 5 + x.record < x.blockPos + 2
  }

  lemma AgreeBack(h: seq<Byte>, g: seq<Byte>, lo: nat, hi: nat)
    requires Agree(h, g, lo, hi)
    ensures Agree(g, h, lo, hi)
  {
    forall i | lo <= i < hi ensures SameAt(g, h, i) {
      assert SameAt(h, g, i);
    }
  }

  /** What the payloads have in common behind their first headers, as far as `limit`. */
  lemma FrontsAgree(p: seq<Byte>, q: seq<Byte>, m: nat, blockPos: nat, limit: nat)
    requires 9 <= blockPos <= |p| && blockPos <= |q| && q[9..blockPos] == p[9..blockPos] && 5 + m <= |q|
    requires limit + 5 <= blockPos && limit <= m
    ensures Agree(p[5..], q[5..5 + m], 4, limit)
  {
    if limit > 4 {
      Window(p, 9, blockPos, 0, limit - 4);
      Window(q, 9, blockPos, 0, limit - 4);
      Window(q, 5, 5 + m, 4, limit);
      Slice(p, 5, 4, limit);
      SliceElements(p[5..], q[5..5 + m], 4, limit);
    }
  }

  /** The walk over the first record finds the block if it gets there, and lacks bytes otherwise. */
  lemma CutWalk(w: seq<Byte>, h: seq<Byte>, pos: nat)
    requires 4 <= pos && 4 <= |h| && HelloEnd(w) == At(pos) && pos <= |w|
    requires Agree(w, h, 4, if pos <= |h| then pos else |h|)
    ensures pos <= |h| ==> HelloEnd(h) == At(pos)
    ensures pos > |h| ==> HelloEnd(h).Short?
  {
    if pos <= |h| {
      WalkAgrees(w, h, 4, 4, VERSION, pos);
    } else if HelloEnd(h).At? {
      var c := HelloEnd(h).pos;
      HelloEndPrefix(h, h);
      AgreeBack(w, h, 4, |h|);
      WalkAgrees(h, w, 4, 4, VERSION, c);
      assert false;
    }
  }

  /** A handshake whose extension block claims more than is there. */
  lemma CutVerdict(h: seq<Byte>, pos: nat, message: nat)
    requires |h| >= 4 && h[0] == CLIENT_HELLO && MessageLen(h) == message
    requires if pos <= |h| then HelloEnd(h) == At(pos) else HelloEnd(h).Short?
    requires pos + 2 <= |h| ==> pos + 2 + U16At(h, pos) > |h|
    ensures ParseHandshake(h) == NO_SNI || ParseHandshake(h).NeedMore?
    ensures ParseHandshake(h) == NO_SNI <==> message <= |h| && pos <= |h| < pos + 2
  {
  }

  /** The first record of the padded payload. */
  lemma CutRecord(p: seq<Byte>, q: seq<Byte>, x: Plan, pad: seq<Byte>, h: seq<Byte>)
    requires Sane(p, x) && |p| >= 43 && p[5] == CLIENT_HELLO && HelloEnd(p[5..]) == At(x.blockPos - 5)
    requires PaddedFront(p, q, x, pad) && 5 <= x.record && 5 + x.record <= |q| && h == q[5..5 + x.record]
    requires x.blockPos + 2 + x.extensions > 5 + x.record
    ensures ParseHandshake(h) == NO_SNI || ParseHandshake(h).NeedMore?
    ensures ParseHandshake(h) == NO_SNI <==> 4 + x.handshake <= x.record && BlockLengthCut(x)
  {
    var pos, w := x.blockPos - 5, p[5..];
    FrontsAgree(p, q, x.record, x.blockPos, if pos <= |h| then pos else |h|);
    CutWalk(w, h, pos);
    RecordBytes(q, x.record, h, x.blockPos);
    CutVerdict(h, pos, 4 + x.handshake);
  }

  lemma RecordBytes(q: seq<Byte>, m: nat, h: seq<Byte>, blockPos: nat)
    requires 5 <= m && 5 + m <= |q| && h == q[5..5 + m] && 9 <= blockPos
    ensures h[0] == q[5] && Word24(h, 1) == Word24(q, 6)
    ensures blockPos + 2 <= 5 + m ==> U16At(h, blockPos - 5) == U16At(q, blockPos)
  {
    assert h[0] == q[5] && h[1] == q[6] && h[2] == q[7] && h[3] == q[8];
    assert blockPos + 2 <= 5 + m ==> h[blockPos - 5] == q[blockPos] && h[blockPos - 4] == q[blockPos + 1];
  }

  lemma PlanFacts(p: seq<Byte>, padLen: nat, x: Plan)
    requires BlockBeyondFirstRecord(p, padLen) && PlanFor(p, padLen) == Some(x)
    ensures |p| >= 43 && p[5] == CLIENT_HELLO && HelloEnd(p[5..]) == At(x.blockPos - 5)
    ensures x.record == FirstRecordLen(p) + 4 + padLen < 0x1_0000 && x.extensions < 0x1_0000
    ensures x.handshake == Word24(p, 6) + 4 + padLen && x.blockPos + 2 + x.extensions == x.end + 4 + padLen
  {
  }

  /**
   * A block that ends behind the first record: the padding goes to the end of the block in the payload, the
   * first record's length grows over what follows it, and the block grows past that record. Unless the
   * bytes behind the grown record read as a record header, no name is left: the parser asks for more, or
   * takes the hello for one without extensions when exactly the length field of the block is cut.
   */
  lemma PaddingBeyondRecord(p: seq<Byte>, padLen: nat, x: Plan)
    requires BlockBeyondFirstRecord(p, padLen) && PlanFor(p, padLen) == Some(x)
    ensures Padded(p, padLen) == Some(Applied(p, padLen, x))
    ensures var q := Applied(p, padLen, x);
            && 5 + x.record <= |q|
            && (!HeaderAt(q, 5 + x.record) ==>
                  && (x.record > MAX_TLS_RECORD ==> Parse(q) == NotTls)
                  && (x.record <= MAX_TLS_RECORD ==>
                        && (Parse(q) == NO_SNI || Parse(q).NeedMore?)
                        && (Parse(q) == NO_SNI <==> 4 + Word24(p, 6) <= FirstRecordLen(p) && BlockLengthCut(x))))
  {
    var q := Applied(p, padLen, x);
    AppliedRecord(p, padLen, x, q);
    FirstRecordVerdict(p, padLen, x, q, q[5..5 + x.record]);
    OneRecordVerdict(q, x.record);
  }

  /** Unless a header follows, the first record decides. */
  lemma OneRecordVerdict(q: seq<Byte>, n: nat)
    requires HeaderAt(q, 0) && FirstRecordLen(q) == n && 0 < n && 5 + n <= |q|
    ensures !HeaderAt(q, 5 + n) ==> Parse(q) == if n > MAX_TLS_RECORD then NotTls else ParseHandshake(q[5..5 + n])
  {
    if !HeaderAt(q, 5 + n) {
      ParseFrom(q, n, q[5..5 + n]);
    }
  }

  lemma AppliedRecord(p: seq<Byte>, padLen: nat, x: Plan, q: seq<Byte>)
    requires BlockBeyondFirstRecord(p, padLen) && PlanFor(p, padLen) == Some(x) && q == Applied(p, padLen, x)
    ensures Padded(p, padLen) == Some(q) && 0 < x.record && 5 + x.record <= |q|
    ensures HeaderAt(q, 0) && FirstRecordLen(q) == x.record
  {
    PlanFacts(p, padLen, x);
    AppliedTail(p, padLen, x);
    AppliedHeader(p, padLen, x);
  }

  lemma FirstRecordVerdict(p: seq<Byte>, padLen: nat, x: Plan, q: seq<Byte>, h: seq<Byte>)
    requires BlockBeyondFirstRecord(p, padLen) && PlanFor(p, padLen) == Some(x) && q == Applied(p, padLen, x)
    requires 5 + x.record <= |q| && h == q[5..5 + x.record]
    ensures ParseHandshake(h) == NO_SNI || ParseHandshake(h).NeedMore?
    ensures ParseHandshake(h) == NO_SNI <==> 4 + Word24(p, 6) <= FirstRecordLen(p) && BlockLengthCut(x)
  {
    PlanFacts(p, padLen, x);
    AppliedFront(p, padLen, x);
    CutRecord(p, q, x, PrintExtension(PadExtension(padLen)), h);
  }
}
