/** Padding on payload bytes, whatever they hold besides a ClientHello. */
module PaddingBytes {
  import opened Bytes
  import opened Types
  import opened TlsParser
  import opened TlsStability
  import opened ClientHello
  import opened Padding
  import MessageEnd

  // ---------- The bytes of a padded payload ----------

  /** A slice that a splice leaves alone. */
  lemma SpliceKeeps(s: seq<Byte>, at: nat, b: seq<Byte>, lo: nat, hi: nat)
    requires at + |b| <= |s| && lo <= hi <= |s| && (hi <= at || at + |b| <= lo)
    ensures Splice(s, at, b)[lo..hi] == s[lo..hi]
  {
  }

  lemma SpliceWrites(s: seq<Byte>, at: nat, b: seq<Byte>)
    requires at + |b| <= |s|
    ensures Splice(s, at, b)[at..at + |b|] == b
  {
  }

  lemma InsertedSlices(p: seq<Byte>, end: nat, pad: seq<Byte>)
    requires end <= |p|
    ensures var q := p[..end] + pad + p[end..];
            && (forall lo, hi :: 0 <= lo <= hi <= end ==> q[lo..hi] == p[lo..hi])
            && q[end..end + |pad|] == pad && q[end + |pad|..] == p[end..]
  {
  }

  /** In front of its end the padded buffer `q` differs from `p` in three lengths; then `pad` follows. */
  predicate PaddedFront(p: seq<Byte>, q: seq<Byte>, x: Plan, pad: seq<Byte>)
    requires Sane(p, x)
  {
    && |q| == |p| + |pad| && q[5] == p[5]
    && Word24(q, 6) == x.handshake && U16At(q, x.blockPos) == x.extensions
    && q[9..x.blockPos] == p[9..x.blockPos] && q[x.blockPos + 2..x.end] == p[x.blockPos + 2..x.end]
    && q[x.end..x.end + |pad|] == pad
  }

  lemma AppliedFront(p: seq<Byte>, padLen: nat, x: Plan)
    requires Sane(p, x) && x.extensions < 0x1_0000
    ensures PaddedFront(p, Applied(p, padLen, x), x, PrintExtension(PadExtension(padLen)))
  {
    var pad := PrintExtension(PadExtension(padLen));
    var r, h, e := U16Bytes(x.record), U24Bytes(x.handshake), U16Bytes(x.extensions);
    U24RoundTrip(x.handshake);
    U16RoundTrip(x.extensions);
    WrittenFront(p, Inserted(p, x.end, padLen), x, pad, r, h, e);
  }

  lemma WrittenFront(
      p: seq<Byte>, s: seq<Byte>, x: Plan, pad: seq<Byte>, r: seq<Byte>, h: seq<Byte>, e: seq<Byte>)
    requires Sane(p, x) && s == p[..x.end] + pad + p[x.end..] && |r| == 2 && |h| == 3 && |e| == 2
    requires Word24(h, 0) == x.handshake && Word(e, 0) == x.extensions
    ensures PaddedFront(p, Splice(Splice(Splice(s, 3, r), 6, h), x.blockPos, e), x, pad)
  {
    var s1 := Splice(s, 3, r);
    var s2 := Splice(s1, 6, h);
    var q := Splice(s2, x.blockPos, e);
    InsertedSlices(p, x.end, pad);
    ThreeSplices(s, s1, s2, q, x.blockPos, r, h, e);
    SplicesKeep(s, s1, s2, q, x.blockPos, r, h, e, x.blockPos + 2, x.end);
    SplicesKeep(s, s1, s2, q, x.blockPos, r, h, e, x.end, x.end + |pad|);
    OneByte(q, s, 5, 5);
    OneByte(s, p, 5, 5);
    SliceIsThree(q, 6, h);
    SliceIsTwo(q, x.blockPos, e);
  }

  /** Behind the padding nothing changes. */
  lemma AppliedTail(p: seq<Byte>, padLen: nat, x: Plan)
    requires Sane(p, x)
    ensures var q := Applied(p, padLen, x);
            |q| == |p| + 4 + padLen && q[x.end + (4 + padLen)..] == p[x.end..]
  {
    var n, s := 4 + padLen, Inserted(p, x.end, padLen);
    var r, h, e := U16Bytes(x.record), U24Bytes(x.handshake), U16Bytes(x.extensions);
    var s1 := Splice(s, 3, r);
    var s2 := Splice(s1, 6, h);
    var q := Splice(s2, x.blockPos, e);
    InsertedSlices(p, x.end, PrintExtension(PadExtension(padLen)));
    SplicesKeep(s, s1, s2, q, x.blockPos, r, h, e, x.end + n, |s|);
    assert q[x.end + n..|s|] == q[x.end + n..] && s[x.end + n..|s|] == s[x.end + n..];
  }

  /** The record header keeps its type and version and gets the new length. */
  lemma AppliedHeader(p: seq<Byte>, padLen: nat, x: Plan)
    requires Sane(p, x) && x.record < 0x1_0000
    ensures var q := Applied(p, padLen, x);
            |q| >= 5 && HeaderAt(q, 0) == HeaderAt(p, 0) && FirstRecordLen(q) == x.record
  {
    var s := Inserted(p, x.end, padLen);
    var r, h, e := U16Bytes(x.record), U24Bytes(x.handshake), U16Bytes(x.extensions);
    var s1 := Splice(s, 3, r);
    var s2 := Splice(s1, 6, h);
    var q := Splice(s2, x.blockPos, e);
    U16RoundTrip(x.record);
    ThreeSplices(s, s1, s2, q, x.blockPos, r, h, e);
    SliceIsTwo(q, 3, r);
    assert s[..3] == p[..3];
    SameType(p, q);
  }

  lemma SameType(p: seq<Byte>, q: seq<Byte>)
    requires |p| >= 5 && |q| >= 5 && q[..3] == p[..3]
    ensures HeaderAt(q, 0) == HeaderAt(p, 0)
  {
    assert q[0] == q[..3][0] && q[1] == q[..3][1] && q[2] == q[..3][2];
    assert p[0] == p[..3][0] && p[1] == p[..3][1] && p[2] == p[..3][2];
  }

  lemma SliceIsTwo(s: seq<Byte>, i: nat, b: seq<Byte>)
    requires i + 2 <= |s| && |b| == 2 && s[i..i + 2] == b
    ensures U16At(s, i) == Word(b, 0)
  {
    assert s[i] == s[i..i + 2][0] && s[i + 1] == s[i..i + 2][1];
  }

  lemma SliceIsThree(s: seq<Byte>, i: nat, b: seq<Byte>)
    requires i + 3 <= |s| && |b| == 3 && s[i..i + 3] == b
    ensures Word24(s, i) == Word24(b, 0)
  {
    assert s[i] == s[i..i + 3][0] && s[i + 1] == s[i..i + 3][1] && s[i + 2] == s[i..i + 3][2];
  }

  lemma OneByte(s: seq<Byte>, t: seq<Byte>, i: nat, j: nat)
    requires i < |s| && j < |t| && s[i..i + 1] == t[j..j + 1]
    ensures s[i] == t[j]
  {
    assert s[i..i + 1][0] == t[j..j + 1][0];
  }

  lemma ThreeSplices(
      s: seq<Byte>, s1: seq<Byte>, s2: seq<Byte>, q: seq<Byte>, at: nat, r: seq<Byte>, h: seq<Byte>, e: seq<Byte>)
    requires |r| == 2 && |h| == 3 && |e| == 2 && 9 <= at && at + 2 <= |s|
    requires s1 == Splice(s, 3, r) && s2 == Splice(s1, 6, h) && q == Splice(s2, at, e)
    ensures q[..3] == s[..3] && q[3..5] == r && q[5..6] == s[5..6] && q[6..9] == h
    ensures q[9..at] == s[9..at] && q[at..at + 2] == e
  {
    SpliceKeeps(s, 3, r, 0, 3);
    SpliceKeeps(s1, 6, h, 0, 3);
    SpliceKeeps(s2, at, e, 0, 3);
    SpliceWrites(s, 3, r);
    SpliceKeeps(s1, 6, h, 3, 5);
    SpliceKeeps(s2, at, e, 3, 5);
    SpliceKeeps(s, 3, r, 5, 6);
    SpliceKeeps(s1, 6, h, 5, 6);
    SpliceKeeps(s2, at, e, 5, 6);
    SpliceWrites(s1, 6, h);
    SpliceKeeps(s2, at, e, 6, 9);
    SpliceKeeps(s, 3, r, 9, at);
    SpliceKeeps(s1, 6, h, 9, at);
    SpliceKeeps(s2, at, e, 9, at);
    SpliceWrites(s2, at, e);
  }

  lemma SplicesKeep(
      s: seq<Byte>, s1: seq<Byte>, s2: seq<Byte>, q: seq<Byte>, at: nat, r: seq<Byte>, h: seq<Byte>, e: seq<Byte>,
      lo: nat, hi: nat)
    requires |r| == 2 && |h| == 3 && |e| == 2 && 9 <= at && at + 2 <= lo <= hi <= |s|
    requires s1 == Splice(s, 3, r) && s2 == Splice(s1, 6, h) && q == Splice(s2, at, e)
    ensures q[lo..hi] == s[lo..hi]
  {
    SpliceKeeps(s, 3, r, lo, hi);
    SpliceKeeps(s1, 6, h, lo, hi);
    SpliceKeeps(s2, at, e, lo, hi);
  }

  // ---------- The padded handshake ----------

  /** The handshake `g` is `h` with longer lengths and `pad` behind its extension block `h[pos + 2..end]`. */
  predicate PaddedHandshake(h: seq<Byte>, g: seq<Byte>, pos: nat, end: nat, pad: seq<Byte>) {
    && 4 <= pos && pos + 2 <= end <= |h| && |g| == |h| + |pad| && g[0] == h[0]
    && Word24(g, 1) == Word24(h, 1) + |pad|
    && pos + 2 + U16At(h, pos) == end && pos + 2 + U16At(g, pos) == end + |pad|
    && g[4..pos] == h[4..pos] && g[pos + 2..end] == h[pos + 2..end] && g[end..end + |pad|] == pad
  }

  /** The buffers agree from `lo` up to `hi`. */
  predicate Agree(h: seq<Byte>, g: seq<Byte>, lo: nat, hi: nat) {
    forall i :: lo <= i < hi ==> SameAt(h, g, i)
  }

  lemma SliceElements(h: seq<Byte>, g: seq<Byte>, lo: nat, hi: nat)
    requires lo <= hi <= |h| && hi <= |g| && g[lo..hi] == h[lo..hi]
    ensures Agree(h, g, lo, hi)
  {
    forall i | lo <= i < hi ensures SameAt(h, g, i) {
      assert g[lo..hi][i - lo] == h[lo..hi][i - lo];
    }
  }

  lemma FieldAgrees(h: seq<Byte>, g: seq<Byte>, lo: nat, pos: nat, field: nat, limit: nat)
    requires Agree(h, g, lo, limit) && lo <= pos && pos + FieldSize(h, pos, field) <= limit <= |h| && limit <= |g|
    ensures FieldSize(g, pos, field) == FieldSize(h, pos, field)
  {
    assert SameAt(h, g, pos);
    assert 2 <= FieldSize(h, pos, field) ==> SameAt(h, g, pos + 1);
  }

  lemma WalkWithin(h: seq<Byte>, pos: nat, field: nat, limit: nat) returns (next: nat)
    requires Walk(h, pos, field) == At(limit) && field < EXTENSIONS
    ensures next == pos + FieldSize(h, pos, field) <= limit && Walk(h, next, field + 1) == At(limit)
  {
    next := pos + FieldSize(h, pos, field);
    WalkAdvances(h, pos, field);
  }

  lemma {:induction false} WalkAgrees(h: seq<Byte>, g: seq<Byte>, lo: nat, pos: nat, field: nat, limit: nat)
    requires limit <= |h| && limit <= |g| && Agree(h, g, lo, limit) && lo <= pos
    requires Walk(h, pos, field) == At(limit)
    ensures Walk(g, pos, field) == At(limit)
    decreases EXTENSIONS - field
  {
    if field < EXTENSIONS {
      var next := WalkWithin(h, pos, field, limit);
      FieldAgrees(h, g, lo, pos, field, limit);
      WalkNext(g, pos, field, next);
      WalkAgrees(h, g, lo, next, field + 1, limit);
    }
  }

  /** Where the walk over an extension block stops, unless a server_name extension ends it. */
  function WalkStop(h: seq<Byte>, pos: nat, end: nat): (r: Option<nat>)
    requires end <= |h|
    ensures r.Some? && pos <= end ==> pos <= r.value <= end
    decreases end - pos
  {
    if pos + 4 > end then Some(pos)
    else
      var len := Word(h, pos + 2);
      if pos + 4 + len > end then Some(pos)
      else if Word(h, pos) == 0 then None
      else WalkStop(h, pos + 4 + len, end)
  }

  /** Bytes that agree have the same extension header. */
  lemma HeaderAgrees(h: seq<Byte>, g: seq<Byte>, pos: nat, at: nat)
    requires pos + 4 <= |h| && at + 4 <= |g| && h[pos..pos + 4] == g[at..at + 4]
    ensures Word(h, pos) == Word(g, at) && Word(h, pos + 2) == Word(g, at + 2)
  {
    var a, b := h[pos..pos + 4], g[at..at + 4];
    assert a[0] == h[pos] && a[1] == h[pos + 1] && a[2] == h[pos + 2] && a[3] == h[pos + 3];
    assert b[0] == g[at] && b[1] == g[at + 1] && b[2] == g[at + 2] && b[3] == g[at + 3];
  }

  lemma SliceAgrees(h: seq<Byte>, g: seq<Byte>, pos: nat, end: nat, lo: nat, hi: nat)
    requires pos <= lo <= hi <= end <= |h| && end <= |g| && Agree(h, g, pos, end)
    ensures h[lo..hi] == g[lo..hi]
  {
    forall i | lo <= i < hi ensures h[i] == g[i] {
      assert SameAt(h, g, i);
    }
  }

  /** In a longer block with the same front the walk finds the same, or goes on from where it stopped. */
  lemma {:induction false} WalkGoesOn(h: seq<Byte>, g: seq<Byte>, pos: nat, end: nat, longer: nat)
    requires pos <= end <= |h| && end <= longer <= |g| && Agree(h, g, pos, end)
    ensures match WalkStop(h, pos, end)
            case None => FindSni(g, pos, longer) == FindSni(h, pos, end)
            case Some(at) => FindSni(h, pos, end) == NO_SNI && FindSni(g, pos, longer) == FindSni(g, at, longer)
    decreases end - pos
  {
    if pos + 4 <= end {
      SliceAgrees(h, g, pos, end, pos, pos + 4);
      HeaderAgrees(h, g, pos, pos);
      var body, len := pos + 4, Word(h, pos + 2);
      if body + len <= end {
        if Word(h, pos) == 0 {
          SliceAgrees(h, g, pos, end, body, body + len);
        } else {
          WalkGoesOn(h, g, body + len, end, longer);
        }
      }
    }
  }

  /** No name is found, wherever the bytes lie. */
  lemma {:induction false} NoNameShift(g: seq<Byte>, at: nat, end: nat, tail: seq<Byte>, k: nat)
    requires at <= end <= |g| && tail == g[at..end] && k <= |tail|
    ensures FindSni(g, at + k, end) == NO_SNI <==> FindSni(tail, k, |tail|) == NO_SNI
    decreases |tail| - k
  {
    if k + 4 <= |tail| {
      Window(g, at, end, k, k + 4);
      HeaderAgrees(tail, g, k, at + k);
      var body, len := k + 4, Word(tail, k + 2);
      if body + len <= |tail| {
        if Word(tail, k) == 0 {
          Window(g, at, end, body, body + len);
          NoNameInSni(tail[body..body + len], 5 + at + body, 5 + body);
        } else {
          NoNameShift(g, at, end, tail, body + len);
        }
      }
    }
  }

  lemma NoNameInSni(ext: seq<Byte>, wire: nat, other: nat)
    ensures ParseSni(ext, wire) == NO_SNI <==> ParseSni(ext, other) == NO_SNI
  {
    NoNameInBody(ext, 2, wire, other);
  }

  lemma {:induction false} NoNameInBody(ext: seq<Byte>, pos: nat, wire: nat, other: nat)
    ensures FindName(ext, pos, wire) == NO_SNI <==> FindName(ext, pos, other) == NO_SNI
    decreases |ext| - pos
  {
    if pos + 3 <= |ext| {
      var next := pos + 3 + Word(ext, pos + 1);
      if next <= |ext| && ext[pos] != 0 {
        NoNameInBody(ext, next, wire, other);
      }
    }
  }

  /** The bytes the walk over an extension block leaves over, followed by `pad`, hold no name. */
  predicate Harmless(block: seq<Byte>, pad: seq<Byte>) {
    match WalkStop(block, 0, |block|)
    case None => true
    case Some(at) => NoName(block[at..] + pad)
  }

  predicate NoName(block: seq<Byte>) {
    FindSni(block, 0, |block|) == NO_SNI
  }

  lemma {:induction false} StopShift(h: seq<Byte>, start: nat, end: nat, block: seq<Byte>, k: nat)
    requires start <= end <= |h| && block == h[start..end] && k <= |block|
    ensures WalkStop(h, start + k, end) ==
            if WalkStop(block, k, |block|).None? then None else Some(start + WalkStop(block, k, |block|).value)
    decreases |block| - k
  {
    if k + 4 <= |block| {
      Window(h, start, end, k, k + 4);
      HeaderAgrees(block, h, k, start + k);
      var next := k + 4 + Word(block, k + 2);
      if next <= |block| && Word(block, k) != 0 {
        StopShift(h, start, end, block, next);
      }
    }
  }

  /** The walk stopped at `at`: what follows is harmless exactly when no name is found from there on. */
  lemma {:induction false} StoppedBlock(
      h: seq<Byte>, g: seq<Byte>, start: nat, at: nat, end: nat, longer: nat, block: seq<Byte>, pad: seq<Byte>)
    requires start <= end <= longer <= |g| && end <= |h| && block == h[start..end] && g[end..longer] == pad
    requires Agree(h, g, start, end) && WalkStop(h, start, end) == Some(at)
    ensures FindSni(g, at, longer) == NO_SNI <==> Harmless(block, pad)
  {
    StopShift(h, start, end, block, 0);
    LeftOver(h, g, start, at, end, longer, pad);
  }

  lemma UnstoppedBlock(h: seq<Byte>, start: nat, end: nat, block: seq<Byte>, pad: seq<Byte>)
    requires start <= end <= |h| && block == h[start..end] && WalkStop(h, start, end) == None
    ensures Harmless(block, pad)
  {
    StopShift(h, start, end, block, 0);
  }

  /** What a longer block makes of the extension walk. */
  lemma LongerBlock(
      h: seq<Byte>, g: seq<Byte>, start: nat, end: nat, longer: nat, block: seq<Byte>, pad: seq<Byte>)
    requires start <= end <= longer <= |g| && end <= |h| && block == h[start..end] && g[end..longer] == pad
    requires Agree(h, g, start, end)
    ensures FindSni(h, start, end).HasSni() ==> FindSni(g, start, longer) == FindSni(h, start, end)
    ensures FindSni(h, start, end) == NO_SNI ==> (FindSni(g, start, longer) == NO_SNI <==> Harmless(block, pad))
    ensures FindSni(g, start, longer).Complete?
  {
    FindSniCompletes(g, start, longer);
    WalkGoesOn(h, g, start, end, longer);
    match WalkStop(h, start, end) {
      case Some(at) => StoppedBlock(h, g, start, at, end, longer, block, pad);
      case None => UnstoppedBlock(h, start, end, block, pad);
    }
  }

  lemma LeftOver(
      h: seq<Byte>, g: seq<Byte>, start: nat, at: nat, end: nat, longer: nat, pad: seq<Byte>)
    requires start <= at <= end <= longer <= |g| && end <= |h| && g[end..longer] == pad
    requires Agree(h, g, start, end)
    ensures FindSni(g, at, longer) == NO_SNI <==> NoName(h[start..end][at - start..] + pad)
  {
    TailOf(h, g, at, end, longer, pad);
    assert h[start..end][at - start..] == h[at..end];
    NoNameShift(g, at, longer, h[at..end] + pad, 0);
  }

  lemma TailOf(h: seq<Byte>, g: seq<Byte>, at: nat, end: nat, longer: nat, pad: seq<Byte>)
    requires at <= end <= longer <= |g| && end <= |h| && g[end..longer] == pad && Agree(h, g, at, end)
    ensures g[at..longer] == h[at..end] + pad
  {
    SliceAgrees(h, g, at, end, at, end);
    assert g[at..longer] == g[at..end] + g[end..longer];
  }

  lemma WalkOfPadded(h: seq<Byte>, g: seq<Byte>, pos: nat)
    requires 4 <= pos <= |h| <= |g| && g[4..pos] == h[4..pos] && HelloEnd(h) == At(pos)
    ensures HelloEnd(g) == At(pos)
  {
    SliceElements(h, g, 4, pos);
    WalkAgrees(h, g, 4, 4, VERSION, pos);
  }

  /** The verdict on a hello whose walk and extension block are known. */
  lemma VerdictFrom(g: seq<Byte>, pos: nat, end: nat)
    requires |g| >= 4 && g[0] == CLIENT_HELLO && MessageLen(g) <= |g| && HelloEnd(g) == At(pos)
    requires pos + 2 + U16At(g, pos) == end && pos + 2 <= end <= |g|
    ensures ParseHandshake(g) == FindSni(g, pos + 2, end)
  {
  }

  /** The verdict on `g` keeps that on `h`; without a name it does as far as the leftover is harmless. */
  predicate HandshakePadded(h: seq<Byte>, g: seq<Byte>, block: seq<Byte>, pad: seq<Byte>) {
    && (ParseHandshake(h).HasSni() ==> ParseHandshake(g) == ParseHandshake(h))
    && (ParseHandshake(h) == NO_SNI ==> (ParseHandshake(g) == NO_SNI <==> Harmless(block, pad)))
    && ParseHandshake(g).Complete?
  }

  /** Both verdicts are those of the extension walks, the lengths having grown by `n`. */
  lemma BothFind(h: seq<Byte>, g: seq<Byte>, pos: nat, end: nat, n: nat)
    requires 4 <= pos && pos + 2 <= end <= |h| && |g| == |h| + n && g[0] == h[0]
    requires Word24(g, 1) == Word24(h, 1) + n
    requires pos + 2 + U16At(h, pos) == end && pos + 2 + U16At(g, pos) == end + n
    requires ParseHandshake(h).Complete? && HelloEnd(h) == At(pos) && HelloEnd(g) == At(pos)
    ensures ParseHandshake(h) == FindSni(h, pos + 2, end) && ParseHandshake(g) == FindSni(g, pos + 2, end + n)
  {
    VerdictFrom(h, pos, end);
    VerdictFrom(g, pos, end + n);
  }

  /** What padding makes of a whole handshake. */
  lemma PaddedVerdict(h: seq<Byte>, g: seq<Byte>, pos: nat, end: nat, pad: seq<Byte>)
    requires PaddedHandshake(h, g, pos, end, pad) && ParseHandshake(h).Complete? && HelloEnd(h) == At(pos)
    ensures HandshakePadded(h, g, h[pos + 2..end], pad)
  {
    WalkOfPadded(h, g, pos);
    BothFind(h, g, pos, end, |pad|);
    VerdictOfBlocks(h, g, pos + 2, end, end + |pad|, h[pos + 2..end], pad);
  }

  lemma VerdictOfBlocks(
      h: seq<Byte>, g: seq<Byte>, start: nat, end: nat, longer: nat, block: seq<Byte>, pad: seq<Byte>)
    requires start <= end <= longer <= |g| && end <= |h| && g[start..end] == h[start..end] == block && g[end..longer] == pad
    requires ParseHandshake(h) == FindSni(h, start, end) && ParseHandshake(g) == FindSni(g, start, longer)
    ensures HandshakePadded(h, g, block, pad)
  {
    SliceElements(h, g, start, end);
    LongerBlock(h, g, start, end, longer, block, pad);
  }

  // ---------- The padded payload ----------

  /** The plan grows the three lengths of a payload with handshake `h` by `n`, its block being in the first record. */
  predicate PlanMatches(p: seq<Byte>, x: Plan, h: seq<Byte>, n: nat) {
    && |p| >= 9 && 9 <= x.blockPos && HelloEnd(h) == At(x.blockPos - 5)
    && x.end == x.blockPos + 2 + U16At(h, x.blockPos - 5) && x.end <= 5 + FirstRecordLen(p) <= |p|
    && x.record == FirstRecordLen(p) + n < 0x1_0000 && x.extensions == U16At(h, x.blockPos - 5) + n < 0x1_0000
    && x.handshake == Word24(p, 6) + n < 0x100_0000
  }

  /** A slice of the handshake is a slice of the payload, five places further on. */
  lemma InHandshake(p: seq<Byte>, n: nat, h: seq<Byte>, lo: nat, hi: nat)
    requires 5 + n <= |p| && p[5..5 + n] <= h && lo <= hi <= n
    ensures hi <= |h| && h[lo..hi] == p[5 + lo..5 + hi]
  {
    PrefixSlice(p[5..5 + n], h, lo, hi);
    Window(p, 5, 5 + n, lo, hi);
  }

  lemma ByteInHandshake(p: seq<Byte>, n: nat, h: seq<Byte>, i: nat)
    requires 5 + n <= |p| && p[5..5 + n] <= h && i < n
    ensures h[i] == p[5 + i]
  {
    assert h[i] == p[5..5 + n][i];
  }

  lemma LengthsInHandshake(p: seq<Byte>, n: nat, h: seq<Byte>, pos: nat)
    requires 5 + n <= |p| && p[5..5 + n] <= h && 4 <= pos && pos + 2 <= n
    ensures h[0] == p[5] && Word24(h, 1) == Word24(p, 6) && U16At(h, pos) == U16At(p, 5 + pos)
  {
    ByteInHandshake(p, n, h, 0);
    ByteInHandshake(p, n, h, 1);
    ByteInHandshake(p, n, h, 2);
    ByteInHandshake(p, n, h, 3);
    ByteInHandshake(p, n, h, pos);
    ByteInHandshake(p, n, h, pos + 1);
  }

  /** The handshakes the two payloads carry. */
  lemma HandshakeOfPadded(
      p: seq<Byte>, q: seq<Byte>, x: Plan, pad: seq<Byte>, h: seq<Byte>, g: seq<Byte>, n: nat, pos: nat, end: nat)
    requires PlanMatches(p, x, h, |pad|) && Sane(p, x) && PaddedFront(p, q, x, pad)
    requires n == FirstRecordLen(p) && p[5..5 + n] <= h && q[5..5 + (n + |pad|)] <= g && |g| == |h| + |pad|
    requires pos == x.blockPos - 5 && end == x.end - 5
    ensures PaddedHandshake(h, g, pos, end, pad)
  {
    LengthsInHandshake(p, n, h, pos);
    LengthsInHandshake(q, n + |pad|, g, pos);
    SameSlice(p, q, n, n + |pad|, h, g, 4, pos);
    SameSlice(p, q, n, n + |pad|, h, g, pos + 2, end);
    InHandshake(q, n + |pad|, g, end, end + |pad|);
  }

  /** What the payloads have in common the handshakes have. */
  lemma SameSlice(
      p: seq<Byte>, q: seq<Byte>, n: nat, m: nat, h: seq<Byte>, g: seq<Byte>, lo: nat, hi: nat)
    requires 5 + n <= |p| && p[5..5 + n] <= h && 5 + m <= |q| && q[5..5 + m] <= g && lo <= hi <= n && hi <= m
    requires q[5 + lo..5 + hi] == p[5 + lo..5 + hi]
    ensures hi <= |h| && hi <= |g| && g[lo..hi] == h[lo..hi]
  {
    InHandshake(p, n, h, lo, hi);
    InHandshake(q, m, g, lo, hi);
  }

  /** The verdict on a buffer, by its first header and what is gathered. */
  lemma ParseFrom(q: seq<Byte>, n: nat, g: seq<Byte>)
    requires HeaderAt(q, 0) && FirstRecordLen(q) == n && 0 < n && 5 + n <= |q| && Gather(q, 5 + n, q[5..5 + n]) == Whole(g)
    ensures Parse(q) == if n > MAX_TLS_RECORD then NotTls else ParseHandshake(g)
  {
  }

  lemma SuffixShifts(p: seq<Byte>, q: seq<Byte>, from: nat, end: nat, n: nat)
    requires from <= end <= |p| && from + n <= |q| && q[from + n..] == p[from..]
    ensures Shifted(p, end, q, n)
  {
    forall i | end <= i < |p| ensures i + n < |q| && p[i] == q[i + n] {
      assert p[from..][i - from] == q[from + n..][i - from];
    }
  }

  /** What the server gathers from a padded payload. */
  lemma GatheredFromPadded(p: seq<Byte>, q: seq<Byte>, from: nat, end: nat, n: nat, h: seq<Byte>)
    requires 5 <= from <= end <= |p| && from + n <= |q| && q[from + n..] == p[from..]
    requires Gather(p, end, p[5..end]) == Whole(h)
    ensures p[5..end] <= h && end + n <= |q| && |q| == |p| + n
    ensures Gather(q, end + n, q[5..end + n]) == Whole(q[5..end + n] + h[end - 5..])
  {
    SuffixShifts(p, q, from, end, n);
    GatherShift(p, end, p[5..end], q, n, q[5..end + n]);
  }

  /** The block behind the length field at `blockPos`. */
  function BlockAt(p: seq<Byte>, x: Plan): seq<Byte>
    requires Sane(p, x)
  {
    p[x.blockPos + 2..x.end]
  }

  lemma PaddedFromFront(
      p: seq<Byte>, q: seq<Byte>, x: Plan, pad: seq<Byte>, h: seq<Byte>, g: seq<Byte>, pos: nat, end: nat)
    requires PlanMatches(p, x, h, |pad|) && Sane(p, x) && PaddedFront(p, q, x, pad)
    requires p[5..5 + FirstRecordLen(p)] <= h && |q| >= 5 + x.record && q[5..5 + x.record] <= g && |g| == |h| + |pad|
    requires pos == x.blockPos - 5 && end == x.end - 5
    ensures PaddedHandshake(h, g, pos, end, pad) && h[pos + 2..end] == BlockAt(p, x)
  {
    HandshakeOfPadded(p, q, x, pad, h, g, FirstRecordLen(p), pos, end);
    InHandshake(p, FirstRecordLen(p), h, pos + 2, end);
  }

  /** What padding makes of the verdict on the handshake. */
  lemma FrontVerdict(
      p: seq<Byte>, q: seq<Byte>, x: Plan, pad: seq<Byte>, h: seq<Byte>, g: seq<Byte>, pos: nat, end: nat)
    requires PlanMatches(p, x, h, |pad|) && Sane(p, x) && PaddedFront(p, q, x, pad) && ParseHandshake(h).Complete?
    requires p[5..5 + FirstRecordLen(p)] <= h && |q| >= 5 + x.record && q[5..5 + x.record] <= g && |g| == |h| + |pad|
    requires pos == x.blockPos - 5 && end == x.end - 5
    ensures HandshakePadded(h, g, BlockAt(p, x), pad)
  {
    PaddedFromFront(p, q, x, pad, h, g, pos, end);
    PaddedVerdict(h, g, pos, end, pad);
  }

  // ---------- Payloads of any content ----------

  /** The extension block the padding goes behind ends in the first record. */
  predicate BlockInFirstRecord(p: seq<Byte>, padLen: nat) {
    |p| >= 5 && PlanFor(p, padLen).Some? && PlanFor(p, padLen).value.end <= 5 + FirstRecordLen(p) <= |p|
  }

  /** Padding and parsing walk to the same extension block. */
  lemma SameBlock(p: seq<Byte>, padLen: nat, h: seq<Byte>)
    requires BlockInFirstRecord(p, padLen) && p[5..5 + FirstRecordLen(p)] <= h
    ensures PlanMatches(p, PlanFor(p, padLen).value, h, 4 + padLen)
  {
    BlockInBoth(p[5..], p[5..5 + FirstRecordLen(p)], h);
  }

  /** The walk through a prefix with the whole block finds the block of every longer buffer. */
  lemma BlockInBoth(whole: seq<Byte>, first: seq<Byte>, h: seq<Byte>)
    requires |whole| >= 38 && |first| >= 4 && first <= whole && first <= h && HelloEnd(whole).At?
    requires HelloEnd(whole).pos + 2 <= |first|
    ensures HelloEnd(h) == HelloEnd(whole) && U16At(h, HelloEnd(whole).pos) == U16At(whole, HelloEnd(whole).pos)
  {
    HelloEndPrefix(first, whole);
    HelloEndPrefix(first, h);
  }

  /** The handshake of a payload with a ClientHello. */
  lemma HandshakeOf(p: seq<Byte>) returns (h: seq<Byte>)
    requires Parse(p).Complete?
    ensures |p| >= 5 && HeaderAt(p, 0) && FirstRecordLen(p) > 0 && 5 + FirstRecordLen(p) <= |p|
    ensures Gather(p, 5 + FirstRecordLen(p), p[5..5 + FirstRecordLen(p)]) == Whole(h) && p[5..5 + FirstRecordLen(p)] <= h
    ensures Parse(p) == ParseHandshake(h)
  {
    CompleteHeader(p);
    var end := 5 + FirstRecordLen(p);
    h := Gather(p, end, p[5..end]).handshake;
    GatherBound(p, end, p[5..end]);
  }

  /** The handshake a padded payload carries, and its parse. */
  lemma AppliedParse(p: seq<Byte>, padLen: nat, x: Plan, h: seq<Byte>) returns (g: seq<Byte>)
    requires PlanMatches(p, x, h, 4 + padLen) && Sane(p, x) && HeaderAt(p, 0) && FirstRecordLen(p) > 0
    requires Gather(p, 5 + FirstRecordLen(p), p[5..5 + FirstRecordLen(p)]) == Whole(h)
    ensures |g| == |h| + 4 + padLen
    ensures |Applied(p, padLen, x)| >= 5 + x.record && Applied(p, padLen, x)[5..5 + x.record] <= g
    ensures Parse(Applied(p, padLen, x)) == if x.record > MAX_TLS_RECORD then NotTls else ParseHandshake(g)
  {
    var q, end := Applied(p, padLen, x), 5 + FirstRecordLen(p);
    AppliedTail(p, padLen, x);
    GatheredFromPadded(p, q, x.end, end, 4 + padLen, h);
    AppliedHeader(p, padLen, x);
    g := q[5..5 + x.record] + h[end - 5..];
    ParseFrom(q, x.record, g);
  }

  lemma AppliedVerdict(
      p: seq<Byte>, padLen: nat, q: seq<Byte>, x: Plan, pad: seq<Byte>, h: seq<Byte>, g: seq<Byte>)
    requires PlanMatches(p, x, h, 4 + padLen) && Sane(p, x) && q == Applied(p, padLen, x)
    requires pad == PrintExtension(PadExtension(padLen)) && |pad| == 4 + padLen && ParseHandshake(h).Complete?
    requires p[5..5 + FirstRecordLen(p)] <= h && |q| >= 5 + x.record && q[5..5 + x.record] <= g && |g| == |h| + |pad|
    ensures HandshakePadded(h, g, BlockAt(p, x), pad)
  {
    AppliedFront(p, padLen, x);
    FrontVerdict(p, q, x, pad, h, g, x.blockPos - 5, x.end - 5);
  }

  /** The verdict on the padded payload, by that on the handshake. */
  predicate ParsePadded(before: ParseStatus, q: seq<Byte>, record: nat, block: seq<Byte>, pad: seq<Byte>) {
    if record > MAX_TLS_RECORD then Parse(q) == NotTls
    else
      && (before.HasSni() ==> Parse(q) == before)
      && (before == NO_SNI ==> (Parse(q) == NO_SNI <==> Harmless(block, pad)))
      && Parse(q).Complete?
  }

  lemma PlannedParse(p: seq<Byte>, padLen: nat, x: Plan, pad: seq<Byte>, h: seq<Byte>)
    requires PlanMatches(p, x, h, 4 + padLen) && Sane(p, x) && HeaderAt(p, 0) && FirstRecordLen(p) > 0
    requires Gather(p, 5 + FirstRecordLen(p), p[5..5 + FirstRecordLen(p)]) == Whole(h)
    requires p[5..5 + FirstRecordLen(p)] <= h && ParseHandshake(h).Complete?
    requires pad == PrintExtension(PadExtension(padLen)) && |pad| == 4 + padLen
    ensures ParsePadded(ParseHandshake(h), Applied(p, padLen, x), x.record, BlockAt(p, x), pad)
  {
    var g := AppliedParse(p, padLen, x, h);
    AppliedVerdict(p, padLen, Applied(p, padLen, x), x, pad, h, g);
  }

  /** What padding makes of the verdict. */
  lemma PaddedParse(p: seq<Byte>, padLen: nat, x: Plan, pad: seq<Byte>)
    requires Parse(p).Complete? && BlockInFirstRecord(p, padLen) && PlanFor(p, padLen) == Some(x)
    requires pad == PrintExtension(PadExtension(padLen)) && |pad| == 4 + padLen
    ensures Padded(p, padLen) == Some(Applied(p, padLen, x)) && x.record == FirstRecordLen(p) + |pad|
    ensures ParsePadded(Parse(p), Applied(p, padLen, x), x.record, BlockAt(p, x), pad)
  {
    var h := HandshakeOf(p);
    SameBlock(p, padLen, h);
    PlannedParse(p, padLen, x, pad, h);
  }

  /**
   * Padding keeps the parse of every payload whose hello has a name and an extension block that ends in
   * the first record, whatever else is in the block, behind it or behind the record, exactly while the
   * record stays within the parser's limit.
   */
  lemma PaddingKeepsName(p: seq<Byte>, padLen: nat)
    requires Parse(p).HasSni() && BlockInFirstRecord(p, padLen)
    ensures Padded(p, padLen).Some?
    ensures Parse(Padded(p, padLen).value) ==
            if FirstRecordLen(p) + 4 + padLen <= MAX_TLS_RECORD then Parse(p) else NotTls
  {
    PaddedParse(p, padLen, PlanFor(p, padLen).value, PrintExtension(PadExtension(padLen)));
  }

  /** In particular for every payload that is one record. */
  lemma PaddingKeepsOneRecord(p: seq<Byte>, padLen: nat)
    requires Parse(p).HasSni() && |p| == 5 + U16At(p, 3) && Padded(p, padLen).Some?
    ensures Parse(Padded(p, padLen).value) ==
            if U16At(p, 3) + 4 + padLen <= MAX_TLS_RECORD then Parse(p) else NotTls
  {
    CompleteHeader(p);
    PaddingKeepsName(p, padLen);
  }

  /**
   * A hello without a name keeps none exactly when what its extension walk leaves over cannot be
   * completed to a name by the padding extension; otherwise the padded hello has a name.
   */
  lemma PaddingAndNoName(p: seq<Byte>, padLen: nat, x: Plan)
    requires Parse(p) == NO_SNI && BlockInFirstRecord(p, padLen) && PlanFor(p, padLen) == Some(x)
    requires FirstRecordLen(p) + 4 + padLen <= MAX_TLS_RECORD
    ensures Padded(p, padLen).Some? && Parse(Padded(p, padLen).value).Complete?
    ensures Parse(Padded(p, padLen).value) == NO_SNI <==> Harmless(BlockAt(p, x), PrintExtension(PadExtension(padLen)))
  {
    PaddedParse(p, padLen, x, PrintExtension(PadExtension(padLen)));
  }

  /** A list that ends where its last extension ends, or that has a server_name extension, is harmless. */
  lemma CleanListIsHarmless(block: seq<Byte>, padLen: nat)
    requires padLen < 0x1_0000
    requires WalkStop(block, 0, |block|) == None || WalkStop(block, 0, |block|) == Some(|block|)
    ensures Harmless(block, PrintExtension(PadExtension(padLen)))
  {
    var pad := PrintExtension(PadExtension(padLen));
    U16RoundTrip(PADDING);
    U16RoundTrip(padLen);
    assert pad[0] == U16Bytes(PADDING)[0] && pad[1] == U16Bytes(PADDING)[1];
    assert pad[2] == U16Bytes(padLen)[0] && pad[3] == U16Bytes(padLen)[1];
    assert NoName(pad);
    assert block[|block|..] + pad == pad;
  }

  /** A server_name extension of nine bytes, cut off after five of them. */
  const CUT_NAME: seq<Byte> := [0, 0, 0, 9, 0, 7, 0, 0, 4]

  /** A one-record hello whose extension block ends in a header that overruns it. */
  function CutHello(): (p: seq<Byte>)
    ensures |p| == 58
  {
    [22, 3, 1, 0, 53, 1, 0, 0, 49, 3, 3] + Zeros(32) + [0, 0, 0, 0, 0, 9] + CUT_NAME
  }

  /** An input without a name that gets one from the smallest padding. */
  lemma PaddingMakesName()
    ensures Parse(CutHello()) == NO_SNI && |CutHello()| == 5 + U16At(CutHello(), 3)
    ensures Padded(CutHello(), 0).Some? && Parse(Padded(CutHello(), 0).value).HasSni()
  {
    CutHelloPlan(CutHello());
    CutBlockGetsName(CutHello(), Plan(47, 58, 57, 53, 13));
  }

  lemma CutBlockGetsName(p: seq<Byte>, x: Plan)
    requires |p| == 58 && U16At(p, 3) == 53 && Parse(p) == NO_SNI && PlanFor(p, 0) == Some(x) && BlockAt(p, x) == CUT_NAME
    ensures Padded(p, 0).Some? && Parse(Padded(p, 0).value).HasSni()
  {
    CutNameCompleted();
    PaddingAndNoName(p, 0, x);
    CompleteIsNamed(Padded(p, 0).value);
  }

  /** A complete parse has a name or is the one verdict without. */
  lemma CompleteIsNamed(q: seq<Byte>)
    requires Parse(q).Complete? && Parse(q) != NO_SNI
    ensures Parse(q).HasSni()
  {
    var h := HandshakeOf(q);
    NamedVerdict(h);
  }

  lemma NamedVerdict(h: seq<Byte>)
    requires ParseHandshake(h).Complete?
    ensures ParseHandshake(h) == NO_SNI || ParseHandshake(h).HasSni()
  {
    MessageEnd.BlockVerdict(h, HelloEnd(h).pos);
    if HelloEnd(h).pos + 2 <= |h| {
      FoundOrNot(h, HelloEnd(h).pos + 2, HelloEnd(h).pos + 2 + U16At(h, HelloEnd(h).pos));
    }
  }

  lemma {:induction false} FoundOrNot(h: seq<Byte>, pos: nat, end: nat)
    requires end <= |h|
    ensures FindSni(h, pos, end) == NO_SNI || FindSni(h, pos, end).HasSni()
    decreases end - pos
  {
    if pos + 4 <= end {
      var body, len := pos + 4, Word(h, pos + 2);
      if body + len <= end {
        if Word(h, pos) == 0 {
          NamedOrNot(h[body..body + len], 2, 5 + body);
        } else {
          FoundOrNot(h, body + len, end);
        }
      }
    }
  }

  lemma {:induction false} NamedOrNot(ext: seq<Byte>, pos: nat, wire: nat)
    ensures FindName(ext, pos, wire) == NO_SNI || FindName(ext, pos, wire).HasSni()
    decreases |ext| - pos
  {
    if pos + 3 <= |ext| && pos + 3 + Word(ext, pos + 1) <= |ext| {
      NamedOrNot(ext, pos + 3 + Word(ext, pos + 1), wire);
    }
  }

  lemma CutHelloPlan(p: seq<Byte>)
    requires p == CutHello()
    ensures |p| == 58 && U16At(p, 3) == 53 && Parse(p) == NO_SNI && PlanFor(p, 0) == Some(Plan(47, 58, 57, 53, 13))
    ensures p[49..58] == CUT_NAME
  {
    assert p[5..58] == p[5..];
    CutHandshake(p, p[5..]);
    ParseFrom(p, 53, p[5..]);
  }

  lemma CutHandshake(p: seq<Byte>, h: seq<Byte>)
    requires p == CutHello() && h == p[5..]
    ensures HelloEnd(h) == At(42) && U16At(h, 42) == 9 && ParseHandshake(h) == NO_SNI
  {
    MessageEnd.BareWalk(h);
    assert h[42] == p[47] && h[43] == p[48] && h[44] == p[49] && h[45] == p[50] && h[46] == p[51] && h[47] == p[52];
    assert ParseHandshake(h) == FindSni(h, 44, 53) == NO_SNI;
  }

  lemma CutNameCompleted()
    ensures !Harmless(CUT_NAME, PrintExtension(PadExtension(0)))
  {
    var pad := PrintExtension(PadExtension(0));
    assert U16Bytes(PADDING) == [0, 21] && U16Bytes(0) == [0, 0] && Zeros(0) == [];
    var tail := CUT_NAME[0..] + pad;
    assert tail == [0, 0, 0, 9, 0, 7, 0, 0, 4, 0, 21, 0, 0];
    var body := tail[4..13];
    assert body == [0, 7, 0, 0, 4, 0, 21, 0, 0];
    assert ParseSni(body, 9).HasSni();
  }
}
