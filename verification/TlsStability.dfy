/** What more input can and cannot change about the parser's verdict. */
module TlsStability {
  import opened Bytes
  import opened TlsParser

  // ---------- The handshake ----------

  lemma FieldPrefix(h: seq<Byte>, g: seq<Byte>, pos: nat, field: nat)
    requires h <= g && pos <= |h|
    ensures FieldSize(h, pos, field) <= FieldSize(g, pos, field)
    ensures pos + FieldSize(h, pos, field) <= |h| ==> FieldSize(g, pos, field) == FieldSize(h, pos, field)
    ensures pos + FieldSize(h, pos, field) > |g| ==> FieldSize(g, pos, field) == FieldSize(h, pos, field)
    ensures pos + FieldSize(h, pos, field) > |h| ==> pos + FieldSize(g, pos, field) > |h|
  {
  }

  /** The walks over `n` bytes and over `m` bytes that start with them. */
  predicate WalksAgree(c: Cursor, d: Cursor, n: nat, m: nat) {
    && (c.At? ==> d == c && c.pos <= n)
    && (c.Short? ==> c.needed > 5 + n)
    && (c.Short? && 5 + m < c.needed ==> d == c)
    && (d.At? && d.pos <= n ==> c == d)
  }

  lemma {:induction false} WalkPrefix(h: seq<Byte>, g: seq<Byte>, pos: nat, field: nat)
    requires h <= g && pos <= |h|
    ensures WalksAgree(Walk(h, pos, field), Walk(g, pos, field), |h|, |g|)
    decreases 5 - field
  {
    if field < EXTENSIONS {
      var next := pos + FieldSize(h, pos, field);
      if next <= |h| {
        FieldPrefix(h, g, pos, field);
        WalkNext(h, pos, field, next);
        WalkNext(g, pos, field, next);
        WalkPrefix(h, g, next, field + 1);
      } else {
        WalkStops(h, g, pos, field);
      }
    }
  }

  lemma WalkNext(h: seq<Byte>, pos: nat, field: nat, next: nat)
    requires field < EXTENSIONS && next == pos + FieldSize(h, pos, field) <= |h|
    ensures Walk(h, pos, field) == Walk(h, next, field + 1)
  {
  }

  lemma WalkStops(h: seq<Byte>, g: seq<Byte>, pos: nat, field: nat)
    requires h <= g && pos <= |h| && field < EXTENSIONS && pos + FieldSize(h, pos, field) > |h|
    ensures WalksAgree(Walk(h, pos, field), Walk(g, pos, field), |h|, |g|)
  {
    FieldPrefix(h, g, pos, field);
    WalkAdvances(g, pos, field);
  }

  lemma {:induction false} WalkAdvances(g: seq<Byte>, pos: nat, field: nat)
    ensures Walk(g, pos, field).At? ==> Walk(g, pos, field).pos >= pos
    ensures Walk(g, pos, field).At? && field < EXTENSIONS ==> Walk(g, pos, field).pos >= pos + FieldSize(g, pos, field)
    decreases 5 - field
  {
    if field < EXTENSIONS {
      WalkAdvances(g, pos + FieldSize(g, pos, field), field + 1);
    }
  }

  lemma HelloEndPrefix(h: seq<Byte>, g: seq<Byte>)
    requires h <= g && |h| >= 4
    ensures HelloEnd(h).At? ==> HelloEnd(g) == HelloEnd(h) && HelloEnd(h).pos <= |h|
    ensures HelloEnd(h).Short? ==> HelloEnd(h).needed > 5 + |h|
    ensures HelloEnd(h).Short? && 5 + |g| < HelloEnd(h).needed ==> HelloEnd(g) == HelloEnd(h)
    ensures HelloEnd(g).At? && HelloEnd(g).pos <= |h| ==> HelloEnd(h) == HelloEnd(g)
  {
    WalkPrefix(h, g, 4, VERSION);
  }

  lemma {:induction false} FindSniPrefix(h: seq<Byte>, g: seq<Byte>, pos: nat, end: nat)
    requires h <= g && end <= |h|
    ensures FindSni(h, pos, end) == FindSni(g, pos, end)
    decreases end - pos
  {
    if pos + 4 <= end {
      var body, len := pos + 4, Word(h, pos + 2);
      if body + len <= end {
        assert h[body..body + len] == g[body..body + len];
        FindSniPrefix(h, g, body + len, end);
      }
    }
  }

  lemma ExtensionsPrefix(h: seq<Byte>, g: seq<Byte>, pos: nat)
    requires h <= g
    ensures ParseExtensions(h, pos).NeedMore? && 5 + |g| < ParseExtensions(h, pos).needed ==>
              ParseExtensions(g, pos) == ParseExtensions(h, pos)
    ensures pos + 2 <= |h| && !ParseExtensions(h, pos).NeedMore? ==> ParseExtensions(g, pos) == ParseExtensions(h, pos)
    ensures ParseExtensions(h, pos) != NotTls && (ParseExtensions(h, pos).HasSni() ==> pos + 2 <= |h|)
  {
    if pos + 2 <= |h| {
      var end := pos + 2 + Word(h, pos);
      if end <= |h| {
        FindSniPrefix(h, g, pos + 2, end);
        FindSniCompletes(h, pos + 2, end);
      }
    }
  }

  lemma {:induction false} FindSniCompletes(h: seq<Byte>, pos: nat, end: nat)
    requires end <= |h|
    ensures FindSni(h, pos, end).Complete?
    decreases end - pos
  {
    if pos + 4 <= end {
      var body, len := pos + 4, Word(h, pos + 2);
      if body + len <= end {
        FindNameCompletes(h[body..body + len], 2, 5 + body);
        FindSniCompletes(h, body + len, end);
      }
    }
  }

  lemma {:induction false} FindNameCompletes(ext: seq<Byte>, pos: nat, wire: nat)
    ensures FindName(ext, pos, wire).Complete?
    decreases |ext| - pos
  {
    if pos + 3 <= |ext| {
      var next := pos + 3 + Word(ext, pos + 1);
      if next <= |ext| {
        FindNameCompletes(ext, next, wire);
      }
    }
  }

  /** Every verdict on a handshake except a missing SNI survives more handshake bytes. */
  lemma HandshakePrefix(h: seq<Byte>, g: seq<Byte>)
    requires h <= g
    ensures |h| > 0 && ParseHandshake(h) == NotTls ==> ParseHandshake(g) == NotTls
    ensures ParseHandshake(h).NeedMore? && 5 + |g| < ParseHandshake(h).needed ==> ParseHandshake(g) == ParseHandshake(h)
    ensures ParseHandshake(h).HasSni() ==> ParseHandshake(g) == ParseHandshake(h)
  {
    if |h| >= 4 && |h| >= MessageLen(h) {
      HelloEndPrefix(h, g);
      if HelloEnd(h).At? {
        ExtensionsPrefix(h, g, HelloEnd(h).pos);
      }
    }
  }

  predicate HasExtensions(h: seq<Byte>) {
    |h| >= 4 && HelloEnd(h).At? && HelloEnd(h).pos + 2 <= |h|
  }

  /** How many handshake bytes the message and its extension block claim. */
  function Extent(h: seq<Byte>): nat
    requires HasExtensions(h)
  {
    var end := HelloEnd(h).pos + 2 + U16At(h, HelloEnd(h).pos);
    if end < MessageLen(h) then MessageLen(h) else end
  }

  /** A prefix of a hello with SNI parses the same exactly when it covers the hello's extent. */
  lemma TruncationExact(h: seq<Byte>, g: seq<Byte>)
    requires h <= g && ParseHandshake(g).HasSni()
    ensures HasExtensions(g) && Extent(g) <= |g|
    ensures ParseHandshake(h) == ParseHandshake(g) <==> Extent(g) <= |h|
  {
    var pos := HelloEnd(g).pos;
    ExtensionsPrefix(g, g, pos);
    ExtensionsPrefix(h, g, pos);
    ExtensionsReach(g, pos);
    if |h| >= 4 {
      HelloEndPrefix(h, g);
      ExtensionsReach(h, pos);
    }
  }

  lemma ExtensionsReach(h: seq<Byte>, pos: nat)
    ensures pos + 2 <= |h| ==> (ParseExtensions(h, pos).NeedMore? <==> pos + 2 + U16At(h, pos) > |h|)
  {
    if pos + 2 <= |h| && pos + 2 + U16At(h, pos) <= |h| {
      FindSniCompletes(h, pos + 2, pos + 2 + U16At(h, pos));
    }
  }

  lemma BlockStillToCome(h: seq<Byte>, g: seq<Byte>)
    requires h <= g && |g| == |h| + 2 && g[|h|] == 255 && g[|h| + 1] == 255
    requires ParseHandshake(h) == NO_SNI && !HasExtensions(h)
    ensures ParseHandshake(g).NeedMore?
  {
    HelloEndPrefix(h, g);
    var pos := HelloEnd(h).pos;
    assert pos <= |h| < pos + 2;
    assert Word(g, pos) >= 255;
    assert ParseExtensions(g, pos).NeedMore?;
  }

  lemma BlockAlreadyThere(h: seq<Byte>, g: seq<Byte>)
    requires h <= g && ParseHandshake(h) == NO_SNI && HasExtensions(h)
    ensures ParseHandshake(g) == NO_SNI
  {
    HelloEndPrefix(h, g);
    ExtensionsPrefix(h, g, HelloEnd(h).pos);
  }

  /** "No SNI" is final exactly when the extension block is really there. */
  lemma MissingSniIsFinal(h: seq<Byte>)
    requires ParseHandshake(h) == NO_SNI
    ensures HasExtensions(h) <==> forall g | h <= g :: ParseHandshake(g) == NO_SNI
  {
    if HasExtensions(h) {
      forall g | h <= g
        ensures ParseHandshake(g) == NO_SNI
      {
        BlockAlreadyThere(h, g);
      }
    } else {
      var g := h + [255, 255];
      BlockStillToCome(h, g);
      assert h <= g;
    }
  }

  // ---------- The record layer ----------

  lemma {:induction false} GatherBound(d: seq<Byte>, pos: nat, acc: seq<Byte>)
    requires pos <= |d|
    ensures Gather(d, pos, acc).Whole? ==>
              acc <= Gather(d, pos, acc).handshake && |Gather(d, pos, acc).handshake| - |acc| <= |d| - pos
    ensures Gather(d, pos, acc).Cut? ==> Gather(d, pos, acc).needed > |d|
    decreases |d| - pos
  {
    if HeaderAt(d, pos) {
      var end := pos + 5 + Word(d, pos + 3);
      if end <= |d| {
        GatherBound(d, end, acc + d[pos + 5..end]);
      }
    }
  }

  lemma {:induction false} GatherPrefix(d: seq<Byte>, x: seq<Byte>, pos: nat, acc: seq<Byte>)
    requires d <= x && pos <= |d|
    ensures var r := Gather(d, pos, acc);
            if r.Cut? then |x| < r.needed ==> Gather(x, pos, acc) == r
            else Gather(x, pos, acc).Cut? || r.handshake <= Gather(x, pos, acc).handshake
    decreases |d| - pos
  {
    if HeaderAt(d, pos) {
      var end := pos + 5 + Word(d, pos + 3);
      if end <= |d| {
        assert d[pos + 5..end] == x[pos + 5..end];
        GatherPrefix(d, x, end, acc + d[pos + 5..end]);
      }
    } else {
      GatherBound(x, pos, acc);
    }
  }

  /** The bytes of `d` from `pos` on are those of `x`, `shift` places further on. */
  predicate Shifted(d: seq<Byte>, pos: nat, x: seq<Byte>, shift: int) {
    |x| == |d| + shift && 0 <= pos + shift && forall i :: pos <= i < |d| ==> d[i] == x[i + shift]
  }

  /** What is gathered depends only on the bytes from the start on. */
  lemma {:induction false} GatherShift(d: seq<Byte>, pos: nat, a: seq<Byte>, x: seq<Byte>, shift: int, b: seq<Byte>)
    requires pos <= |d| && Shifted(d, pos, x, shift) && Gather(d, pos, a).Whole?
    ensures a <= Gather(d, pos, a).handshake
    ensures Gather(x, pos + shift, b) == Whole(b + Gather(d, pos, a).handshake[|a|..])
    decreases |d| - pos
  {
    HeaderShifts(d, pos, x, shift);
    if HeaderAt(d, pos) {
      var end := pos + 5 + Word(d, pos + 3);
      var body := d[pos + 5..end];
      SliceShifts(d, pos, x, shift, pos + 5, end);
      GatherShift(d, end, a + body, x, shift, b + body);
      Regroup(Gather(d, pos, a).handshake, a, b, body);
    }
  }

  lemma HeaderShifts(d: seq<Byte>, pos: nat, x: seq<Byte>, shift: int)
    requires pos <= |d| && Shifted(d, pos, x, shift)
    ensures HeaderAt(d, pos) == HeaderAt(x, pos + shift)
    ensures pos + 5 <= |d| ==> Word(d, pos + 3) == Word(x, pos + shift + 3)
  {
  }

  lemma SliceShifts(d: seq<Byte>, pos: nat, x: seq<Byte>, shift: int, lo: nat, hi: nat)
    requires Shifted(d, pos, x, shift) && pos <= lo <= hi <= |d|
    ensures x[lo + shift..hi + shift] == d[lo..hi]
  {
  }

  lemma Regroup(h: seq<Byte>, a: seq<Byte>, b: seq<Byte>, body: seq<Byte>)
    requires a + body <= h
    ensures a <= h && b + body + h[|a + body|..] == b + h[|a|..]
  {
    SplitTail(h, a, body);
    Assoc(b, body, h[|a + body|..]);
  }

  lemma SplitTail(h: seq<Byte>, a: seq<Byte>, body: seq<Byte>)
    requires a + body <= h
    ensures a <= h && h[|a|..] == body + h[|a + body|..]
  {
  }

  /** Past a complete first record, both buffers reach the handshake parser or ask for more. */
  lemma ParsePrefix(d: seq<Byte>, x: seq<Byte>)
    requires d <= x && |d| >= 5 && FirstHeaderOk(d) && 5 + FirstRecordLen(d) <= |d|
    ensures var end := 5 + FirstRecordLen(d);
            var r, s := Gather(d, end, d[5..end]), Gather(x, end, d[5..end]);
            && Parse(d) == (if r.Cut? then NeedMore(r.needed) else ParseHandshake(r.handshake))
            && Parse(x) == (if s.Cut? then NeedMore(s.needed) else ParseHandshake(s.handshake))
            && (r.Cut? && |x| < r.needed ==> s == r)
            && (s.Cut? ==> s.needed > |x|)
            && (r.Whole? ==> |r.handshake| > 0)
            && (r.Whole? && s.Whole? ==> r.handshake <= s.handshake && 5 + |s.handshake| <= |x|)
  {
    var end := 5 + FirstRecordLen(d);
    SameRecord(d, x, end, d[5..end]);
    GatherBound(d, end, d[5..end]);
    GatherBound(x, end, d[5..end]);
    GatherPrefix(d, x, end, d[5..end]);
  }

  lemma SameRecord(d: seq<Byte>, x: seq<Byte>, end: nat, body: seq<Byte>)
    requires d <= x && |d| >= 5 && FirstHeaderOk(d) && end == 5 + FirstRecordLen(d) <= |d| && body == d[5..end]
    ensures Parse(d) == Judge(Gather(d, end, body)) && Parse(x) == Judge(Gather(x, end, body))
  {
    assert body == x[5..end] && FirstHeaderOk(x) && FirstRecordLen(x) == FirstRecordLen(d);
  }

  lemma CompleteHeader(d: seq<Byte>)
    requires Parse(d).Complete?
    ensures |d| >= 5 && FirstHeaderOk(d) && 5 + FirstRecordLen(d) <= |d|
    ensures Gather(d, 5 + FirstRecordLen(d), d[5..5 + FirstRecordLen(d)]).Whole?
  {
  }

  /** `NeedMore(n)` is a sound lower bound: nothing shorter than `n` bytes completes. */
  lemma NeedMoreIsLowerBound(d: seq<Byte>, x: seq<Byte>)
    requires d <= x && Parse(d).NeedMore? && |x| < Parse(d).needed
    ensures Parse(x).NeedMore?
  {
    if |d| >= 5 && 5 + FirstRecordLen(d) <= |d| {
      ParsePrefix(d, x);
      var end := 5 + FirstRecordLen(d);
      var r, s := Gather(d, end, d[5..end]), Gather(x, end, d[5..end]);
      if r.Whole? && s.Whole? {
        HandshakePrefix(r.handshake, s.handshake);
      }
    }
  }

  /** Once a non-empty buffer is not TLS, no further input turns it into a ClientHello. */
  lemma NotTlsIsFinal(d: seq<Byte>, x: seq<Byte>)
    requires d <= x && |d| > 0 && Parse(d) == NotTls
    ensures !Parse(x).Complete?
  {
    if |d| >= 5 && FirstHeaderOk(d) {
      ParsePrefix(d, x);
      var end := 5 + FirstRecordLen(d);
      var r, s := Gather(d, end, d[5..end]), Gather(x, end, d[5..end]);
      if r.Whole? && s.Whole? {
        HandshakePrefix(r.handshake, s.handshake);
      }
    }
  }

  /** A ClientHello with SNI stays the same ClientHello, or is waiting for a whole next record. */
  lemma CompleteWithSniIsStable(d: seq<Byte>, x: seq<Byte>)
    requires d <= x && Parse(d).HasSni()
    ensures Parse(x) == Parse(d) || (Parse(x).NeedMore? && Parse(x).needed > |x|)
  {
    ParsePrefix(d, x);
    var end := 5 + FirstRecordLen(d);
    var r, s := Gather(d, end, d[5..end]), Gather(x, end, d[5..end]);
    if s.Whole? {
      HandshakePrefix(r.handshake, s.handshake);
    }
  }
}
