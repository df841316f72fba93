/** Rewriting the SNI in place: mixed case, and the mode called Remove. */
module SniManip {
  import opened Bytes
  import opened Types
  import opened TlsParser
  import opened TlsStability
  import opened SplitPositions
  import opened RecordFrag
  import opened ServerView
  import Utf8

  // ---------- Parsing does not look at the name ----------

  /** The buffers differ at most in `[lo, hi)`. */
  predicate SameOutside(h: seq<Byte>, g: seq<Byte>, lo: nat, hi: nat) {
    |h| == |g| && forall i :: 0 <= i < |h| && !(lo <= i < hi) ==> SameAt(h, g, i)
  }

  lemma FieldIgnores(h: seq<Byte>, g: seq<Byte>, pos: nat, field: nat, lo: nat, hi: nat)
    requires SameOutside(h, g, lo, hi) && pos + FieldSize(h, pos, field) <= lo
    ensures FieldSize(g, pos, field) == FieldSize(h, pos, field)
  {
    assert pos < |h| ==> SameAt(h, g, pos);
    assert pos + 1 < |h| && 2 <= FieldSize(h, pos, field) ==> SameAt(h, g, pos + 1);
  }

  lemma FieldPassed(h: seq<Byte>, pos: nat, field: nat) returns (next: nat)
    requires field < EXTENSIONS && Walk(h, pos, field).At?
    ensures next == pos + FieldSize(h, pos, field) <= |h|
    ensures Walk(h, pos, field) == Walk(h, next, field + 1) && next <= Walk(h, pos, field).pos
  {
    next := pos + FieldSize(h, pos, field);
    WalkAdvances(h, pos, field);
  }

  lemma {:induction false} WalkIgnores(h: seq<Byte>, g: seq<Byte>, pos: nat, field: nat, lo: nat, hi: nat)
    requires SameOutside(h, g, lo, hi) && Walk(h, pos, field).At? && Walk(h, pos, field).pos <= lo
    ensures Walk(g, pos, field) == Walk(h, pos, field)
    decreases 5 - field
  {
    if field < EXTENSIONS {
      var next := FieldPassed(h, pos, field);
      FieldIgnores(h, g, pos, field, lo, hi);
      WalkNext(g, pos, field, next);
      WalkIgnores(h, g, next, field + 1, lo, hi);
    }
  }

  /** The status found in `h`, with the name bytes read from `g` instead. */
  function Renamed(st: ParseStatus, g: seq<Byte>, wire: nat): ParseStatus
    requires st.HasSni() && wire <= st.proto.sniOffset && st.proto.sniOffset - wire + st.proto.sniLen <= |g|
  {
    var o, n := st.proto.sniOffset, st.proto.sniLen;
    Complete(TlsClientHello(Some(Utf8.Lossy(g[o - wire..o - wire + n])), o, n))
  }

  /** `st` is an SNI inside `h`, and `g` differs from `h` only in its name bytes. */
  predicate NameChanged(st: ParseStatus, h: seq<Byte>, g: seq<Byte>, wire: nat) {
    && SniWithin(st, h, wire)
    && SameOutside(h, g, st.proto.sniOffset - wire, st.proto.sniOffset - wire + st.proto.sniLen)
  }

  lemma NameHere(e: seq<Byte>, f: seq<Byte>, pos: nat, wire: nat)
    requires |f| == |e| && pos + 3 <= |e| && e[pos] == 0 && f[pos] == 0 && FindName(e, pos, wire).HasSni()
    requires Word(f, pos + 1) == Word(e, pos + 1)
    ensures SniWithin(FindName(e, pos, wire), e, wire)
    ensures FindName(f, pos, wire) == Renamed(FindName(e, pos, wire), f, wire)
  {
  }

  lemma NameLater(e: seq<Byte>, pos: nat, wire: nat, next: nat)
    requires pos + 3 <= next <= |e| && e[pos] != 0 && next == pos + 3 + Word(e, pos + 1)
    ensures FindName(e, pos, wire) == FindName(e, next, wire)
  {
  }

  lemma {:induction false} FindNameIgnores(e: seq<Byte>, f: seq<Byte>, pos: nat, wire: nat)
    requires NameChanged(FindName(e, pos, wire), e, f, wire)
    ensures FindName(f, pos, wire) == Renamed(FindName(e, pos, wire), f, wire)
    decreases |e| - pos
  {
    NameBounds(e, pos, wire);
    assert SameAt(e, f, pos) && SameAt(e, f, pos + 1) && SameAt(e, f, pos + 2);
    if e[pos] == 0 {
      NameHere(e, f, pos, wire);
    } else {
      var next := pos + 3 + Word(e, pos + 1);
      NameLater(e, pos, wire, next);
      NameLater(f, pos, wire, next);
      FindNameIgnores(e, f, next, wire);
    }
  }

  lemma NameChangedInWindow(st: ParseStatus, h: seq<Byte>, g: seq<Byte>, from: nat, to: nat, wire: nat)
    requires NameChanged(st, h, g, wire) && from <= to <= |h| && SniWithin(st, h[from..to], wire + from)
    ensures NameChanged(st, h[from..to], g[from..to], wire + from)
    ensures Renamed(st, g[from..to], wire + from) == Renamed(st, g, wire)
  {
    var o := st.proto.sniOffset - wire;
    SameInWindow(h, g, from, to, o, o + st.proto.sniLen);
  }

  lemma SniBodyIgnores(h: seq<Byte>, g: seq<Byte>, body: nat, to: nat)
    requires body <= to <= |h| && |h| == |g|
    requires NameChanged(ParseSni(h[body..to], 5 + body), h, g, 5)
    ensures ParseSni(g[body..to], 5 + body) == Renamed(ParseSni(h[body..to], 5 + body), g, 5)
  {
    var e, f, st := h[body..to], g[body..to], ParseSni(h[body..to], 5 + body);
    NameBounds(e, 2, 5 + body);
    NameChangedInWindow(st, h, g, body, to, 5);
    FindNameIgnores(e, f, 2, 5 + body);
  }

  lemma {:induction false} FindSniIgnores(h: seq<Byte>, g: seq<Byte>, pos: nat, end: nat, st: ParseStatus)
    requires end <= |h| && st == FindSni(h, pos, end) && NameChanged(st, h, g, 5)
    ensures FindSni(g, pos, end) == Renamed(st, g, 5)
    decreases end - pos
  {
    SniBounds(h, pos, end);
    assert SameAt(h, g, pos) && SameAt(h, g, pos + 1) && SameAt(h, g, pos + 2) && SameAt(h, g, pos + 3);
    var next := pos + 4 + Word(h, pos + 2);
    if Word(h, pos) == 0 {
      SniBodyIgnores(h, g, pos + 4, next);
    } else {
      FindSniIgnores(h, g, next, end, st);
    }
  }

  lemma ExtensionsIgnore(h: seq<Byte>, g: seq<Byte>, pos: nat)
    requires NameChanged(ParseExtensions(h, pos), h, g, 5)
    ensures ParseExtensions(g, pos) == Renamed(ParseExtensions(h, pos), g, 5)
  {
    SniOfExtensions(h, pos);
    assert SameAt(h, g, pos) && SameAt(h, g, pos + 1);
    FindSniIgnores(h, g, pos + 2, pos + 2 + Word(h, pos), ParseExtensions(h, pos));
  }

  /** Overwriting exactly the SNI bytes changes nothing but the SNI. */
  lemma HandshakeIgnores(h: seq<Byte>, g: seq<Byte>)
    requires NameChanged(ParseHandshake(h), h, g, 5)
    ensures ParseHandshake(g) == Renamed(ParseHandshake(h), g, 5)
  {
    var pos, o := HelloEnd(h).pos, ParseHandshake(h).proto.sniOffset - 5;
    WalkAdvances(h, 4, VERSION);
    SniOfExtensions(h, pos);
    assert SameAt(h, g, 0) && SameAt(h, g, 1) && SameAt(h, g, 2) && SameAt(h, g, 3);
    WalkIgnores(h, g, 4, VERSION, o, o + ParseHandshake(h).proto.sniLen);
    ExtensionsIgnore(h, g, pos);
  }

  // ---------- The rewriting ----------

  /** The payload with the SNI bytes replaced. */
  function Overwrite(ctx: PayloadContext, name: seq<Byte>): (q: seq<Byte>)
    requires HasSni(ctx) && ctx.protocol.sniOffset + |name| <= |ctx.payload|
  {
    ctx.payload[..ctx.protocol.sniOffset] + name + ctx.payload[ctx.protocol.sniOffset + |name|..]
  }

  lemma OverwriteSame(ctx: PayloadContext, name: seq<Byte>)
    requires HasSni(ctx) && ctx.protocol.sniOffset + |name| <= |ctx.payload|
    ensures var o := ctx.protocol.sniOffset;
            && SameOutside(ctx.payload, Overwrite(ctx, name), o, o + |name|)
            && Overwrite(ctx, name)[o..o + |name|] == name
  {
  }

  /**
   * With the SNI inside the first record, any replacement of the same length yields a hello
   * that parses to the replacement at the same offset.
   */
  lemma {:induction false} OverwriteParses(ctx: PayloadContext, name: seq<Byte>)
    requires SniInFirstRecord(ctx) && |name| == ctx.protocol.sniLen
    ensures ctx.protocol.sniOffset + |name| <= |ctx.payload|
    ensures Parse(Overwrite(ctx, name))
         == Complete(TlsClientHello(Some(Utf8.Lossy(name)), ctx.protocol.sniOffset, ctx.protocol.sniLen))
  {
    DetectedHeader(ctx);
    SniPosition(ctx);
    MessageFacts(ctx);
    OverwriteSame(ctx, name);
    NewMessage(ctx.payload, Overwrite(ctx, name), Message(ctx), ctx.protocol.sniOffset, name);
  }

  lemma SameInWindow(p: seq<Byte>, q: seq<Byte>, from: nat, to: nat, lo: nat, hi: nat)
    requires SameOutside(p, q, lo, hi) && from <= lo <= hi <= to <= |p|
    ensures SameOutside(p[from..to], q[from..to], lo - from, hi - from)
    ensures q[from..to][lo - from..hi - from] == q[lo..hi]
  {
    Window(q, from, to, lo - from, hi - from);
    forall i | 0 <= i < to - from && !(lo - from <= i < hi - from) ensures SameAt(p[from..to], q[from..to], i) {
      assert SameAt(p, q, from + i);
    }
  }

  lemma SameBehind(p: seq<Byte>, q: seq<Byte>, lo: nat, hi: nat, end: nat)
    requires SameOutside(p, q, lo, hi) && hi <= end
    ensures TlsStability.Shifted(p, end, q, 0)
  {
    forall i | end <= i < |p| ensures p[i] == q[i + 0] {
      assert SameAt(p, q, i);
    }
  }

  lemma SameBeforeTail(h: seq<Byte>, a: seq<Byte>, b: seq<Byte>, lo: nat, hi: nat)
    requires a <= h && SameOutside(a, b, lo, hi) && lo <= hi <= |a|
    ensures var g := b + h[|a|..];
            SameOutside(h, g, lo, hi) && g[lo..hi] == b[lo..hi]
  {
    var g := b + h[|a|..];
    forall i | 0 <= i < |h| && !(lo <= i < hi) ensures SameAt(h, g, i) {
      if i < |a| {
        assert SameAt(a, b, i);
      }
    }
  }

  lemma {:induction false} MessageRenamed(h: seq<Byte>, g: seq<Byte>, o: nat, name: seq<Byte>)
    requires ParseHandshake(h).HasSni() && 5 <= o && o - 5 + |name| <= |g|
    requires ParseHandshake(h).proto.sniOffset == o && ParseHandshake(h).proto.sniLen == |name|
    requires SameOutside(h, g, o - 5, o - 5 + |name|) && g[o - 5..o - 5 + |name|] == name
    ensures ParseHandshake(g) == Complete(TlsClientHello(Some(Utf8.Lossy(name)), o, |name|))
  {
    HandshakeSni(h);
    HandshakeIgnores(h, g);
  }

  lemma SameFirstHeader(p: seq<Byte>, q: seq<Byte>, lo: nat, hi: nat)
    requires SameOutside(p, q, lo, hi) && 5 <= lo && |p| >= 5 && FirstHeaderOk(p) && 5 + BodyLen(p) <= |p|
    ensures BodyLen(q) == BodyLen(p)
    ensures Parse(q) == Judge(Gather(q, 5 + BodyLen(p), q[5..5 + BodyLen(p)]))
  {
    assert SameAt(p, q, 0) && SameAt(p, q, 1) && SameAt(p, q, 2) && SameAt(p, q, 3) && SameAt(p, q, 4);
  }

  /** The message carried by `q`, when `q` is `p` with a part of its first record replaced. */
  lemma {:induction false} ReplacedMessage(p: seq<Byte>, q: seq<Byte>, end: nat, h: seq<Byte>, lo: nat, hi: nat)
    requires 5 <= lo <= hi <= end <= |p| && SameOutside(p, q, lo, hi)
    requires Gather(p, end, p[5..end]) == Whole(h)
    ensures p[5..end] <= h
    ensures var g := q[5..end] + h[end - 5..];
            && Gather(q, end, q[5..end]) == Whole(g)
            && SameOutside(h, g, lo - 5, hi - 5) && g[lo - 5..hi - 5] == q[lo..hi]
  {
    var a, b := p[5..end], q[5..end];
    SameInWindow(p, q, 5, end, lo, hi);
    ReplacedRest(p, q, end, h, lo, hi, a, b);
    SameBeforeTail(h, a, b, lo - 5, hi - 5);
  }

  lemma {:induction false} ReplacedRest(
      p: seq<Byte>, q: seq<Byte>, end: nat, h: seq<Byte>, lo: nat, hi: nat, a: seq<Byte>, b: seq<Byte>)
    requires lo <= hi <= end <= |p| && SameOutside(p, q, lo, hi) && Gather(p, end, a) == Whole(h)
    ensures a <= h && Gather(q, end, b) == Whole(b + h[|a|..])
  {
    SameBehind(p, q, lo, hi, end);
    GatherShift(p, end, a, q, 0, b);
  }

  /** `p` carries the message `h`, and `q` is `p` with the SNI of its first record replaced. */
  lemma NewMessage(p: seq<Byte>, q: seq<Byte>, h: seq<Byte>, o: nat, name: seq<Byte>)
    requires |p| >= 5 && FirstHeaderOk(p) && 5 <= o && o + |name| <= 5 + BodyLen(p) <= |p|
    requires Gather(p, 5 + BodyLen(p), p[5..5 + BodyLen(p)]) == Whole(h)
    requires ParseHandshake(h).HasSni()
    requires ParseHandshake(h).proto.sniOffset == o && ParseHandshake(h).proto.sniLen == |name|
    requires SameOutside(p, q, o, o + |name|) && q[o..o + |name|] == name
    ensures Parse(q) == Complete(TlsClientHello(Some(Utf8.Lossy(name)), o, |name|))
  {
    var end := 5 + BodyLen(p);
    SameFirstHeader(p, q, o, o + |name|);
    ReplacedMessage(p, q, end, h, o, o + |name|);
    MessageRenamed(h, q[5..end] + h[end - 5..], o, name);
  }

  /** Flip the case of the letters by the coins. */
  function MixByte(b: Byte, coin: bool): (m: Byte)
    ensures Utf8.Lower(m) == Utf8.Lower(b)
  {
    if !Utf8.IsAlpha(b) then b else if coin then Utf8.Upper(b) else Utf8.Lower(b)
  }

  function Mixed(s: seq<Byte>, coins: nat -> bool): (m: seq<Byte>)
    ensures Utf8.EqIgnoreCase(s, m)
  {
    if s == [] then []
    else
      var i := |s| - 1;
      Mixed(s[..i], coins) + [MixByte(s[i], coins(i))]
  }

  /**
   * A coin decides each letter: upper case for heads, lower case for tails, whatever it was. All other bytes
   * stay.
   */
  lemma {:induction false} CoinsDecide(s: seq<Byte>, coins: nat -> bool, i: nat)
    requires i < |s|
    ensures |Mixed(s, coins)| == |s|
    ensures 65 <= s[i] <= 90 ==> Mixed(s, coins)[i] == if coins(i) then s[i] else s[i] + 32
    ensures 97 <= s[i] <= 122 ==> Mixed(s, coins)[i] == if coins(i) then s[i] - 32 else s[i]
    ensures !(65 <= s[i] <= 90 || 97 <= s[i] <= 122) ==> Mixed(s, coins)[i] == s[i]
    decreases |s|
  {
    var n := |s| - 1;
    if i < n {
      CoinsDecide(s[..n], coins, i);
    }
  }

  /** What mode MixedCase does: `copy_from_slice` panics when the decoded SNI is not as long as the SNI bytes. */
  function MixedCaseResult(ctx: PayloadContext, coins: nat -> bool): Result<DesyncAction, Error> {
    var p := ctx.protocol;
    if !HasSni(ctx) || p.sniOffset + p.sniLen > |ctx.payload| then Err(NotApplicable)
    else if |p.sni.value| != p.sniLen then Err(Panic)
    else Ok(Replace(Overwrite(ctx, Mixed(p.sni.value, coins))))
  }

  method ApplyMixedCase(ctx: PayloadContext, coins: nat -> bool) returns (result: Result<DesyncAction, Error>)
    ensures result == MixedCaseResult(ctx, coins)
  {
    if !HasSni(ctx) {
      return Err(NotApplicable);
    }
    var sni, offset, len := ctx.protocol.sni.value, ctx.protocol.sniOffset, ctx.protocol.sniLen;
    if offset + len > |ctx.payload| {
      return Err(NotApplicable);
    }
    var mixed: seq<Byte> := [];
    while |mixed| < |sni|
      invariant |mixed| <= |sni| && mixed == Mixed(sni[..|mixed|], coins)
    {
      assert sni[..|mixed| + 1][..|mixed|] == sni[..|mixed|];
      mixed := mixed + [MixByte(sni[|mixed|], coins(|mixed|))];
    }
    assert sni[..|sni|] == sni;
    if |mixed| != len {
      return Err(Panic);
    }
    return Ok(Replace(ctx.payload[..offset] + mixed + ctx.payload[offset + len..]));
  }

  /** Mode Remove: the name is masked with dots, the extension stays. */
  method ApplyRemove(ctx: PayloadContext) returns (result: Result<DesyncAction, Error>)
    ensures !HasSni(ctx) ==> result == Err(NotApplicable)
    ensures HasSni(ctx) ==>
              var p := ctx.protocol;
              result == (if p.sniOffset + p.sniLen > |ctx.payload| then Err(NotApplicable)
                         else Ok(Replace(Overwrite(ctx, Dots(p.sniLen)))))
  {
    if !HasSni(ctx) {
      return Err(NotApplicable);
    }
    var offset, len := ctx.protocol.sniOffset, ctx.protocol.sniLen;
    if offset + len > |ctx.payload| {
      return Err(NotApplicable);
    }
    var payload := ctx.payload;
    var i := 0;
    while i < len
      invariant 0 <= i <= len && |payload| == |ctx.payload|
      invariant forall j :: 0 <= j < |payload| ==> payload[j] == if offset <= j < offset + i then DOT else ctx.payload[j]
    {
      payload := payload[offset + i := DOT];
      i := i + 1;
    }
    var dots := Overwrite(ctx, Dots(len));
    assert |payload| == |dots| && forall j :: 0 <= j < |payload| ==> payload[j] == dots[j];
    assert payload == dots;
    return Ok(Replace(payload));
  }

  function Dots(n: nat): (s: seq<Byte>)
    ensures |s| == n && forall i :: 0 <= i < n ==> s[i] == 46
  {
    seq(n, _ => DOT)
  }

  lemma NameInMessage(ctx: PayloadContext)
    requires Detected(ctx)
    ensures SniWithin(Complete(ctx.protocol), Message(ctx), 5) && 5 + |Message(ctx)| <= |ctx.payload|
  {
    DetectedHeader(ctx);
    MessageFacts(ctx);
    HandshakeSni(Message(ctx));
    GatherBound(ctx.payload, 5 + BodyLen(ctx.payload), FirstBody(ctx.payload));
  }

  function NameIn(proto: AppProtocol, h: seq<Byte>): seq<Byte>
    requires SniWithin(Complete(proto), h, 5)
  {
    h[proto.sniOffset - 5..proto.sniOffset - 5 + proto.sniLen]
  }

  /** The bytes of the SNI as the client sent them, in whatever records. */
  function SentName(ctx: PayloadContext): seq<Byte>
    requires Detected(ctx)
  {
    NameInMessage(ctx);
    NameIn(ctx.protocol, Message(ctx))
  }

  /** On every received hello with SNI the mode panics exactly when lossy decoding changes the length of the SNI. */
  lemma PanicsExactly(ctx: PayloadContext, coins: nat -> bool)
    requires Detected(ctx)
    ensures ctx.protocol.sniOffset + ctx.protocol.sniLen <= |ctx.payload|
    ensures MixedCaseResult(ctx, coins) == Err(Panic) <==> |Utf8.Lossy(SentName(ctx))| != |SentName(ctx)|
    ensures MixedCaseResult(ctx, coins).Ok? <==> |Utf8.Lossy(SentName(ctx))| == |SentName(ctx)|
  {
    NameInMessage(ctx);
    PanicsByName(ctx, coins, Message(ctx), SentName(ctx));
  }

  lemma PanicsByName(ctx: PayloadContext, coins: nat -> bool, h: seq<Byte>, name: seq<Byte>)
    requires SniWithin(Complete(ctx.protocol), h, 5) && 5 + |h| <= |ctx.payload| && name == NameIn(ctx.protocol, h)
    ensures ctx.protocol.sniOffset + ctx.protocol.sniLen <= |ctx.payload|
    ensures MixedCaseResult(ctx, coins) == Err(Panic) <==> |Utf8.Lossy(name)| != |name|
    ensures MixedCaseResult(ctx, coins).Ok? <==> |Utf8.Lossy(name)| == |name|
  {
  }

  /**
   * With the SNI in the first record and for every outcome of the coins, unless the mode panics: the server
   * sees the reported name up to case, at the same place.
   */
  lemma MixedCaseKeepsName(ctx: PayloadContext, coins: nat -> bool)
    requires SniInFirstRecord(ctx) && MixedCaseResult(ctx, coins) != Err(Panic)
    ensures ctx.protocol.sniOffset + ctx.protocol.sniLen <= |ctx.payload| && |ctx.protocol.sni.value| == ctx.protocol.sniLen
    ensures var mixed := Mixed(ctx.protocol.sni.value, coins);
            && MixedCaseResult(ctx, coins) == Ok(Replace(Overwrite(ctx, mixed)))
            && Utf8.EqIgnoreCase(ctx.protocol.sni.value, mixed)
            && Parse(Overwrite(ctx, mixed))
            == Complete(TlsClientHello(Some(mixed), ctx.protocol.sniOffset, ctx.protocol.sniLen))
  {
    PanicsExactly(ctx, coins);
    SniIsItsBytes(ctx);
    Utf8.LossyIsValid(SniBytes(ctx));
    var mixed := Mixed(ctx.protocol.sni.value, coins);
    Utf8.ValidUpToCase(ctx.protocol.sni.value, mixed);
    Utf8.LossyKeepsValid(mixed);
    OverwriteParses(ctx, mixed);
  }

  lemma {:induction false} DotsAreValid(n: nat)
    ensures Utf8.Valid(Dots(n))
  {
    if n > 0 {
      assert Dots(n)[1..] == Dots(n - 1);
      DotsAreValid(n - 1);
    }
  }

  /** Mode Remove leaves a hello that still carries a server name: as many dots. */
  lemma RemoveOnlyMasks(ctx: PayloadContext)
    requires SniInFirstRecord(ctx)
    ensures ctx.protocol.sniOffset + ctx.protocol.sniLen <= |ctx.payload|
    ensures Parse(Overwrite(ctx, Dots(ctx.protocol.sniLen)))
         == Complete(TlsClientHello(Some(Dots(ctx.protocol.sniLen)), ctx.protocol.sniOffset, ctx.protocol.sniLen))
  {
    DotsAreValid(ctx.protocol.sniLen);
    Utf8.LossyKeepsValid(Dots(ctx.protocol.sniLen));
    OverwriteParses(ctx, Dots(ctx.protocol.sniLen));
  }
}
