/** A request on which the mixed-case mode panics. */
module HttpPanic {
  import opened Bytes
  import opened Types
  import opened Utf8
  import opened HttpParser
  import opened HttpLines
  import opened HttpHost
  import opened HttpLower

  /** GET, a line of two Kelvin signs, and Host:a */
  const REQUEST: seq<Byte> :=
    [71, 69, 84, 32, 13, 10, 0xE2, 0x84, 0xAA, 0xE2, 0x84, 0xAA, 13, 10, 72, 111, 115, 116, 58, 97]

  /** The same in lower case, four bytes shorter. */
  const LOWER_REQUEST: seq<Byte> := [103, 101, 116, 32, 13, 10, 107, 107, 13, 10, 104, 111, 115, 116, 58, 97]

  // ---------- It is a request ----------

  lemma LineOfSigns(d: seq<Byte>)
    requires d == REQUEST
    ensures AfterLine(d, 0) == 6 && HeaderAt(d, 6) == Other(14)
  {
    AfterLineIs(d, 0, 4);
    HeaderEndIs(d, 6, 12);
    ColonIsFirst(d[6..12], None);
  }

  lemma HostLineOf(d: seq<Byte>)
    requires d == REQUEST
    ensures HeaderAt(d, 14) == Found(19, 20)
  {
    HeaderEndIs(d, 14, 20);
    var line := d[14..20];
    ColonIsFirst(line, Some(4));
    assert line[..4] == HOST;
  }

  lemma OneLetter(d: seq<Byte>, s: seq<Byte>)
    requires d == REQUEST && s == d[19..20]
    ensures s == [97] && FieldOf(d, 19, 20) == Field(Some([97]), 19)
  {
    assert s == [97] && s[1..] == [];
    assert Valid(s) && Trim(s) == s && Spaces(s) == 0;
  }

  lemma GetMethod(d: seq<Byte>, m: seq<Byte>)
    requires d == REQUEST && m == METHODS[0]
    ensures FirstMethod(METHODS, d) == Some(m) && Verb(m) == [71, 69, 84]
  {
    assert m == d[..4];
  }

  lemma IsRequest(d: seq<Byte>)
    requires d == REQUEST
    ensures ParseHttp(d) == Some(HttpRequest([71, 69, 84], Some([97]), 19))
  {
    LineOfSigns(d);
    HostLineOf(d);
    OneLetter(d, d[19..20]);
    GetMethod(d, METHODS[0]);
    assert FindHost(d, 14) == Some(Field(Some([97]), 19));
  }

  // ---------- It is text ----------

  lemma SignIsText(s: seq<Byte>)
    requires Valid(s)
    ensures Valid(KELVIN + s)
  {
    assert Next(KELVIN + s) == Good(3) && (KELVIN + s)[3..] == s;
  }

  lemma IsText(d: seq<Byte>, a: seq<Byte>, b: seq<Byte>)
    requires Ascii(a) && Ascii(b) && d == a + (KELVIN + (KELVIN + b))
    ensures Valid(d)
  {
    AsciiValid(b);
    SignIsText(b);
    SignIsText(KELVIN + b);
    AsciiInFront(a, KELVIN + (KELVIN + b));
  }

  lemma RequestParts(d: seq<Byte>)
    requires d == REQUEST
    ensures Ascii(d[..6]) && Ascii(d[12..]) && d == d[..6] + (KELVIN + (KELVIN + d[12..]))
  {
  }

  // ---------- Its lower case ----------

  lemma SignsInLower(d: seq<Byte>, l: seq<Byte>, signs: seq<Byte>, letters: seq<Byte>)
    requires signs == KELVIN + (KELVIN + d) && letters == [0x6B] + ([0x6B] + l) && LowerOf(d, l)
    ensures LowerOf(signs, letters)
  {
    LowerStep(KELVIN + d, [0x6B] + l, KELVIN, [0x6B], d, l);
    LowerStep(signs, letters, KELVIN, [0x6B], KELVIN + d, [0x6B] + l);
  }

  /** ASCII, two signs, and ASCII again, in lower case. */
  lemma TextInLower(d: seq<Byte>, l: seq<Byte>, a: seq<Byte>, b: seq<Byte>)
    requires Ascii(a) && Ascii(b) && d == a + (KELVIN + (KELVIN + b))
    requires l == Lowered(a) + ([0x6B] + ([0x6B] + Lowered(b)))
    ensures LowerOf(d, l)
  {
    AsciiLower(a);
    AsciiLower(b);
    AsciiValid(a);
    SignsInLower(b, Lowered(b), KELVIN + (KELVIN + b), [0x6B] + ([0x6B] + Lowered(b)));
    LowerJoined(a, KELVIN + (KELVIN + b), Lowered(a), [0x6B] + ([0x6B] + Lowered(b)));
  }

  lemma LoweredIs(a: seq<Byte>, l: seq<Byte>)
    requires |l| == |a| && forall i :: 0 <= i < |a| ==> l[i] == Lower(a[i])
    ensures l == Lowered(a)
  {
  }

  lemma FrontInLower(a: seq<Byte>)
    requires a == REQUEST[..6]
    ensures LOWER_REQUEST[..6] == Lowered(a)
  {
    LoweredIs(a, LOWER_REQUEST[..6]);
  }

  lemma BackInLower(b: seq<Byte>)
    requires b == REQUEST[12..]
    ensures LOWER_REQUEST[8..] == Lowered(b)
  {
    LoweredIs(b, LOWER_REQUEST[8..]);
  }

  lemma LowerParts(l: seq<Byte>)
    requires l == LOWER_REQUEST
    ensures l == l[..6] + ([0x6B] + ([0x6B] + l[8..]))
  {
  }

  // ---------- It panics ----------

  lemma {:induction false} FirstNeedle(s: seq<Byte>, i: nat, k: nat)
    requires i <= k && NeedleAt(s, k) && forall j :: i <= j < k ==> !NeedleAt(s, j)
    ensures FindNeedle(s, i) == Some(k)
    decreases k - i
  {
    if i < k {
      FirstNeedle(s, i + 1, k);
    }
  }

  lemma NeedleHere(s: seq<Byte>, i: nat)
    requires i + 6 <= |s| && s[i] == 10 && s[i + 1] == 104 && s[i + 2] == 111 && s[i + 3] == 115
    requires s[i + 4] == 116 && s[i + 5] == 58
    ensures NeedleAt(s, i)
  {
    assert s[i..i + 6] == [s[i], s[i + 1], s[i + 2], s[i + 3], s[i + 4], s[i + 5]];
  }

  lemma NeedleAtNine(l: seq<Byte>)
    requires l == LOWER_REQUEST
    ensures FindNeedle(l, 0) == Some(9)
  {
    forall j | 0 <= j < 9 ensures !NeedleAt(l, j) {
      if NeedleAt(l, j) {
        NeedleStart(l, j);
      }
    }
    NeedleHere(l, 9);
    FirstNeedle(l, 0, 9);
  }

  /**
   * The parser finds the request and its host, and the mode panics whatever it draws: lower case is four
   * bytes shorter, so the offset of the Host header points into the second sign.
   */
  lemma ReceivedRequestPanics(draw: nat)
    requires draw < |VARIANTS|
    ensures Valid(REQUEST) && ParseHttp(REQUEST) == Some(HttpRequest([71, 69, 84], Some([97]), 19))
    ensures LowerOf(REQUEST, LOWER_REQUEST)
    ensures RenameHost(REQUEST, LOWER_REQUEST, VARIANTS[draw]) == Err(Panic)
  {
    IsRequest(REQUEST);
    RequestParts(REQUEST);
    IsText(REQUEST, REQUEST[..6], REQUEST[12..]);
    FrontInLower(REQUEST[..6]);
    BackInLower(REQUEST[12..]);
    LowerParts(LOWER_REQUEST);
    TextInLower(REQUEST, LOWER_REQUEST, REQUEST[..6], REQUEST[12..]);
    NeedleAtNine(LOWER_REQUEST);
    InsideSign(REQUEST);
  }

  lemma InsideSign(d: seq<Byte>)
    requires d == REQUEST
    ensures !CharBoundary(d, 10)
  {
    assert d[10] == 0x84;
  }
}
