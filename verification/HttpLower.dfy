/** Where the name of the Host header stands in the lower-case text. */
module HttpLower {
  import opened Bytes
  import opened Types
  import opened Utf8
  import opened HttpParser
  import opened HttpLines
  import opened HttpHost
  import opened HttpCase

  // ---------- Lower case, character by character ----------

  lemma GoodBytes(s: seq<Byte>, i: nat)
    requires s != [] && s[0] >= 0x80 && Next(s).Good? && i < Next(s).len
    ensures s[i] >= 0x80
  {
  }

  lemma LowerStep(s: seq<Byte>, lower: seq<Byte>, c: seq<Byte>, image: seq<Byte>, s': seq<Byte>, lower': seq<Byte>)
    requires c != [] && Next(c) == Good(|c|) && s == c + s' && lower == image + lower'
    requires if c[0] < 0x80 then image == [Lower(c[0])] else LowerImage(c, image)
    requires LowerOf(s', lower')
    ensures LowerOf(s, lower)
  {
    var n, m := |c|, |image|;
    assert c[..n] == c;
    GoodAlone(c, s');
    assert s[n..] == s' && lower[m..] == lower' && s[..n] == c && lower[..m] == image;
  }

  /** The first character of a text, its image, and the rest of both. */
  lemma FirstImage(s: seq<Byte>, lower: seq<Byte>) returns (n: Positive, m: Positive)
    requires s != [] && Valid(s) && LowerOf(s, lower)
    ensures n == Next(s).len <= |s| && m <= |lower| && Next(s[..n]) == Good(n)
    ensures if s[0] < 0x80 then n == 1 && lower[..m] == [Lower(s[0])] else LowerImage(s[..n], lower[..m])
    ensures Valid(s[n..]) && LowerOf(s[n..], lower[m..])
  {
    n := Next(s).len;
    GoodAlone(s, []);
    assert s[..n] + [] == s[..n];
    if s[0] < 0x80 {
      m := 1;
    } else {
      m :| 0 < m <= |lower| && LowerImage(s[..n], lower[..m]) && LowerOf(s[n..], lower[m..]);
    }
  }

  /** Lower case of joined text is joined lower case. */
  lemma {:induction false} LowerJoined(a: seq<Byte>, b: seq<Byte>, lowerA: seq<Byte>, lowerB: seq<Byte>)
    requires Valid(a) && LowerOf(a, lowerA) && LowerOf(b, lowerB)
    ensures LowerOf(a + b, lowerA + lowerB)
    decreases |a|
  {
    if a == [] {
      assert a + b == b && lowerA + lowerB == lowerB;
    } else {
      var n, m := FirstImage(a, lowerA);
      LowerJoined(a[n..], b, lowerA[m..], lowerB);
      Regroup(a, n, b);
      Regroup(lowerA, m, lowerB);
      LowerStep(a + b, lowerA + lowerB, a[..n], lowerA[..m], a[n..] + b, lowerA[m..] + lowerB);
    }
  }

  lemma Regroup(a: seq<Byte>, n: Positive, b: seq<Byte>)
    requires n <= |a|
    ensures a + b == a[..n] + (a[n..] + b)
  {
  }

  /** Every text has a lower case. */
  lemma {:induction false} SomeLower(s: seq<Byte>) returns (lower: seq<Byte>)
    requires Valid(s)
    ensures LowerOf(s, lower)
    decreases |s|
  {
    if s == [] {
      lower := [];
    } else {
      var n := Next(s).len;
      var c := s[..n];
      GoodAlone(s, []);
      assert c + [] == c && s == c + s[n..];
      var rest := SomeLower(s[n..]);
      var image := SomeImage(c);
      lower := image + rest;
      LowerStep(s, lower, c, image, s[n..], rest);
    }
  }

  lemma SomeImage(c: seq<Byte>) returns (image: seq<Byte>)
    requires c != [] && Next(c) == Good(|c|)
    ensures if c[0] < 0x80 then image == [Lower(c[0])] else LowerImage(c, image)
  {
    if c[0] < 0x80 {
      image := [Lower(c[0])];
    } else if c == KELVIN {
      image := [0x6B];
    } else if c == DOTTED_I {
      image := [0x69, 0xCC, 0x87];
    } else {
      image := c;
      assert c[|c|..] == [];
      forall i | 0 <= i < |c| ensures c[i] >= 0x80 {
        GoodBytes(c, i);
      }
    }
  }

  lemma AsciiTail(s: seq<Byte>)
    requires s != [] && Ascii(s)
    ensures s[0] < 0x80 && Ascii(s[1..])
  {
    assert AsciiAt(s, 0);
    WindowAscii(s, 1, |s|);
    assert s[1..|s|] == s[1..];
  }

  /** ASCII text has one lower case, of the same length. */
  lemma {:induction false} AsciiLower(s: seq<Byte>)
    requires Ascii(s)
    ensures LowerOf(s, Lowered(s))
  {
    if s == [] {
    } else {
      AsciiTail(s);
      AsciiLower(s[1..]);
      assert LowerOf([], []);
      LowerStep(s, Lowered(s), [s[0]], [Lower(s[0])], s[1..], Lowered(s[1..]));
    }
  }

  lemma {:induction false} AsciiLength(s: seq<Byte>, lower: seq<Byte>)
    requires Ascii(s) && LowerOf(s, lower)
    ensures |lower| == |s|
  {
    if s == [] {
    } else {
      AsciiTail(s);
      AsciiLength(s[1..], lower[1..]);
    }
  }

  // ---------- The name and the needle ----------

  predicate Starts(s: seq<Byte>, word: seq<Byte>) {
    word == [] || (s != [] && s[0] == word[0] && Starts(s[1..], word[1..]))
  }

  predicate StartsInAnyCase(s: seq<Byte>, word: seq<Byte>) {
    word == [] || (s != [] && Lower(s[0]) == word[0] && StartsInAnyCase(s[1..], word[1..]))
  }

  /** ASCII, and neither of the two letters that other characters have in their images. */
  predicate Plain(word: seq<Byte>) {
    word == [] || (word[0] < 0x80 && word[0] != 0x69 && word[0] != 0x6B && Plain(word[1..]))
  }

  lemma ImageStart(c: seq<Byte>, lower: seq<Byte>, m: Positive)
    requires m <= |lower| && LowerImage(c, lower[..m])
    ensures lower[0] >= 0x80 || lower[0] == 0x69 || lower[0] == 0x6B
  {
    assert lower[..m][0] == lower[0] && lower[..m][0] in lower[..m];
  }

  /** A plain word starts the lower-case text if and only if it starts the text in some case. */
  lemma {:induction false} WordInLower(s: seq<Byte>, lower: seq<Byte>, word: seq<Byte>)
    requires LowerOf(s, lower) && Plain(word)
    ensures Starts(lower, word) <==> StartsInAnyCase(s, word)
    decreases |word|
  {
    if word == [] || s == [] {
    } else if s[0] < 0x80 {
      WordInLower(s[1..], lower[1..], word[1..]);
    } else {
      var m: Positive :| m <= |lower| && LowerImage(s[..Next(s).len], lower[..m]);
      ImageStart(s[..Next(s).len], lower, m);
    }
  }

  lemma NeedleStarts(lower: seq<Byte>)
    ensures NeedleAt(lower, 0) <==> Starts(lower, NEEDLE)
  {
    StartsIs(lower, NEEDLE);
    if |lower| >= 6 {
      assert lower[0..6] == lower[..6];
    }
  }

  lemma {:induction false} StartsIs(s: seq<Byte>, word: seq<Byte>)
    ensures Starts(s, word) <==> |word| <= |s| && s[..|word|] == word
    decreases |word|
  {
    if word == [] {
    } else if s != [] {
      StartsIs(s[1..], word[1..]);
      Peel(s, word);
    }
  }

  lemma Peel(s: seq<Byte>, word: seq<Byte>)
    requires s != [] && word != []
    ensures |word| <= |s| && s[..|word|] == word
            <==> s[0] == word[0] && |word[1..]| <= |s[1..]| && s[1..][..|word[1..]|] == word[1..]
  {
    var n := |word|;
    if n <= |s| {
      assert s[1..][..n - 1] == s[1..n];
      if s[0] == word[0] && s[1..n] == word[1..] {
        assert s[..n] == [s[0]] + s[1..n] && word == [word[0]] + word[1..];
      }
      if s[..n] == word {
        assert s[1..n] == s[..n][1..] && s[..n][0] == s[0];
      }
    }
  }

  lemma {:induction false} StartsInAnyCaseIs(s: seq<Byte>, word: seq<Byte>)
    ensures StartsInAnyCase(s, word) <==> |word| <= |s| && forall i :: 0 <= i < |word| ==> Lower(s[i]) == word[i]
    decreases |word|
  {
    if word == [] {
    } else if s != [] {
      var t, w := s[1..], word[1..];
      StartsInAnyCaseIs(t, w);
      if |word| <= |s| && Lower(s[0]) == word[0] && forall i :: 0 <= i < |w| ==> Lower(t[i]) == w[i] {
        forall i | 0 <= i < |word| ensures Lower(s[i]) == word[i] {
          if i > 0 {
            assert Lower(t[i - 1]) == w[i - 1];
          }
        }
      }
      if |word| <= |s| && forall i :: 0 <= i < |word| ==> Lower(s[i]) == word[i] {
        forall i | 0 <= i < |w| ensures Lower(t[i]) == w[i] {
          assert Lower(s[i + 1]) == word[i + 1];
        }
      }
    }
  }

  lemma NameStarts(s: seq<Byte>)
    ensures NameAt(s, 0) <==> StartsInAnyCase(s, NEEDLE)
  {
    StartsInAnyCaseIs(s, NEEDLE);
    if |s| >= 6 {
      var w := s[1..5];
      assert w == [s[1], s[2], s[3], s[4]];
      FourLetters(w);
    }
  }

  lemma FourLetters(h: seq<Byte>)
    requires |h| == 4
    ensures EqIgnoreCase(h, HOST)
            <==> Lower(h[0]) == 104 && Lower(h[1]) == 111 && Lower(h[2]) == 115 && Lower(h[3]) == 116
  {
    assert Lower(HOST[0]) == 104 && Lower(HOST[1]) == 111 && Lower(HOST[2]) == 115 && Lower(HOST[3]) == 116;
  }

  /** The needle starts the lower-case text if and only if the name starts the text. */
  lemma NameInFront(s: seq<Byte>, lower: seq<Byte>)
    requires LowerOf(s, lower)
    ensures NeedleAt(lower, 0) <==> NameAt(s, 0)
  {
    NeedleStarts(lower);
    NameStarts(s);
    WordInLower(s, lower, NEEDLE);
  }

  // ---------- The two searches ----------

  function Later(found: Option<nat>, n: nat): Option<nat> {
    match found
    case Some(k) => Some(n + k)
    case None => None
  }

  lemma NameBehind(s: seq<Byte>, n: Positive, t: seq<Byte>, i: nat)
    requires n <= |s| && t == s[n..]
    ensures NameAt(s, n + i) <==> NameAt(t, i)
  {
    if i + 6 <= |t| {
      assert s[n + i + 1..n + i + 5] == t[i + 1..i + 5];
    }
  }

  lemma {:induction false} FindNameBehind(s: seq<Byte>, n: Positive, t: seq<Byte>, i: nat)
    requires n <= |s| && t == s[n..]
    ensures FindName(s, n + i) == Later(FindName(t, i), n)
    decreases |t| - i
  {
    NameBehind(s, n, t, i);
    if i + 6 <= |t| && !NameAt(t, i) {
      FindNameBehind(s, n, t, i + 1);
    }
  }

  /** Without the name in the first character the search goes on behind it. */
  lemma {:induction false} FindNameSkips(s: seq<Byte>, i: nat, n: nat)
    requires i <= n <= |s| && forall x :: i <= x < n ==> !NameAt(s, x)
    ensures FindName(s, i) == FindName(s, n)
    decreases n - i
  {
    if i < n {
      FindNameSkips(s, i + 1, n);
    }
  }

  lemma NeedleBehind(s: seq<Byte>, n: Positive, t: seq<Byte>, i: nat)
    requires n <= |s| && t == s[n..]
    ensures NeedleAt(s, n + i) <==> NeedleAt(t, i)
  {
    if i + 6 <= |t| {
      assert s[n + i..n + i + 6] == t[i..i + 6];
    }
  }

  lemma {:induction false} FindNeedleBehind(s: seq<Byte>, n: Positive, t: seq<Byte>, i: nat)
    requires n <= |s| && t == s[n..]
    ensures FindNeedle(s, n + i) == Later(FindNeedle(t, i), n)
    decreases |t| - i
  {
    NeedleBehind(s, n, t, i);
    if i + 6 <= |t| && !NeedleAt(t, i) {
      FindNeedleBehind(s, n, t, i + 1);
    }
  }

  lemma {:induction false} FindNeedleSkips(s: seq<Byte>, i: nat, n: nat)
    requires i <= n <= |s| && forall x :: i <= x < n ==> !NeedleAt(s, x)
    ensures FindNeedle(s, i) == FindNeedle(s, n)
    decreases n - i
  {
    if i < n {
      FindNeedleSkips(s, i + 1, n);
    }
  }

  lemma NameBehindFirst(s: seq<Byte>, n: Positive)
    requires s != [] && n == Next(s).len && Next(s).Good? && !NameAt(s, 0)
    ensures FindName(s, 0) == Later(FindName(s[n..], 0), n)
  {
    forall x | 0 <= x < n ensures !NameAt(s, x) {
      if x > 0 {
        GoodBytes(s, x);
      }
    }
    FindNameSkips(s, 0, n);
    FindNameBehind(s, n, s[n..], 0);
  }

  lemma NeedleStart(s: seq<Byte>, i: nat)
    requires NeedleAt(s, i)
    ensures s[i] == LF && s[i + 1] == 104
  {
    assert s[i..i + 6][0] == s[i] && s[i..i + 6][1] == s[i + 1];
  }

  lemma NoNeedleInside(c: seq<Byte>, lower: seq<Byte>, m: Positive, x: nat)
    requires x < m <= |lower| && LowerImage(c, lower[..m])
    ensures !NeedleAt(lower, x)
  {
    var image := lower[..m];
    assert image[x] == lower[x] && image[x] in image;
    if NeedleAt(lower, x) {
      NeedleStart(lower, x);
    }
  }

  lemma NeedleBehindFirst(c: seq<Byte>, lower: seq<Byte>, m: Positive)
    requires c != [] && m <= |lower| && !NeedleAt(lower, 0)
    requires if c[0] < 0x80 then |lower[..m]| == 1 else LowerImage(c, lower[..m])
    ensures FindNeedle(lower, 0) == Later(FindNeedle(lower[m..], 0), m)
  {
    forall x | 0 <= x < m ensures !NeedleAt(lower, x) {
      if c[0] >= 0x80 {
        NoNeedleInside(c, lower, m, x);
      }
    }
    FindNeedleSkips(lower, 0, m);
    FindNeedleBehind(lower, m, lower[m..], 0);
  }

  /** The first name and the first needle, if any, and lower case in front of them. */
  ghost predicate NameFound(s: seq<Byte>, lower: seq<Byte>, name: Option<nat>, needle: Option<nat>) {
    match name
    case Some(k) => needle.Some? && k <= |s| && needle.value <= |lower| && LowerOf(s[..k], lower[..needle.value])
    case None => needle.None?
  }

  lemma NoneInNothing(s: seq<Byte>, lower: seq<Byte>)
    requires s == [] && LowerOf(s, lower)
    ensures FindName(s, 0).None? && FindNeedle(lower, 0).None?
  {
  }

  lemma FoundAtOnce(s: seq<Byte>, lower: seq<Byte>)
    requires NeedleAt(lower, 0) && NameAt(s, 0)
    ensures NameFound(s, lower, FindName(s, 0), FindNeedle(lower, 0))
  {
    assert s[..0] == [] && lower[..0] == [];
  }

  /**
   * The text has the name if and only if the lower-case text has the needle, and the first needle stands where
   * the lower case of what is in front of the first name ends.
   */
  lemma {:induction false} NameInLower(s: seq<Byte>, lower: seq<Byte>)
    requires Valid(s) && LowerOf(s, lower)
    ensures NameFound(s, lower, FindName(s, 0), FindNeedle(lower, 0))
    decreases |s|
  {
    if s == [] {
      NoneInNothing(s, lower);
    } else {
      NameInFront(s, lower);
      if NameAt(s, 0) {
        FoundAtOnce(s, lower);
      } else {
        var n, m := FirstImage(s, lower);
        NameBehindFirst(s, n);
        NeedleBehindFirst(s[..n], lower, m);
        NameInLower(s[n..], lower[m..]);
        FoundLater(s, lower, n, m, s[n..], lower[m..], FindName(s[n..], 0), FindNeedle(lower[m..], 0));
      }
    }
  }

  lemma TakeBehind(s: seq<Byte>, n: Positive, s': seq<Byte>, k: nat)
    requires n <= |s| && s' == s[n..] && k <= |s'|
    ensures s[..n + k] == s[..n] + s'[..k]
  {
  }

  lemma FoundLater(s: seq<Byte>, lower: seq<Byte>, n: Positive, m: Positive,
      s': seq<Byte>, lower': seq<Byte>, name: Option<nat>, needle: Option<nat>)
    requires n <= |s| && m <= |lower| && s' == s[n..] && lower' == lower[m..] && Next(s[..n]) == Good(n)
    requires if s[0] < 0x80 then lower[..m] == [Lower(s[0])] else LowerImage(s[..n], lower[..m])
    requires NameFound(s', lower', name, needle)
    ensures NameFound(s, lower, Later(name, n), Later(needle, m))
  {
    if name.Some? {
      var k, j := name.value, needle.value;
      TakeBehind(s, n, s', k);
      TakeBehind(lower, m, lower', j);
      LowerBehind(s[..n], lower[..m], s'[..k], lower'[..j]);
    }
  }

  lemma LowerBehind(c: seq<Byte>, image: seq<Byte>, s: seq<Byte>, lower: seq<Byte>)
    requires c != [] && Next(c) == Good(|c|) && LowerOf(s, lower)
    requires if c[0] < 0x80 then image == [Lower(c[0])] else LowerImage(c, image)
    ensures LowerOf(c + s, image + lower)
  {
    LowerStep(c + s, image + lower, c, image, s, lower);
  }

  // ---------- What the mixed-case mode does ----------

  /** The text with the four bytes behind the line feed at `k` replaced. */
  function Renamed(s: seq<Byte>, k: nat, variant: seq<Byte>): seq<Byte>
    requires k + 5 <= |s|
  {
    s[..k + 1] + variant + s[k + 5..]
  }

  /** Whatever is drawn, it replaces the name at `k`. */
  ghost predicate RenamesAt(s: seq<Byte>, lower: seq<Byte>, k: nat) {
    && k + 5 <= |s|
    && forall draw :: 0 <= draw < |VARIANTS| ==>
         RenameHost(s, lower, VARIANTS[draw]) == Ok(Renamed(s, k, VARIANTS[draw]))
  }

  lemma NameBoundaries(s: seq<Byte>, k: nat)
    requires NameAt(s, k)
    ensures CharBoundary(s, k + 1) && CharBoundary(s, k + 5)
  {
    var h := s[k + 1..k + 5];
    FourLetters(h);
    assert h[0] == s[k + 1];
  }

  lemma RenamedByte(s: seq<Byte>, k: nat, v: seq<Byte>)
    requires k + 5 <= |s| && |v| == 4
    ensures |Renamed(s, k, v)| == |s| && Renamed(s, k, v)[k + 1] == v[0]
  {
  }

  lemma EarlierByte(s: seq<Byte>, k: nat, v: seq<Byte>, at: nat)
    requires k + 5 <= |s| && |v| == 4 && at <= k
    ensures |Renamed(s, k, v)| == |s| && Renamed(s, k, v)[at] == s[at]
  {
  }

  /** Another offset shows up in the first byte that either of them changes. */
  lemma OtherOffset(s: seq<Byte>, j: nat, k: nat, v: seq<Byte>, w: seq<Byte>)
    requires j != k && j + 5 <= |s| && k + 5 <= |s| && |v| == 4 && |w| == 4 && v[0] != w[0]
    ensures Renamed(s, j, v) != Renamed(s, k, v) || Renamed(s, j, w) != Renamed(s, k, w)
  {
    var first, second := if j < k then j else k, if j < k then k else j;
    RenamedByte(s, first, v);
    RenamedByte(s, first, w);
    EarlierByte(s, second, v, first + 1);
    EarlierByte(s, second, w, first + 1);
  }

  lemma OnlyAtTheNeedle(s: seq<Byte>, lower: seq<Byte>, k: nat)
    requires RenamesAt(s, lower, k) && FindNeedle(lower, 0).Some?
    ensures FindNeedle(lower, 0).value == k
  {
    var j := FindNeedle(lower, 0).value;
    assert RenameHost(s, lower, VARIANTS[0]) == Ok(Renamed(s, k, VARIANTS[0]));
    assert RenameHost(s, lower, VARIANTS[1]) == Ok(Renamed(s, k, VARIANTS[1]));
    if j != k {
      OtherOffset(s, j, k, VARIANTS[0], VARIANTS[1]);
    }
  }

  /**
   * The mode replaces the name, and nothing else, whatever it draws, if and only if the text in front of the
   * name takes as many bytes in lower case. Without a name the text stays.
   */
  lemma RenamesOnlyTheName(s: seq<Byte>, lower: seq<Byte>)
    requires Valid(s) && LowerOf(s, lower)
    ensures match FindName(s, 0)
            case None => forall variant :: RenameHost(s, lower, variant) == Ok(s)
            case Some(k) =>
              && FindNeedle(lower, 0).Some? && FindNeedle(lower, 0).value <= |lower|
              && LowerOf(s[..k], lower[..FindNeedle(lower, 0).value])
              && (RenamesAt(s, lower, k) <==> FindNeedle(lower, 0).value == k)
  {
    NameInLower(s, lower);
    if FindName(s, 0).Some? {
      var k := FindName(s, 0).value;
      NameBoundaries(s, k);
      if RenamesAt(s, lower, k) {
        OnlyAtTheNeedle(s, lower, k);
      }
    }
  }

  /** With nothing but ASCII in front of the name the two offsets agree. */
  lemma AsciiAligned(s: seq<Byte>, lower: seq<Byte>)
    requires Valid(s) && LowerOf(s, lower)
    requires FindName(s, 0).Some? ==> Ascii(s[..FindName(s, 0).value])
    ensures Aligned(s, lower)
  {
    NameInLower(s, lower);
    if FindName(s, 0).Some? {
      AsciiLength(s[..FindName(s, 0).value], lower[..FindNeedle(lower, 0).value]);
    }
  }

  // ---------- Elsewhere ----------

  /** Where the offsets differ: only case changes if and only if the text has the word there too. */
  lemma ReplacesWhatIsThere(s: seq<Byte>, lower: seq<Byte>, variant: seq<Byte>, j: nat)
    requires FindNeedle(lower, 0) == Some(j) && EqIgnoreCase(variant, HOST)
    ensures RenameHost(s, lower, variant).Err? <==> !CharBoundary(s, j + 1) || !CharBoundary(s, j + 5)
    ensures RenameHost(s, lower, variant).Ok? ==>
              && j + 5 <= |s|
              && (EqIgnoreCase(RenameHost(s, lower, variant).value, s) <==> EqIgnoreCase(s[j + 1..j + 5], HOST))
  {
    if RenameHost(s, lower, variant).Ok? {
      WindowCase(s, s[..j + 1] + variant + s[j + 5..], j + 1, variant);
    }
  }

  lemma WindowCase(s: seq<Byte>, e: seq<Byte>, at: nat, word: seq<Byte>)
    requires at + 4 <= |s| && |word| == 4 && EqIgnoreCase(word, HOST) && e == s[..at] + word + s[at + 4..]
    ensures EqIgnoreCase(e, s) <==> EqIgnoreCase(s[at..at + 4], HOST)
  {
    var w := s[at..at + 4];
    assert e[at..at + 4] == word;
    if EqIgnoreCase(e, s) {
      SameWindowCase(e, s, at, word, w);
    }
    if EqIgnoreCase(w, HOST) {
      forall i | 0 <= i < |s| ensures Lower(e[i]) == Lower(s[i]) {
        if at <= i < at + 4 {
          assert Lower(w[i - at]) == Lower(HOST[i - at]) == Lower(word[i - at]);
        }
      }
    }
  }

  lemma SameWindowCase(e: seq<Byte>, s: seq<Byte>, at: nat, v: seq<Byte>, w: seq<Byte>)
    requires EqIgnoreCase(e, s) && at + 4 <= |s| && v == e[at..at + 4] && w == s[at..at + 4] && EqIgnoreCase(v, HOST)
    ensures EqIgnoreCase(w, HOST)
  {
    forall i | 0 <= i < 4 ensures Lower(w[i]) == Lower(HOST[i]) {
      assert v[i] == e[at + i] && w[i] == s[at + i] && Lower(v[i]) == Lower(HOST[i]);
    }
  }
}
