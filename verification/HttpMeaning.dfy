/** A rewritten request parses to the same method and host, or exactly when it does not. */
module HttpMeaning {
  import opened Bytes
  import opened Types
  import opened Utf8
  import opened HttpParser
  import opened HttpLines
  import opened HttpHost
  import opened HttpHostProps

  // ---------- Rewritten lines are lines ----------

  lemma {:induction false} TrimStartWindow(s: seq<Byte>) returns (i: nat)
    ensures i <= |s| && TrimStart(s) == s[i..]
  {
    var n := WhiteFront(s);
    if n > 0 {
      var j := TrimStartWindow(s[n..]);
      i := j + n;
      assert s[n..][j..] == s[i..];
    } else {
      i := 0;
    }
  }

  /** One line of valid text. */
  predicate Plain(s: seq<Byte>) {
    Valid(s) && OneLine(s)
  }

  lemma WindowOneLine(s: seq<Byte>, i: nat, j: nat)
    requires OneLine(s) && i <= j <= |s|
    ensures OneLine(s[i..j])
  {
    forall k | 0 <= k < j - i ensures !CrlfAt(s[i..j], k) {
      assert !CrlfAt(s, i + k);
    }
  }

  lemma {:induction false} TrimStartValid(s: seq<Byte>)
    requires Valid(s)
    ensures Valid(TrimStart(s))
  {
    if WhiteFront(s) > 0 {
      assert Next(s) == Good(WhiteFront(s));
      TrimStartValid(s[WhiteFront(s)..]);
    }
  }

  lemma {:induction false} TrimEndValid(s: seq<Byte>)
    requires Valid(s)
    ensures Valid(TrimEnd(s))
  {
    var n := WhiteBack(s);
    if n > 0 {
      var t, w := s[..|s| - n], s[|s| - n..];
      assert s == t + w;
      ValidJoined(t, w);
      TrimEndValid(t);
    }
  }

  lemma TrimOneLine(s: seq<Byte>)
    requires OneLine(s)
    ensures OneLine(Trim(s))
  {
    var i := TrimStartWindow(s);
    WindowOneLine(s, i, |s|);
    assert s[i..] == s[i..|s|];
    var t := TrimStart(s);
    EndIsDark(t);
    WindowOneLine(t, 0, |TrimEnd(t)|);
    assert TrimEnd(t) == t[0..|TrimEnd(t)|];
  }

  lemma TrimPlain(s: seq<Byte>)
    requires Plain(s)
    ensures Plain(Trim(s))
  {
    TrimOneLine(s);
    TrimStartValid(s);
    TrimEndValid(TrimStart(s));
  }

  lemma FrontPlain(front: seq<Byte>, v: seq<Byte>)
    requires Ascii(front) && (forall i :: 0 <= i < |front| ==> front[i] != CR) && Plain(v)
    ensures Plain(front + v)
  {
    var s := front + v;
    AsciiInFront(front, v);
    forall i | 0 <= i < |s| ensures !CrlfAt(s, i) {
      if i >= |front| {
        assert s[i] == v[i - |front|] && !CrlfAt(v, i - |front|);
      }
    }
  }

  predicate AllPlain(ls: seq<seq<Byte>>) {
    ls == [] || (Plain(ls[0]) && AllPlain(ls[1..]))
  }

  lemma {:induction false} AllPlainAppend(a: seq<seq<Byte>>, b: seq<seq<Byte>>)
    requires AllPlain(a) && AllPlain(b)
    ensures AllPlain(a + b)
  {
    if a == [] {
      assert a + b == b;
    } else {
      assert (a + b)[1..] == a[1..] + b;
      AllPlainAppend(a[1..], b);
    }
  }

  lemma NameIsAscii(name: seq<Byte>, gap: seq<Byte>)
    requires EqIgnoreCase(name, HOST) && forall i :: 0 <= i < |gap| ==> gap[i] == SPACE || gap[i] == TAB
    ensures Ascii(name + [COLON] + gap)
  {
    var s := name + [COLON] + gap;
    forall i | 0 <= i < |s| ensures AsciiAt(s, i) {
      assert i < 4 ==> s[i] == name[i] && Lower(name[i]) == Lower(HOST[i]);
    }
  }

  lemma NewLinePlain(name: seq<Byte>, gap: seq<Byte>, v: seq<Byte>)
    requires EqIgnoreCase(name, HOST) && Plain(v)
    requires forall i :: 0 <= i < |gap| ==> gap[i] == SPACE || gap[i] == TAB
    ensures Plain(name + [COLON] + gap + v)
  {
    NameBytes(name);
    NameIsAscii(name, gap);
    FrontPlain(name + [COLON] + gap, v);
  }

  lemma TextPlain(line: seq<Byte>, c: nat)
    requires Plain(line) && c < |line| && line[c] == COLON
    ensures Plain(Trim(line[c + 1..]))
  {
    BehindColon(line, c);
    WindowOneLine(line, c + 1, |line|);
    assert line[c + 1..|line|] == line[c + 1..];
    TrimPlain(line[c + 1..]);
  }

  lemma FormatPlain(mode: Mode, line: seq<Byte>)
    requires Plain(line) && HostColon(line).Some?
    ensures AllPlain(FormatLine(mode, line, HostColon(line).value))
  {
    var c := HostColon(line).value;
    TextPlain(line, c);
    NewLinesPlain(mode, line[..c], Trim(line[c + 1..]));
  }

  lemma NewLinesPlain(mode: Mode, name: seq<Byte>, value: seq<Byte>)
    requires EqIgnoreCase(name, HOST) && Plain(value)
    ensures AllPlain(Format(mode, name, value))
  {
    match mode {
      case LineWrapping =>
        NewLinePlain(name, [], []);
        assert name + [COLON] + [] + [] == name + [COLON];
        FrontPlain([SPACE], value);
        TwoPlain(name + [COLON], [SPACE] + value);
      case DuplicateHeader =>
        NewLinePlain(name, Gap(mode), value);
        DecoyPlain();
        TwoPlain(name + [COLON] + Gap(mode) + value, DECOY);
      case _ =>
        NewLinePlain(name, Gap(mode), value);
        OnePlain(name + [COLON] + Gap(mode) + value);
    }
  }

  lemma OnePlain(a: seq<Byte>)
    requires Plain(a)
    ensures AllPlain([a])
  {
    assert [a][1..] == [];
  }

  lemma TwoPlain(a: seq<Byte>, b: seq<Byte>)
    requires Plain(a) && Plain(b)
    ensures AllPlain([a, b])
  {
    OnePlain(b);
    assert [a, b][1..] == [b];
  }

  lemma DecoyPlain()
    ensures Plain(DECOY)
  {
    assert CR !in DECOY && forall i :: 0 <= i < |DECOY| ==> AsciiAt(DECOY, i);
    AsciiValid(DECOY);
  }

  lemma {:induction false} RewritePlain(mode: Mode, ls: seq<seq<Byte>>)
    requires AllPlain(ls)
    ensures AllPlain(RewriteLines(mode, ls))
  {
    if ls == [] {
    } else {
      if HostColon(ls[0]).Some? {
        FormatPlain(mode, ls[0]);
        AllPlainAppend(FormatLine(mode, ls[0], HostColon(ls[0]).value), ls[1..]);
      } else {
        RewritePlain(mode, ls[1..]);
        assert ([ls[0]] + RewriteLines(mode, ls[1..]))[1..] == RewriteLines(mode, ls[1..]);
      }
    }
  }

  lemma CrlfInFront(s: seq<Byte>)
    ensures Valid(CRLF + s) <==> Valid(s)
  {
    assert (CRLF + s)[1..] == [LF] + s && ([LF] + s)[1..] == s;
  }

  /** The lines of a text are valid when the text is. */
  lemma {:induction false} PlainLines(ls: seq<seq<Byte>>)
    requires |ls| >= 1 && AllOneLine(ls)
    ensures AllPlain(ls) <==> Valid(JoinLines(ls))
  {
    if |ls| == 1 {
      assert ls[1..] == [];
    } else {
      PlainLines(ls[1..]);
      CrlfInFront(JoinLines(ls[1..]));
      ValidJoined(ls[0], CRLF + JoinLines(ls[1..]));
    }
  }

  lemma {:induction false} PlainIsOneLine(ls: seq<seq<Byte>>)
    requires AllPlain(ls)
    ensures AllOneLine(ls) && ValidLines(ls)
  {
    if ls == [] {
    } else {
      PlainIsOneLine(ls[1..]);
    }
  }

  // ---------- The request line ----------

  /** A method word: no line end, no colon, and unlike `Host`. */
  predicate MethodWord(m: seq<Byte>) {
    && |m| >= 4 && CR !in m && LF !in m && COLON !in m && (|m| == 4 ==> Lower(m[0]) != Lower(HOST[0]))
  }

  predicate MethodWords(ms: seq<seq<Byte>>) {
    ms == [] || (MethodWord(ms[0]) && MethodWords(ms[1..]))
  }

  lemma {:induction false} MethodsAreWords(ms: seq<seq<Byte>>)
    requires forall i :: 0 <= i < |ms| ==> MethodWord(ms[i])
    ensures MethodWords(ms)
  {
    if ms == [] {
    } else {
      MethodsAreWords(ms[1..]);
    }
  }

  lemma TheMethods()
    ensures MethodWords(METHODS)
  {
    MethodsAreWords(METHODS);
  }

  /** A word without a carriage return that starts the buffer lies within its first line. */
  lemma WordInLine(m: seq<Byte>, line: seq<Byte>, tail: seq<Byte>)
    requires CR !in m
    ensures m <= line + (CRLF + tail) <==> m <= line
  {
    var d := line + (CRLF + tail);
    assert d[|line|] == CR;
    if m <= d {
      assert forall i :: 0 <= i < |m| ==> m[i] == d[i];
    }
  }

  lemma {:induction false} MethodOfLine(ms: seq<seq<Byte>>, line: seq<Byte>, tail: seq<Byte>)
    requires MethodWords(ms)
    ensures FirstMethod(ms, line + (CRLF + tail)) == FirstMethod(ms, line)
    ensures FirstMethod(ms, line).Some? ==>
              MethodWord(FirstMethod(ms, line).value) && FirstMethod(ms, line).value <= line
  {
    if ms == [] {
    } else {
      WordInLine(ms[0], line, tail);
      MethodOfLine(ms[1..], line, tail);
    }
  }

  lemma RequestLineIsNoHost(m: seq<Byte>, line: seq<Byte>)
    requires MethodWord(m) && m <= line
    ensures HostColon(line) == None
  {
    assert forall i :: 0 <= i < |m| ==> line[i] == m[i];
    if Colon(line).Some? {
      var name := line[..Colon(line).value];
      if |name| == 4 {
        NotTheName(name);
      }
    }
  }

  lemma NotTheName(name: seq<Byte>)
    requires |name| == 4 && Lower(name[0]) != Lower(HOST[0])
    ensures !EqIgnoreCase(name, HOST)
  {
  }

  // ---------- The meaning of a rewritten request ----------

  predicate Names(d: seq<Byte>, verb: seq<Byte>, host: seq<Byte>) {
    var r := ParseHttp(d);
    r.Some? && r.value.HttpRequest? && r.value.verb == verb && r.value.host == Some(host)
  }

  /** A parsed request with a host, as lines. */
  lemma RequestAsLines(d: seq<Byte>, verb: seq<Byte>, host: seq<Byte>)
    requires Valid(d) && Names(d, verb, host)
    ensures var ls := Lines(d);
            && |ls| >= 2 && d == JoinLines(ls) && AllPlain(ls) && HostColon(ls[0]) == None
            && FirstMethod(METHODS, ls[0]).Some? && verb == Verb(FirstMethod(METHODS, ls[0]).value)
            && HostOfLines(ls[1..]) == Some(host)
  {
    var ls := Lines(d);
    LinesJoin(d);
    PlainLines(ls);
    PlainIsOneLine(ls);
    HostOfRequest(d, ls);
    TheMethods();
    MethodOfLine(METHODS, ls[0], JoinLines(ls[1..]));
    RequestLineIsNoHost(FirstMethod(METHODS, ls[0]).value, ls[0]);
  }

  lemma {:induction false} LinesAsRequest(ls: seq<seq<Byte>>, host: seq<Byte>)
    requires |ls| >= 2 && AllPlain(ls) && FirstMethod(METHODS, ls[0]).Some? && HostOfLines(ls[1..]) == Some(host)
    ensures Names(JoinLines(ls), Verb(FirstMethod(METHODS, ls[0]).value), host)
  {
    PlainIsOneLine(ls);
    HostOfRequest(JoinLines(ls), ls);
    TheMethods();
    MethodOfLine(METHODS, ls[0], JoinLines(ls[1..]));
  }

  /**
   * Rewriting the Host line of a request in valid text always leaves a request with the same method. With
   * more white space or a decoy the host is the same exactly when it was not empty or nothing else
   * stands on the Host line; line wrapping always hides it.
   */
  lemma RewrittenRequest(mode: Mode, d: seq<Byte>, verb: seq<Byte>, host: seq<Byte>)
    returns (text: seq<Byte>)
    requires Valid(d) && Names(d, verb, host) && !mode.MixedCase?
    ensures TextOf(Lines(d)) == Some(text)
    ensures Names(Reformatted(mode, d), verb, ReadBack(mode, text))
    ensures !mode.LineWrapping? ==> (ReadBack(mode, text) == host <==> host != [] || Trim(text) == [])
    ensures mode.LineWrapping? ==> ReadBack(mode, text) == []
  {
    var ls := Lines(d);
    RequestAsLines(d, verb, host);
    text := HostReadBack(mode, ls[1..], host);
    RewrittenLines(mode, ls, text);
  }

  /** What the rewritten lines say. */
  lemma RewrittenLines(mode: Mode, ls: seq<seq<Byte>>, text: seq<Byte>)
    requires !mode.MixedCase? && |ls| >= 2 && AllPlain(ls) && HostColon(ls[0]) == None
    requires FirstMethod(METHODS, ls[0]).Some? && HostOfLines(ls[1..]).Some? && TextOf(ls[1..]) == Some(text)
    ensures Names(JoinLines(RewriteLines(mode, ls)), Verb(FirstMethod(METHODS, ls[0]).value), ReadBack(mode, text))
  {
    RewritePlain(mode, ls);
    RewrittenHost(mode, ls[1..]);
    var rs := RewriteLines(mode, ls);
    assert rs[1..] == RewriteLines(mode, ls[1..]);
    LinesAsRequest(rs, ReadBack(mode, text));
  }

  lemma HostReadBack(mode: Mode, ls: seq<seq<Byte>>, host: seq<Byte>) returns (text: seq<Byte>)
    requires !mode.MixedCase? && HostOfLines(ls) == Some(host)
    ensures TextOf(ls) == Some(text)
    ensures !mode.LineWrapping? ==> (ReadBack(mode, text) == host <==> host != [] || Trim(text) == [])
  {
    RewrittenHost(mode, ls);
    text := TextOf(ls).value;
    TextSurvivesTrim(text);
  }

  /** When carriage returns stand only in line ends, nothing is lost. */
  lemma CleanRequestKeepsHost(mode: Mode, d: seq<Byte>, verb: seq<Byte>, host: seq<Byte>)
    requires Valid(d) && Names(d, verb, host)
    requires mode.ExtraSpace? || mode.Tab? || mode.DuplicateHeader?
    requires forall i :: 0 <= i < |Lines(d)| ==> CR !in Lines(d)[i]
    ensures Names(Reformatted(mode, d), verb, host)
  {
    var text := RewrittenRequest(mode, d, verb, host);
    RequestAsLines(d, verb, host);
    RewrittenHost(mode, Lines(d)[1..]);
    TextHasNoCr(Lines(d), text);
    assert text[..CrIn(text)] == text;
  }

  lemma {:induction false} TextHasNoCr(ls: seq<seq<Byte>>, text: seq<Byte>)
    requires TextOf(ls) == Some(text) && forall i :: 0 <= i < |ls| ==> CR !in ls[i]
    ensures CrIn(text) == |text|
  {
    if HostColon(ls[0]).None? {
      TextHasNoCr(ls[1..], text);
    }
  }
}
