/** The words and characters of an HTTP request, as texts and code points. */
module HttpWords {
  import opened Bytes
  import opened Types
  import opened Utf8
  import opened Utf8Chars
  import opened HttpParser
  import opened HttpLines
  import opened HttpHost
  import opened HttpHostProps
  import HttpCase

  // ---------- The request line ----------

  /** The methods, each with the space after it. */
  function Words(): seq<seq<Byte>> {
    [Text("GET "), Text("POST "), Text("PUT "), Text("DELETE "), Text("HEAD "), Text("OPTIONS "), Text("PATCH "),
     Text("CONNECT ")]
  }

  lemma MethodsAreWords()
    ensures METHODS == Words()
  {
    assert METHODS[0] == Text("GET ") && METHODS[1] == Text("POST ") && METHODS[2] == Text("PUT ");
    assert METHODS[3] == Text("DELETE ") && METHODS[4] == Text("HEAD ") && METHODS[5] == Text("OPTIONS ");
    assert METHODS[6] == Text("PATCH ") && METHODS[7] == Text("CONNECT ");
  }

  lemma {:induction false} SomeMethod(ms: seq<seq<Byte>>, d: seq<Byte>)
    ensures FirstMethod(ms, d).Some? <==> exists m :: m in ms && m <= d
    ensures FirstMethod(ms, d).Some? ==> FirstMethod(ms, d).value in ms && FirstMethod(ms, d).value <= d
  {
    if ms == [] {
    } else {
      SomeMethod(ms[1..], d);
      assert ms == [ms[0]] + ms[1..];
      if FirstMethod(ms, d).Some? {
        var m := FirstMethod(ms, d).value;
        assert m in ms && m <= d;
      }
    }
  }

  /** A payload is a request if and only if it starts with one of eight words and a space; the word is the method. */
  lemma RequestByWord(d: seq<Byte>)
    ensures ParseHttp(d).Some? <==> exists m :: m in Words() && m <= d
    ensures ParseHttp(d).Some? ==>
              && ParseHttp(d).value.HttpRequest?
              && ParseHttp(d).value.verb + Text(" ") in Words() && ParseHttp(d).value.verb + Text(" ") <= d
  {
    MethodsAreWords();
    SomeMethod(METHODS, d);
    if ParseHttp(d).Some? {
      WordAndSpace(FirstMethod(METHODS, d).value);
    }
  }

  lemma WordAndSpace(m: seq<Byte>)
    requires m in METHODS
    ensures Verb(m) + Text(" ") == m
  {
    assert m[|m| - 1] == 32;
    assert Text(" ") == [32];
  }

  // ---------- The Host header ----------

  /** A line of `d` at `p` with the name of the header in any case, a colon, spaces, and the value `d[from..end]`. */
  predicate HostField(d: seq<Byte>, p: nat, from: nat, end: nat) {
    && 2 <= p && p + 5 <= from <= end <= |d| && d[p - 2] == 13 && d[p - 1] == 10
    && EqIgnoreCase(d[p..p + 4], Text("host")) && d[p + 4] == 58
    && (forall i :: p + 5 <= i < from ==> d[i] == 32)
    && (from < end ==> d[from] != 32)
    && (forall i :: from <= i < end ==> d[i] != 13) && (end < |d| ==> d[end] == 13)
  }

  lemma HostIsText()
    ensures HOST == Text("Host")
    ensures forall s :: EqIgnoreCase(s, HOST) <==> EqIgnoreCase(s, Text("host"))
  {
    var t := Text("host");
    assert t == [104, 111, 115, 116];
    forall s ensures EqIgnoreCase(s, HOST) <==> EqIgnoreCase(s, t) {
      SameUpToCase(s, HOST, t);
    }
  }

  lemma SameUpToCase(s: seq<Byte>, a: seq<Byte>, b: seq<Byte>)
    requires EqIgnoreCase(a, b)
    ensures EqIgnoreCase(s, a) <==> EqIgnoreCase(s, b)
  {
  }

  lemma {:induction false} HeaderEndIsFirst(d: seq<Byte>, pos: nat)
    requires pos <= |d|
    ensures forall i :: pos <= i < HeaderEnd(d, pos) ==> d[i] != 13
    ensures HeaderEnd(d, pos) < |d| ==> d[HeaderEnd(d, pos)] == 13
    decreases |d| - pos
  {
    if pos < |d| && d[pos] != CR {
      HeaderEndIsFirst(d, pos + 1);
    }
  }

  lemma {:induction false} SpacesInFront(s: seq<Byte>)
    ensures forall i :: 0 <= i < Spaces(s) ==> s[i] == 32
    ensures Spaces(s) < |s| ==> s[Spaces(s)] != 32
  {
    if s != [] && s[0] == SPACE {
      var t := s[1..];
      SpacesInFront(t);
      forall i | 0 <= i < Spaces(s) ensures s[i] == 32 {
        assert i > 0 ==> s[i] == t[i - 1];
      }
    }
  }

  /** What is found stands in a header line of the text, and its offset is where the value starts. */
  lemma HostWhereFound(d: seq<Byte>) returns (p: nat, end: nat)
    requires ParseHttp(d).Some? && ParseHttp(d).value.host.Some?
    ensures HostField(d, p, ParseHttp(d).value.hostOffset, end)
    ensures Valid(d[ParseHttp(d).value.hostOffset..end])
    ensures ParseHttp(d).value.host.value == Trim(d[ParseHttp(d).value.hostOffset..end])
  {
    var start := AfterLine(d, 0);
    p := HttpCase.HostPosition(d, start).value;
    HttpCase.AfterLineFollowsLine(d, 0);
    HttpCase.HostPositionFollowsLine(d, start, p);
    HttpCase.FoundName(d, p);
    FoundAtPosition(d, start);
    end := HeaderAt(d, p).end;
    FieldHere(d, p, end);
  }

  lemma {:induction false} FoundAtPosition(d: seq<Byte>, pos: nat)
    requires HttpCase.HostPosition(d, pos).Some?
    ensures var h := HeaderAt(d, HttpCase.HostPosition(d, pos).value);
            FindHost(d, pos) == Some(FieldOf(d, h.from, h.end))
    decreases |d| - pos
  {
    if HeaderAt(d, pos).Other? {
      FoundAtPosition(d, HeaderAt(d, pos).next);
    }
  }

  lemma FieldHere(d: seq<Byte>, p: nat, end: nat)
    requires 2 <= p && CrlfAt(d, p - 2) && HeaderAt(d, p).Found? && end == HeaderAt(d, p).end
    ensures HostField(d, p, FieldOf(d, HeaderAt(d, p).from, end).offset, end)
  {
    var from := p + 5;
    HttpCase.FoundName(d, p);
    HeaderEndIsFirst(d, p);
    HostIsText();
    var s := d[from..end];
    SpacesInFront(s);
    var at := from + Spaces(s);
    forall i | from <= i < at ensures d[i] == 32 {
      assert d[i] == s[i - from];
    }
    assert at < end ==> d[at] == s[at - from];
  }

  /** A line with the Host header: the name in any case, a colon, and the value. */
  predicate IsHostLine(line: seq<Byte>) {
    |line| >= 5 && EqIgnoreCase(line[..4], Text("host")) && line[4] == 58
  }

  lemma HostColonByBytes(line: seq<Byte>)
    ensures HostColon(line) == if IsHostLine(line) then Some(4) else None
  {
    HostIsText();
    if IsHostLine(line) {
      NameBytes(line[..4]);
      ColonAfterName(line[..4], line[5..], line);
    } else if HostColon(line).Some? {
      NameBytes(line[..HostColon(line).value]);
    }
  }

  /** Header lines that are not the Host header, whole and not empty. */
  predicate OtherHeaders(ls: seq<seq<Byte>>) {
    ls == [] || (ls[0] != [] && CR !in ls[0] && !IsHostLine(ls[0]) && OtherHeaders(ls[1..]))
  }

  lemma NoCr(line: seq<Byte>)
    requires CR !in line
    ensures CrIn(line) == |line| && line[..CrIn(line)] == line
  {
    CrIsFirst(line, |line|);
  }

  lemma {:induction false} OthersPassed(front: seq<seq<Byte>>, more: seq<seq<Byte>>)
    requires OtherHeaders(front) && more != []
    ensures HostOfLines(front + more) == HostOfLines(more)
  {
    if front == [] {
      assert front + more == more;
    } else {
      NoCr(front[0]);
      HostColonByBytes(front[0]);
      assert (front + more)[1..] == front[1..] + more;
      OthersPassed(front[1..], more);
    }
  }

  lemma HostLineRead(line: seq<Byte>, back: seq<seq<Byte>>)
    requires IsHostLine(line) && CR !in line
    ensures HostOfLines([line] + back) == Some(Trim(line[5..]))
  {
    NoCr(line);
    HostColonByBytes(line);
  }

  lemma BlankLineEnds(back: seq<seq<Byte>>)
    ensures HostOfLines([[]] + back) == None
  {
  }

  /**
   * The host of a request is the value of its first Host line, if no empty line stands before it; what an empty
   * line ends has none.
   */
  lemma RequestWithHost(
      d: seq<Byte>, first: seq<Byte>, front: seq<seq<Byte>>, line: seq<Byte>, back: seq<seq<Byte>>, m: seq<Byte>)
    requires m in Words() && m <= first && OtherHeaders(front) && CR !in line && (IsHostLine(line) || line == [])
    requires var ls := [first] + (front + ([line] + back)); ValidLines(ls) && AllOneLine(ls) && d == JoinLines(ls)
    ensures ParseHttp(d).Some? && ParseHttp(d).value.host == if line == [] then None else Some(Trim(line[5..]))
  {
    var headers := front + ([line] + back);
    var ls := [first] + headers;
    assert ls[1..] == headers;
    HostOfRequest(d, ls);
    OthersPassed(front, [line] + back);
    if line == [] {
      BlankLineEnds(back);
    } else {
      HostLineRead(line, back);
    }
    assert m <= d;
    RequestByWord(d);
  }

  // ---------- The rewritten line ----------

  lemma RewritingWords()
    ensures Text(":") == [COLON] && Text(" ") == [SPACE] && Text(": ") == [COLON, SPACE]
    ensures Text(":   ") == [COLON, SPACE, SPACE, SPACE] && Text(":\t") == [COLON, TAB]
    ensures Text("Host: decoy.invalid") == DECOY
  {
  }

  /** The lines a mode writes for a name and a value. */
  function Written(mode: Mode, name: seq<Byte>, value: seq<Byte>): seq<seq<Byte>>
    requires !mode.MixedCase?
  {
    match mode
    case ExtraSpace => [name + Text(":   ") + value]
    case Tab => [name + Text(":\t") + value]
    case LineWrapping => [name + Text(":"), Text(" ") + value]
    case DuplicateHeader => [name + Text(": ") + value, Text("Host: decoy.invalid")]
  }

  lemma FormatsAreWritten(mode: Mode, name: seq<Byte>, value: seq<Byte>)
    requires !mode.MixedCase?
    ensures Format(mode, name, value) == Written(mode, name, value)
  {
    RewritingWords();
    match mode {
      case ExtraSpace => assert name + [COLON] + [SPACE, SPACE, SPACE] == name + [COLON, SPACE, SPACE, SPACE];
      case Tab => assert name + [COLON] + [TAB] == name + [COLON, TAB];
      case DuplicateHeader => assert name + [COLON] + [SPACE] == name + [COLON, SPACE];
      case _ =>
    }
  }

  /** What stands for the Host line `name:rest` in each mode. */
  lemma NewHostLines(mode: Mode, ls: seq<seq<Byte>>, name: seq<Byte>, rest: seq<Byte>)
    requires !mode.MixedCase? && EqIgnoreCase(name, Text("host"))
    requires HostLine(ls) < |ls| && ls[HostLine(ls)] == name + ([COLON] + rest)
    ensures HostLines(mode, ls) == Written(mode, name, Trim(rest))
  {
    HostIsText();
    NameBytes(name);
    LineSplit(name, rest, ls[HostLine(ls)]);
    FormatsAreWritten(mode, name, Trim(rest));
  }

  lemma LineSplit(name: seq<Byte>, rest: seq<Byte>, line: seq<Byte>)
    requires line == name + ([COLON] + rest) && EqIgnoreCase(name, HOST) && COLON !in name
    ensures HostColon(line) == Some(|name|) && line[..|name|] == name && line[|name| + 1..] == rest
  {
    ColonAfterName(name, rest, line);
    assert line[..|name|] == name;
  }

  /** The names the mixed-case mode draws from, and what it looks for. */
  lemma VariantsAreWords()
    ensures VARIANTS == [Text("hOsT"), Text("HOST"), Text("HoSt"), Text("hoST"), Text("HOst"), Text("hosT")]
    ensures NEEDLE == Text("\nhost:")
  {
    assert VARIANTS[0] == Text("hOsT") && VARIANTS[1] == Text("HOST") && VARIANTS[2] == Text("HoSt");
    assert VARIANTS[3] == Text("hoST") && VARIANTS[4] == Text("HOst") && VARIANTS[5] == Text("hosT");
  }

  // ---------- Characters ----------

  /** The code points with the property White_Space. */
  predicate WhiteSpace(c: nat) {
    || 9 <= c <= 13 || c in {0x20, 0x85, 0xA0, 0x1680, 0x2028, 0x2029, 0x202F, 0x205F, 0x3000}
    || 0x2000 <= c <= 0x200A
  }

  lemma Digits3(c: nat)
    requires c < 0x1_0000
    ensures c == 64 * (64 * (c / 4096) + c / 64 % 64) + c % 64 && c / 64 % 64 < 64 && c / 4096 < 16
  {
    assert c / 64 == 64 * (c / 4096) + c / 64 % 64;
  }

  /** Trimming takes white space in front: exactly the characters with that property. */
  lemma WhiteInFront(c: nat, rest: seq<Byte>)
    requires IsScalar(c)
    ensures WhiteFront(Encode(c) + rest) == if WhiteSpace(c) then |Encode(c)| else 0
  {
    var s := Encode(c) + rest;
    assert forall i :: 0 <= i < |Encode(c)| ==> s[i] == Encode(c)[i];
    if 0x800 <= c < 0x1_0000 {
      Digits3(c);
    }
  }

  /** And at the end. */
  lemma WhiteAtEnd(c: nat, front: seq<Byte>)
    requires IsScalar(c)
    ensures WhiteBack(front + Encode(c)) == if WhiteSpace(c) then |Encode(c)| else 0
  {
    var s, n := front + Encode(c), |Encode(c)|;
    assert forall i :: 0 <= i < n ==> s[|front| + i] == Encode(c)[i];
    if 0x800 <= c < 0x1_0000 {
      Digits3(c);
    }
  }

  /** The characters named in the model of lower case and of lossy decoding. */
  lemma NamedCharacters()
    ensures Encode(0x212A) == KELVIN && Encode(0x130) == DOTTED_I && Encode(0xFFFD) == REPLACEMENT
    ensures Encode(0x69) + Encode(0x307) == [0x69, 0xCC, 0x87]
  {
  }
}
