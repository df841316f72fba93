/** A request as the list of its lines, and what the parser sees of each. */
module HttpLines {
  import opened Bytes
  import opened Types
  import opened Utf8
  import opened HttpParser

  const CRLF: seq<Byte> := [CR, LF]

  predicate AsciiAt(s: seq<Byte>, i: nat) {
    i < |s| && s[i] < 0x80
  }

  predicate Ascii(s: seq<Byte>) {
    forall i :: 0 <= i < |s| ==> AsciiAt(s, i)
  }

  /** No line end inside. */
  predicate OneLine(s: seq<Byte>) {
    forall i :: 0 <= i < |s| ==> !CrlfAt(s, i)
  }

  /** `s.split("\r\n")` */
  function Lines(s: seq<Byte>): (ls: seq<seq<Byte>>)
    ensures |ls| >= 1
  {
    if s == [] then [[]]
    else if CrlfAt(s, 0) then [[]] + Lines(s[2..])
    else
      var ls := Lines(s[1..]);
      [[s[0]] + ls[0]] + ls[1..]
  }

  function JoinLines(ls: seq<seq<Byte>>): seq<Byte>
    requires |ls| >= 1
  {
    if |ls| == 1 then ls[0] else ls[0] + (CRLF + JoinLines(ls[1..]))
  }

  predicate AllOneLine(ls: seq<seq<Byte>>) {
    ls == [] || (OneLine(ls[0]) && AllOneLine(ls[1..]))
  }

  lemma JoinHead(b: Byte, ls: seq<seq<Byte>>)
    requires |ls| >= 1
    ensures JoinLines([[b] + ls[0]] + ls[1..]) == [b] + JoinLines(ls)
  {
    var xs := [[b] + ls[0]] + ls[1..];
    assert xs[1..] == ls[1..];
    if |ls| > 1 {
      Assoc([b], ls[0], CRLF + JoinLines(ls[1..]));
    }
  }

  /** A byte in front of a line keeps it one line unless it completes a line end. */
  lemma OneLineHead(b: Byte, line: seq<Byte>)
    requires OneLine(line) && (line == [] || !(b == CR && line[0] == LF))
    ensures OneLine([b] + line)
  {
    var s := [b] + line;
    forall i | 0 <= i < |s| ensures !CrlfAt(s, i) {
      if i > 0 {
        assert !CrlfAt(line, i - 1);
      }
    }
  }

  /** Splitting loses nothing, and every piece is one line. */
  lemma {:induction false} LinesJoin(s: seq<Byte>)
    ensures JoinLines(Lines(s)) == s && AllOneLine(Lines(s))
    ensures s != [] && Lines(s)[0] != [] ==> Lines(s)[0][0] == s[0]
  {
    if s == [] {
    } else if CrlfAt(s, 0) {
      LinesJoin(s[2..]);
      assert ([[]] + Lines(s[2..]))[1..] == Lines(s[2..]);
      assert [] + (CRLF + s[2..]) == s;
    } else {
      var ls := Lines(s[1..]);
      LinesJoin(s[1..]);
      JoinHead(s[0], ls);
      OneLineHead(s[0], ls[0]);
      assert s == [s[0]] + s[1..];
    }
  }

  // ---------- The parser, line by line ----------

  /** The first carriage return in a line, or its end. */
  function CrIn(s: seq<Byte>): (n: nat)
    ensures n <= |s| && (n < |s| ==> s[n] == CR)
  {
    if s == [] || s[0] == CR then 0 else 1 + CrIn(s[1..])
  }

  /** No carriage return stands before the first. */
  lemma {:induction false} CrIsFirst(s: seq<Byte>, n: nat)
    requires n <= |s| && (n < |s| ==> s[n] == CR)
    ensures CrIn(s) == n <==> forall i :: 0 <= i < n ==> s[i] != CR
  {
    if s != [] && s[0] != CR {
      CrIsFirst(s[1..], if n == 0 then 0 else n - 1);
    }
  }

  /** The text up to the first carriage return, and the rest. */
  lemma SplitAtCr(s: seq<Byte>) returns (a: seq<Byte>, b: seq<Byte>)
    ensures s == a + b && a == s[..CrIn(s)] && |a| == CrIn(s)
    ensures (forall i :: 0 <= i < |a| ==> a[i] != CR) && (b == [] || b[0] == CR)
  {
    a, b := s[..CrIn(s)], s[CrIn(s)..];
    CrIsFirst(s, CrIn(s));
  }

  datatype Piece = HostPiece(text: seq<Byte>) | OtherPiece | LastPiece

  function PieceOf(line: seq<Byte>, last: bool): Piece {
    if line == [] then LastPiece
    else
      var seg := line[..CrIn(line)];
      var colon := HostColon(seg);
      if colon.Some? then HostPiece(seg[colon.value + 1..])
      else if CrIn(line) == |line| && !last then OtherPiece
      else LastPiece
  }

  function HostOfLines(ls: seq<seq<Byte>>): Option<seq<Byte>> {
    if ls == [] then None
    else match PieceOf(ls[0], |ls| == 1)
      case HostPiece(text) => Some(Trim(text))
      case OtherPiece => HostOfLines(ls[1..])
      case LastPiece => None
  }

  lemma {:induction false} HeaderEndIs(d: seq<Byte>, pos: nat, e: nat)
    requires pos <= e <= |d| && (e < |d| ==> d[e] == CR) && forall i :: pos <= i < e ==> d[i] != CR
    ensures HeaderEnd(d, pos) == e
    decreases e - pos
  {
    if pos < e {
      HeaderEndIs(d, pos + 1, e);
    }
  }

  lemma WindowAscii(d: seq<Byte>, from: nat, end: nat)
    requires Ascii(d) && from <= end <= |d|
    ensures Ascii(d[from..end])
  {
    forall i | 0 <= i < end - from ensures AsciiAt(d[from..end], i) {
      assert AsciiAt(d, from + i);
    }
  }

  lemma {:induction false} AsciiValid(s: seq<Byte>)
    requires Ascii(s)
    ensures Valid(s)
  {
    if s == [] {
    } else {
      assert AsciiAt(s, 0);
      WindowAscii(s, 1, |s|);
      assert s[1..|s|] == s[1..];
      AsciiValid(s[1..]);
    }
  }

  lemma {:induction false} AsciiInFront(a: seq<Byte>, s: seq<Byte>)
    requires Ascii(a) && Valid(s)
    ensures Valid(a + s)
  {
    if a == [] {
      assert a + s == s;
    } else {
      assert AsciiAt(a, 0) && (a + s)[1..] == a[1..] + s;
      WindowAscii(a, 1, |a|);
      assert a[1..|a|] == a[1..];
      AsciiInFront(a[1..], s);
    }
  }

  lemma {:induction false} TrimSpaces(s: seq<Byte>)
    ensures Trim(s[Spaces(s)..]) == Trim(s)
  {
    if s != [] && s[0] == SPACE {
      TrimSpaces(s[1..]);
      Slice(s, 1, Spaces(s[1..]), |s| - 1);
      assert s[Spaces(s)..] == s[1..][Spaces(s[1..])..];
    } else {
      assert s[0..] == s;
    }
  }

  /** What stands in the buffer from `pos` on: one line, and what follows it. */
  predicate LineAt(d: seq<Byte>, pos: nat, line: seq<Byte>, last: bool) {
    && 0 < pos && OneLine(line) && pos + |line| <= |d| && d[pos..pos + |line|] == line
    && if last then pos + |line| == |d| else CrlfAt(d, pos + |line|)
  }

  lemma LineFound(d: seq<Byte>, pos: nat, line: seq<Byte>, rest: seq<Byte>)
    requires 0 < pos <= |d| && OneLine(line) && d[pos..] == line + (CRLF + rest)
    ensures LineAt(d, pos, line, false) && d[pos + |line| + 2..] == rest
  {
    Taken(d, pos, line, CRLF + rest);
    Taken(d, pos + |line|, CRLF, rest);
    TakenAt(d, pos + |line|, CRLF, rest, 0);
    TakenAt(d, pos + |line|, CRLF, rest, 1);
  }

  lemma LastLineFound(d: seq<Byte>, pos: nat, line: seq<Byte>)
    requires 0 < pos <= |d| && OneLine(line) && d[pos..] == line
    ensures LineAt(d, pos, line, true)
  {
  }

  /** The bytes of a line where it stands. */
  lemma ByteAt(d: seq<Byte>, pos: nat, line: seq<Byte>, i: nat)
    requires pos + |line| <= |d| && d[pos..pos + |line|] == line && i < |line|
    ensures d[pos + i] == line[i]
  {
    assert d[pos..pos + |line|][i] == d[pos + i];
  }

  lemma {:induction false} EndAt(d: seq<Byte>, pos: nat, line: seq<Byte>)
    requires pos + |line| <= |d| && d[pos..pos + |line|] == line
    requires CrIn(line) == |line| ==> pos + |line| == |d| || d[pos + |line|] == CR
    ensures HeaderEnd(d, pos) == pos + CrIn(line)
  {
    var e := CrIn(line);
    CrIsFirst(line, e);
    forall i | pos <= i < pos + e ensures d[i] != CR {
      ByteAt(d, pos, line, i - pos);
    }
    if e < |line| {
      ByteAt(d, pos, line, e);
    }
    HeaderEndIs(d, pos, pos + e);
  }

  lemma SegmentAt(d: seq<Byte>, pos: nat, line: seq<Byte>, last: bool)
    requires LineAt(d, pos, line, last)
    ensures HeaderEnd(d, pos) == pos + CrIn(line) && d[pos..pos + CrIn(line)] == line[..CrIn(line)]
    ensures CrlfAt(d, pos) <==> line == [] && !last
    ensures CrlfAt(d, pos + CrIn(line)) <==> CrIn(line) == |line| && !last
  {
    EndAt(d, pos, line);
    Window(d, pos, pos + |line|, 0, CrIn(line));
    InnerCrlf(d, pos, line, last, CrIn(line));
    InnerCrlf(d, pos, line, last, 0);
  }

  /** A line end stands nowhere but behind the line. */
  lemma InnerCrlf(d: seq<Byte>, pos: nat, line: seq<Byte>, last: bool, i: nat)
    requires LineAt(d, pos, line, last) && i <= |line|
    ensures CrlfAt(d, pos + i) <==> i == |line| && !last
  {
    if i < |line| {
      assert !CrlfAt(line, i);
      ByteAt(d, pos, line, i);
      if i + 1 < |line| {
        ByteAt(d, pos, line, i + 1);
      }
    }
  }

  lemma ShortLineHasNoHost(s: seq<Byte>)
    requires |s| < 5
    ensures HostColon(s) == None
  {
  }

  /** The parser's header at a line, and what the line is. */
  predicate SameHeader(d: seq<Byte>, h: Header, p: Piece, next: nat) {
    match p
    case HostPiece(text) => h.Found? && h.from <= h.end <= |d| && d[h.from..h.end] == text
    case OtherPiece => h == Other(next)
    case LastPiece => h == NoMore
  }

  lemma HeaderOnLine(d: seq<Byte>, pos: nat, line: seq<Byte>, last: bool)
    requires LineAt(d, pos, line, last)
    ensures SameHeader(d, HeaderAt(d, pos), PieceOf(line, last), pos + |line| + 2)
  {
    SegmentAt(d, pos, line, last);
    HeaderFromFacts(d, pos, line, last, CrIn(line), line[..CrIn(line)]);
  }

  lemma HeaderFromFacts(d: seq<Byte>, pos: nat, line: seq<Byte>, last: bool, cr: nat, seg: seq<Byte>)
    requires cr == CrIn(line) && seg == line[..cr] && pos + |line| <= |d| && (last ==> pos + |line| == |d|)
    requires HeaderEnd(d, pos) == pos + cr && d[pos..pos + cr] == seg
    requires CrlfAt(d, pos) <==> line == [] && !last
    requires CrlfAt(d, pos + cr) <==> cr == |line| && !last
    ensures SameHeader(d, HeaderAt(d, pos), PieceOf(line, last), pos + |line| + 2)
  {
    if |seg| < 5 {
      ShortLineHasNoHost(seg);
    } else if HostColon(seg).Some? {
      BehindSpaces(d, pos, pos + cr, seg, HostColon(seg).value + 1);
    }
  }

  lemma ValueOfField(d: seq<Byte>, from: nat, end: nat)
    requires from <= end <= |d| && Valid(d[from..end])
    ensures FieldOf(d, from, end).host == Some(Trim(d[from..end]))
  {
    var n := Spaces(d[from..end]);
    BehindSpaces(d, from, end, d[from..end], n);
    FieldText(d, from + n, end, d[from..end], d[from + n..end]);
  }

  lemma FieldText(d: seq<Byte>, start: nat, end: nat, text: seq<Byte>, value: seq<Byte>)
    requires start <= end <= |d| && value == d[start..end] && value == text[Spaces(text)..] && Valid(text)
    ensures FieldFrom(d, start, end).host == Some(Trim(text))
  {
    TrimSpaces(text);
    SpacesValid(text);
  }

  lemma {:induction false} SpacesValid(s: seq<Byte>)
    requires Valid(s)
    ensures Valid(s[Spaces(s)..])
  {
    if s != [] && s[0] == SPACE {
      SpacesValid(s[1..]);
      assert s[Spaces(s)..] == s[1..][Spaces(s[1..])..];
    } else {
      assert s[0..] == s;
    }
  }

  lemma BehindSpaces(d: seq<Byte>, from: nat, end: nat, text: seq<Byte>, n: nat)
    requires from + n <= end <= |d| && d[from..end] == text
    ensures d[from + n..end] == text[n..]
  {
  }

  /** The lines stand in the buffer from `pos` to its end. */
  predicate LinesAt(d: seq<Byte>, pos: nat, ls: seq<seq<Byte>>)
    decreases |ls|
  {
    |ls| >= 1 && LineAt(d, pos, ls[0], |ls| == 1)
    && (|ls| > 1 ==> LinesAt(d, pos + |ls[0]| + 2, ls[1..]))
  }

  lemma {:induction false} LinesFound(d: seq<Byte>, pos: nat, ls: seq<seq<Byte>>)
    requires 0 < pos <= |d| && |ls| >= 1 && AllOneLine(ls) && d[pos..] == JoinLines(ls)
    ensures LinesAt(d, pos, ls)
    decreases |ls|
  {
    if |ls| == 1 {
      LastLineFound(d, pos, ls[0]);
    } else {
      LineFound(d, pos, ls[0], JoinLines(ls[1..]));
      LinesFound(d, pos + |ls[0]| + 2, ls[1..]);
    }
  }

  predicate HostFound(field: Option<Field>, host: Option<seq<Byte>>) {
    match host
    case None => field == None
    case Some(h) => field.Some? && field.value.host == Some(h)
  }

  predicate ValidLines(ls: seq<seq<Byte>>) {
    ls == [] || (Valid(ls[0]) && ValidLines(ls[1..]))
  }

  lemma BehindColon(s: seq<Byte>, c: nat)
    requires Valid(s) && c < |s| && s[c] == COLON
    ensures Valid(s[c + 1..])
  {
    assert s == s[..c] + s[c..];
    ValidJoined(s[..c], s[c..]);
    assert s[c..][1..] == s[c + 1..];
  }

  /** The text of a Host line is valid when the line is. */
  lemma PieceValid(line: seq<Byte>, last: bool)
    requires Valid(line) && PieceOf(line, last).HostPiece?
    ensures Valid(PieceOf(line, last).text)
  {
    var seg, rest := SplitAtCr(line);
    ValidJoined(seg, rest);
    BehindColon(seg, HostColon(seg).value);
  }

  /** What the first line decides for the walk, once the walk over the rest is known. */
  lemma FirstLineDecides(d: seq<Byte>, pos: nat, ls: seq<seq<Byte>>, next: nat)
    requires ls != [] && Valid(ls[0]) && SameHeader(d, HeaderAt(d, pos), PieceOf(ls[0], |ls| == 1), next)
    requires |ls| > 1 ==> HostFound(FindHost(d, next), HostOfLines(ls[1..]))
    ensures HostFound(FindHost(d, pos), HostOfLines(ls))
  {
    if HeaderAt(d, pos).Found? {
      PieceValid(ls[0], |ls| == 1);
      ValueOfField(d, HeaderAt(d, pos).from, HeaderAt(d, pos).end);
    }
  }

  /** The parser finds the host of the lines ahead of it. */
  lemma {:induction false} ParserOnLines(d: seq<Byte>, pos: nat, ls: seq<seq<Byte>>)
    requires ValidLines(ls) && LinesAt(d, pos, ls)
    ensures HostFound(FindHost(d, pos), HostOfLines(ls))
    decreases |ls|
  {
    if |ls| > 1 {
      ParserOnLines(d, pos + |ls[0]| + 2, ls[1..]);
    }
    LineDecides(d, pos, ls);
  }

  lemma LineDecides(d: seq<Byte>, pos: nat, ls: seq<seq<Byte>>)
    requires ls != [] && Valid(ls[0]) && LineAt(d, pos, ls[0], |ls| == 1)
    requires |ls| > 1 ==> HostFound(FindHost(d, pos + |ls[0]| + 2), HostOfLines(ls[1..]))
    ensures HostFound(FindHost(d, pos), HostOfLines(ls))
  {
    HeaderOnLine(d, pos, ls[0], |ls| == 1);
    FirstLineDecides(d, pos, ls, pos + |ls[0]| + 2);
  }

  // ---------- The request line ----------

  lemma {:induction false} AfterLineIs(d: seq<Byte>, pos: nat, p: nat)
    requires pos <= p && CrlfAt(d, p) && forall i :: pos <= i < p ==> !CrlfAt(d, i)
    ensures AfterLine(d, pos) == p + 2
    decreases p - pos
  {
    if pos < p {
      AfterLineIs(d, pos + 1, p);
    }
  }

  lemma {:induction false} AfterLineAtEnd(d: seq<Byte>, pos: nat)
    requires forall i :: pos <= i < |d| ==> !CrlfAt(d, i)
    ensures AfterLine(d, pos) + 1 >= |d|
    decreases |d| - pos
  {
    if pos + 1 < |d| {
      AfterLineAtEnd(d, pos + 1);
    }
  }

  lemma RequestLineSkipped(d: seq<Byte>, line: seq<Byte>, rest: seq<Byte>)
    requires OneLine(line) && d == line + (CRLF + rest)
    ensures AfterLine(d, 0) == |line| + 2 && d[|line| + 2..] == rest
  {
    forall i | 0 <= i < |line| ensures !CrlfAt(d, i) {
      assert !CrlfAt(line, i);
    }
    AfterLineIs(d, 0, |line|);
  }

  /** The parser's host is that of the lines after the request line. */
  lemma HostOfRequest(d: seq<Byte>, ls: seq<seq<Byte>>)
    requires ValidLines(ls) && |ls| >= 1 && AllOneLine(ls) && d == JoinLines(ls)
    ensures HostFound(FindHost(d, AfterLine(d, 0)), HostOfLines(ls[1..]))
  {
    if |ls| == 1 {
      AfterLineAtEnd(d, 0);
    } else {
      RequestLineSkipped(d, ls[0], JoinLines(ls[1..]));
      LinesFound(d, |ls[0]| + 2, ls[1..]);
      ParserOnLines(d, |ls[0]| + 2, ls[1..]);
    }
  }
}
