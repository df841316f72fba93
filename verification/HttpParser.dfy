/** Recognising an HTTP request and finding its Host header. */
module HttpParser {
  import opened Bytes
  import opened Types
  import opened Utf8

  const CR: Byte := 13
  const LF: Byte := 10
  const SPACE: Byte := 32
  const COLON: Byte := 58
  const HOST: seq<Byte> := [72, 111, 115, 116]

  /** GET, POST, PUT, DELETE, HEAD, OPTIONS, PATCH and CONNECT, each with the space after it. */
  const METHODS: seq<seq<Byte>> := [
    [71, 69, 84, 32], [80, 79, 83, 84, 32], [80, 85, 84, 32], [68, 69, 76, 69, 84, 69, 32], [72, 69, 65, 68, 32],
    [79, 80, 84, 73, 79, 78, 83, 32], [80, 65, 84, 67, 72, 32], [67, 79, 78, 78, 69, 67, 84, 32]]

  function FirstMethod(ms: seq<seq<Byte>>, d: seq<Byte>): Option<seq<Byte>> {
    if ms == [] then None else if ms[0] <= d then Some(ms[0]) else FirstMethod(ms[1..], d)
  }

  predicate CrlfAt(d: seq<Byte>, i: nat) {
    i + 1 < |d| && d[i] == CR && d[i + 1] == LF
  }

  /** Past the first line end at or after `pos`; without one, on the last byte. */
  function AfterLine(d: seq<Byte>, pos: nat): (p: nat)
    ensures pos <= p
    decreases |d| - pos
  {
    if pos + 1 >= |d| then pos else if CrlfAt(d, pos) then pos + 2 else AfterLine(d, pos + 1)
  }

  /** The next carriage return, or the end. */
  function HeaderEnd(d: seq<Byte>, pos: nat): (p: nat)
    requires pos <= |d|
    ensures pos <= p <= |d|
    decreases |d| - pos
  {
    if pos == |d| || d[pos] == CR then pos else HeaderEnd(d, pos + 1)
  }

  function Colon(s: seq<Byte>): (c: Option<nat>)
    ensures c.Some? ==> c.value < |s| && s[c.value] == COLON
  {
    if s == [] then None
    else if s[0] == COLON then Some(0)
    else
      var c := Colon(s[1..]);
      if c.None? then None else Some(c.value + 1)
  }

  /** The first colon is where the text has one and none stands before it. */
  lemma {:induction false} ColonIsFirst(s: seq<Byte>, c: Option<nat>)
    requires c.Some? ==> c.value < |s| && s[c.value] == COLON
    ensures Colon(s) == c <==> forall i :: 0 <= i < (if c.Some? then c.value else |s|) ==> s[i] != COLON
  {
    if s != [] && s[0] != COLON {
      ColonIsFirst(s[1..], if c.None? then None else if c.value == 0 then None else Some(c.value - 1));
    }
  }

  /** The position of the colon, if this is a Host header. */
  function HostColon(s: seq<Byte>): Option<nat> {
    if Colon(s).Some? && EqIgnoreCase(s[..Colon(s).value], HOST) then Colon(s) else None
  }

  function Spaces(s: seq<Byte>): (n: nat)
    ensures n <= |s|
  {
    if s == [] || s[0] != SPACE then 0 else 1 + Spaces(s[1..])
  }

  // White_Space characters by the length of their encoding: ASCII; U+0085 and U+00A0; U+1680,
  // U+2000 to U+200A, U+2028, U+2029, U+202F, U+205F and U+3000.

  predicate White(b: Byte) {
    b == SPACE || 9 <= b <= 13
  }

  predicate White2(a: Byte, b: Byte) {
    a == 0xC2 && (b == 0x85 || b == 0xA0)
  }

  predicate White3(a: Byte, b: Byte, c: Byte) {
    || (a == 0xE1 && b == 0x9A && c == 0x80)
    || (a == 0xE2 && b == 0x80 && (0x80 <= c <= 0x8A || c == 0xA8 || c == 0xA9 || c == 0xAF))
    || (a == 0xE2 && b == 0x81 && c == 0x9F)
    || (a == 0xE3 && b == 0x80 && c == 0x80)
  }

  /** The length of the white character a text starts with, 0 without one. */
  function WhiteFront(s: seq<Byte>): (n: nat)
    ensures n <= |s|
  {
    if |s| >= 1 && White(s[0]) then 1
    else if |s| >= 2 && White2(s[0], s[1]) then 2
    else if |s| >= 3 && White3(s[0], s[1], s[2]) then 3
    else 0
  }

  /** The length of the white character a text ends with, 0 without one. */
  function WhiteBack(s: seq<Byte>): (n: nat)
    ensures n <= |s|
  {
    var n := |s|;
    if n >= 1 && White(s[n - 1]) then 1
    else if n >= 2 && White2(s[n - 2], s[n - 1]) then 2
    else if n >= 3 && White3(s[n - 3], s[n - 2], s[n - 1]) then 3
    else 0
  }

  function TrimStart(s: seq<Byte>): seq<Byte> {
    if WhiteFront(s) > 0 then TrimStart(s[WhiteFront(s)..]) else s
  }

  function TrimEnd(s: seq<Byte>): seq<Byte> {
    if WhiteBack(s) > 0 then TrimEnd(s[..|s| - WhiteBack(s)]) else s
  }

  /** `str::trim` */
  function Trim(s: seq<Byte>): seq<Byte> {
    TrimEnd(TrimStart(s))
  }

  /** The Host field: its value, if that is text, and where the value starts. */
  datatype Field = Field(host: Option<seq<Byte>>, offset: nat)

  /** The field whose text, spaces in front included, is `d[from..end]`. */
  function FieldOf(d: seq<Byte>, from: nat, end: nat): Field
    requires from <= end <= |d|
  {
    FieldFrom(d, from + Spaces(d[from..end]), end)
  }

  function FieldFrom(d: seq<Byte>, start: nat, end: nat): Field
    requires start <= end <= |d|
  {
    Field(if Valid(d[start..end]) then Some(Trim(d[start..end])) else None, start)
  }

  /** What the walk over the headers meets: the Host field behind its colon, another header, or its end. */
  datatype Header = Found(from: nat, end: nat) | Other(next: nat) | NoMore

  function HeaderAt(d: seq<Byte>, pos: nat): (h: Header)
    ensures h.Other? ==> pos < h.next <= |d|
    ensures h.Found? ==> pos < h.from <= h.end <= |d|
  {
    if pos + 1 >= |d| || CrlfAt(d, pos) then NoMore
    else
      var end := HeaderEnd(d, pos);
      var colon := HostColon(d[pos..end]);
      if colon.Some? then Found(pos + colon.value + 1, end)
      else if CrlfAt(d, end) then Other(end + 2)
      else NoMore
  }

  function FindHost(d: seq<Byte>, pos: nat): Option<Field>
    decreases |d| - pos
  {
    match HeaderAt(d, pos)
    case Found(from, end) => Some(FieldOf(d, from, end))
    case Other(next) => FindHost(d, next)
    case NoMore => None
  }

  function ParseHttp(d: seq<Byte>): Option<AppProtocol> {
    match FirstMethod(METHODS, d)
    case None => None
    case Some(m) =>
      match FindHost(d, AfterLine(d, 0))
      case None => Some(HttpRequest(Verb(m), None, 0))
      case Some(f) => Some(HttpRequest(Verb(m), f.host, f.offset))
  }

  function Verb(m: seq<Byte>): seq<Byte> {
    if m == [] then [] else m[..|m| - 1]
  }

  // ---------- The scanner ----------

  method ParseHttpRequest(d: seq<Byte>) returns (r: Option<AppProtocol>)
    ensures r == ParseHttp(d)
  {
    var m := FirstMethod(METHODS, d);
    if m.None? {
      return None;
    }
    var field := FindHostHeader(d);
    return Some(HttpRequest(Verb(m.value), field.host, field.offset));
  }

  method FindHostHeader(d: seq<Byte>) returns (f: Field)
    ensures f == if FindHost(d, AfterLine(d, 0)).Some? then FindHost(d, AfterLine(d, 0)).value else Field(None, 0)
  {
    var pos := SkipRequestLine(d);
    while pos + 1 < |d|
      invariant FindHost(d, pos) == FindHost(d, AfterLine(d, 0)) && (pos + 1 < |d| ==> pos > 0)
      decreases |d| - pos
    {
      var header := ReadHeader(d, pos);
      if header.Found? {
        f := ReadField(d, header.from, header.end);
        return;
      }
      if header.NoMore? {
        break;
      }
      pos := header.next;
    }
    return Field(None, 0);
  }

  /** One turn of the header loop. */
  method ReadHeader(d: seq<Byte>, start: nat) returns (h: Header)
    requires 0 < start && start + 1 < |d|
    ensures h == HeaderAt(d, start)
  {
    if d[start] == CR && d[start + 1] == LF {
      return NoMore;
    }
    var pos, colon := ScanHeader(d, start);
    var line := d[start..pos];
    if colon.Some? && EqIgnoreCase(line[..colon.value], HOST) {
      return Found(start + colon.value + 1, pos);
    }
    if pos + 1 < |d| && d[pos] == CR && d[pos + 1] == LF {
      return Other(pos + 2);
    }
    return NoMore;
  }

  method ReadField(d: seq<Byte>, from: nat, end: nat) returns (f: Field)
    requires 0 < from <= end <= |d|
    ensures f == FieldOf(d, from, end)
  {
    var valueStart := SkipSpaces(d, from, end);
    return FieldFrom(d, valueStart, end);
  }

  method SkipRequestLine(d: seq<Byte>) returns (pos: nat)
    ensures pos == AfterLine(d, 0) && (pos + 1 < |d| ==> pos > 0)
  {
    pos := 0;
    while pos + 1 < |d|
      invariant AfterLine(d, pos) == AfterLine(d, 0)
      decreases |d| - pos
    {
      if d[pos] == CR && d[pos + 1] == LF {
        pos := pos + 2;
        break;
      }
      pos := pos + 1;
    }
  }

  /** One header line: where it ends, and its first colon. */
  method ScanHeader(d: seq<Byte>, start: nat) returns (end: nat, colon: Option<nat>)
    requires 0 < start <= |d|
    ensures end == HeaderEnd(d, start) && colon == Colon(d[start..end])
  {
    end, colon := start, None;
    while end < |d| && d[end] != CR
      invariant start <= end <= |d| && HeaderEnd(d, end) == HeaderEnd(d, start)
      invariant colon == Colon(d[start..end])
    {
      ColonSnoc(d[start..end], d[end], d[start..end + 1]);
      if d[end] == COLON && colon.None? {
        colon := Some(end - start);
      }
      end := end + 1;
    }
  }

  method SkipSpaces(d: seq<Byte>, start: nat, end: nat) returns (p: nat)
    requires 0 < start <= end <= |d|
    ensures p == start + Spaces(d[start..end]) && p <= end
  {
    p := start;
    while p < end && d[p] == SPACE
      invariant start <= p <= end && start + Spaces(d[start..end]) == p + Spaces(d[p..end])
    {
      SpacesStep(d[p..end], d[p + 1..end]);
      p := p + 1;
    }
  }

  lemma SpacesStep(s: seq<Byte>, t: seq<Byte>)
    requires s == [SPACE] + t
    ensures Spaces(s) == 1 + Spaces(t)
  {
    assert s[1..] == t;
  }

  lemma ColonSnoc(s: seq<Byte>, b: Byte, t: seq<Byte>)
    requires t == s + [b]
    ensures Colon(t) == if Colon(s).Some? then Colon(s) else if b == COLON then Some(|s|) else None
  {
    assert t[|s|] == b;
    assert forall i :: 0 <= i < |s| ==> t[i] == s[i];
    ColonIsFirst(s, Colon(s));
    ColonIsFirst(t, if Colon(s).Some? then Colon(s) else if b == COLON then Some(|s|) else None);
  }
}
