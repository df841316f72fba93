/** Changing the case of the Host header's name. */
module HttpCase {
  import opened Bytes
  import opened Types
  import opened Utf8
  import opened HttpParser
  import opened HttpHost
  import opened HttpMeaning

  /** The payloads differ at most in the case of the four letters of a host name at `k`. */
  predicate Twins(d: seq<Byte>, e: seq<Byte>, k: nat) {
    && |d| == |e| && 0 < k && k + 4 < |d| && d[k - 1] == LF
    && EqIgnoreCase(d[k..k + 4], HOST) && EqIgnoreCase(e[k..k + 4], HOST)
    && forall i :: 0 <= i < |d| && !(k <= i < k + 4) ==> e[i] == d[i]
  }

  /** Bytes that are letters of the name in one twin are so in the other; all other bytes agree. */
  lemma TwinBytes(d: seq<Byte>, e: seq<Byte>, k: nat, i: nat)
    requires Twins(d, e, k) && i < |d|
    ensures Lower(d[i]) == Lower(e[i])
    ensures d[i] != e[i] ==> d[i] !in [CR, LF, COLON, SPACE] && e[i] !in [CR, LF, COLON, SPACE]
  {
    if k <= i < k + 4 {
      assert Lower(d[k..k + 4][i - k]) == Lower(HOST[i - k]);
      assert Lower(e[k..k + 4][i - k]) == Lower(HOST[i - k]);
    }
  }

  lemma TwinCrlf(d: seq<Byte>, e: seq<Byte>, k: nat, i: nat)
    requires Twins(d, e, k)
    ensures CrlfAt(d, i) <==> CrlfAt(e, i)
  {
    if i + 1 < |d| {
      TwinBytes(d, e, k, i);
      TwinBytes(d, e, k, i + 1);
    }
  }

  lemma {:induction false} TwinAfterLine(d: seq<Byte>, e: seq<Byte>, k: nat, pos: nat)
    requires Twins(d, e, k)
    ensures AfterLine(e, pos) == AfterLine(d, pos)
    decreases |d| - pos
  {
    TwinCrlf(d, e, k, pos);
    if pos + 1 < |d| && !CrlfAt(d, pos) {
      TwinAfterLine(d, e, k, pos + 1);
    }
  }

  lemma {:induction false} TwinHeaderEnd(d: seq<Byte>, e: seq<Byte>, k: nat, pos: nat)
    requires Twins(d, e, k) && pos <= |d|
    ensures HeaderEnd(e, pos) == HeaderEnd(d, pos)
    decreases |d| - pos
  {
    if pos < |d| {
      TwinBytes(d, e, k, pos);
      if d[pos] != CR {
        TwinHeaderEnd(d, e, k, pos + 1);
      }
    }
  }

  lemma LowerHostColon(s: seq<Byte>, t: seq<Byte>)
    requires |s| == |t| && forall i :: 0 <= i < |s| ==> Lower(s[i]) == Lower(t[i]) && (s[i] == COLON <==> t[i] == COLON)
    ensures HostColon(s) == HostColon(t)
  {
    ColonIsFirst(s, Colon(s));
    ColonIsFirst(t, Colon(s));
    if Colon(s).Some? {
      var c := Colon(s).value;
      forall i | 0 <= i < c ensures Lower(s[..c][i]) == Lower(t[..c][i]) {
      }
    }
  }

  lemma TwinHostColon(d: seq<Byte>, e: seq<Byte>, k: nat, pos: nat, end: nat)
    requires Twins(d, e, k) && pos <= end <= |d|
    ensures HostColon(e[pos..end]) == HostColon(d[pos..end])
  {
    var s, t := d[pos..end], e[pos..end];
    forall i | 0 <= i < |s| ensures Lower(s[i]) == Lower(t[i]) && (s[i] == COLON <==> t[i] == COLON) {
      TwinBytes(d, e, k, pos + i);
    }
    LowerHostColon(s, t);
  }

  /** Both twins show the same headers at the same places. */
  lemma TwinHeader(d: seq<Byte>, e: seq<Byte>, k: nat, pos: nat)
    requires Twins(d, e, k)
    ensures HeaderAt(e, pos) == HeaderAt(d, pos)
  {
    TwinCrlf(d, e, k, pos);
    if pos + 1 < |d| && !CrlfAt(d, pos) {
      TwinHeaderEnd(d, e, k, pos);
      var end := HeaderEnd(d, pos);
      TwinCrlf(d, e, k, end);
      TwinHostColon(d, e, k, pos, end);
    }
  }

  lemma SameField(d: seq<Byte>, e: seq<Byte>, from: nat, end: nat, start: nat)
    requires |d| == |e| && start <= from <= end <= |d|
    requires forall i :: start <= i < |d| ==> e[i] == d[i]
    ensures FieldOf(e, from, end) == FieldOf(d, from, end)
  {
    SameWindow(d, e, start, from, end);
    SameWindow(d, e, start, from + Spaces(d[from..end]), end);
  }

  lemma SameWindow(d: seq<Byte>, e: seq<Byte>, from: nat, lo: nat, hi: nat)
    requires |d| == |e| && from <= lo <= hi <= |d|
    requires forall i :: from <= i < |d| ==> e[i] == d[i]
    ensures e[lo..hi] == d[lo..hi]
  {
  }

  /** Where the walk from `pos` finds the Host header. */
  function HostPosition(d: seq<Byte>, pos: nat): (p: Option<nat>)
    ensures p.Some? <==> FindHost(d, pos).Some?
    ensures p.Some? ==> pos <= p.value && HeaderAt(d, p.value).Found?
    decreases |d| - pos
  {
    match HeaderAt(d, pos)
    case Found(_, _) => Some(pos)
    case Other(next) => HostPosition(d, next)
    case NoMore => None
  }

  lemma OtherEndsLine(d: seq<Byte>, pos: nat)
    requires HeaderAt(d, pos).Other?
    ensures HeaderAt(d, pos).next >= 2 && CrlfAt(d, HeaderAt(d, pos).next - 2)
  {
  }

  lemma {:induction false} HostPositionFollowsLine(d: seq<Byte>, pos: nat, p: nat)
    requires pos >= 2 && CrlfAt(d, pos - 2) && HostPosition(d, pos) == Some(p)
    ensures p >= 2 && CrlfAt(d, p - 2)
    decreases |d| - pos
  {
    if HeaderAt(d, pos).Other? {
      OtherEndsLine(d, pos);
      HostPositionFollowsLine(d, HeaderAt(d, pos).next, p);
    }
  }

  lemma FoundName(d: seq<Byte>, p: nat)
    requires HeaderAt(d, p).Found?
    ensures p + 4 < |d| && EqIgnoreCase(d[p..p + 4], HOST) && d[p + 4] == COLON && HeaderAt(d, p).from == p + 5
  {
    var s := d[p..HeaderEnd(d, p)];
    assert s[..4] == d[p..p + 4];
  }

  lemma {:induction false} TwinFindHost(d: seq<Byte>, e: seq<Byte>, k: nat, pos: nat)
    requires Twins(d, e, k) && HostPosition(d, pos).Some? && k <= HostPosition(d, pos).value
    ensures FindHost(e, pos) == FindHost(d, pos)
    decreases |d| - pos
  {
    TwinHeader(d, e, k, pos);
    match HeaderAt(d, pos) {
      case Found(from, end) =>
        FoundName(d, pos);
        SameField(d, e, from, end, k + 4);
      case Other(next) => TwinFindHost(d, e, k, next);
    }
  }

  lemma {:induction false} AfterLineFollowsLine(d: seq<Byte>, pos: nat)
    requires AfterLine(d, pos) + 1 < |d|
    ensures AfterLine(d, pos) >= 2 && CrlfAt(d, AfterLine(d, pos) - 2)
    decreases |d| - pos
  {
    if pos + 1 < |d| && !CrlfAt(d, pos) {
      AfterLineFollowsLine(d, pos + 1);
    }
  }

  /** A word without a line feed is not touched by a change after one. */
  lemma TwinWord(d: seq<Byte>, e: seq<Byte>, k: nat, m: seq<Byte>)
    requires Twins(d, e, k) && LF !in m
    ensures m <= d <==> m <= e
  {
    assert e[k - 1] == LF;
    if m <= d {
      assert forall i :: 0 <= i < |m| ==> m[i] == d[i];
      assert forall i :: 0 <= i < |m| ==> m[i] == e[i];
    }
    if m <= e {
      assert forall i :: 0 <= i < |m| ==> m[i] == e[i];
      assert forall i :: 0 <= i < |m| ==> m[i] == d[i];
    }
  }

  lemma {:induction false} TwinMethod(d: seq<Byte>, e: seq<Byte>, k: nat, ms: seq<seq<Byte>>)
    requires Twins(d, e, k) && MethodWords(ms)
    ensures FirstMethod(ms, e) == FirstMethod(ms, d)
  {
    if ms == [] {
    } else {
      TwinWord(d, e, k, ms[0]);
      TwinMethod(d, e, k, ms[1..]);
    }
  }

  /** A line feed, the word host in any case, and a colon. */
  predicate NameAt(s: seq<Byte>, i: nat) {
    i + 6 <= |s| && s[i] == LF && EqIgnoreCase(s[i + 1..i + 5], HOST) && s[i + 5] == COLON
  }

  function FindName(s: seq<Byte>, i: nat): (k: Option<nat>)
    ensures k.Some? ==> i <= k.value && NameAt(s, k.value)
    decreases |s| - i
  {
    if i + 6 > |s| then None else if NameAt(s, i) then Some(i) else FindName(s, i + 1)
  }

  /** The lower-case form shows the name at the same offset as the text. */
  predicate Aligned(s: seq<Byte>, lower: seq<Byte>) {
    FindNeedle(lower, 0) == FindName(s, 0)
  }

  lemma {:induction false} FindNameFinds(s: seq<Byte>, i: nat, at: nat)
    requires i <= at && NameAt(s, at)
    ensures FindName(s, i).Some? && FindName(s, i).value <= at
    decreases |s| - i
  {
    if !NameAt(s, i) {
      FindNameFinds(s, i + 1, at);
    }
  }

  lemma RenamedTwins(d: seq<Byte>, lower: seq<Byte>, variant: seq<Byte>, k: nat)
    requires FindName(d, 0) == Some(k) && Aligned(d, lower) && EqIgnoreCase(variant, HOST)
    ensures RenameHost(d, lower, variant).Ok? && Twins(d, RenameHost(d, lower, variant).value, k + 1)
  {
    assert d[k + 1..k + 5][0] == d[k + 1] && Lower(d[k + 1]) == Lower(HOST[0]);
    var e := d[..k + 1] + variant + d[k + 5..];
    assert |variant| == 4 && e[k + 1..k + 5] == variant;
  }

  lemma VariantsAreHost(draw: nat)
    requires draw < |VARIANTS|
    ensures EqIgnoreCase(VARIANTS[draw], HOST)
  {
  }

  /**
   * Mixing the case of the name changes the request nowhere but in the case of four letters, and it parses
   * to exactly the same: method, host and host position. The offsets must agree, as in ASCII text.
   */
  lemma MixedCaseParsesTheSame(
      draw: nat, d: seq<Byte>, lower: seq<Byte>, verb: seq<Byte>, host: seq<Byte>)
    requires Names(d, verb, host) && Aligned(d, lower) && draw < |VARIANTS|
    ensures var r := RenameHost(d, lower, VARIANTS[draw]);
            && r.Ok? && ParseHttp(r.value) == ParseHttp(d) && EqIgnoreCase(r.value, d)
            && exists k :: Twins(d, r.value, k)
  {
    var k := NameBeforeHost(d);
    VariantsAreHost(draw);
    RenamedTwins(d, lower, VARIANTS[draw], k);
    TwinsParse(d, RenameHost(d, lower, VARIANTS[draw]).value, k + 1);
  }

  /** The first name in the text stands at or before the Host header the parser finds. */
  lemma NameBeforeHost(d: seq<Byte>) returns (k: nat)
    requires HostPosition(d, AfterLine(d, 0)).Some?
    ensures FindName(d, 0) == Some(k) && k + 1 <= HostPosition(d, AfterLine(d, 0)).value
  {
    var p := HostPosition(d, AfterLine(d, 0)).value;
    AfterLineFollowsLine(d, 0);
    HostPositionFollowsLine(d, AfterLine(d, 0), p);
    k := NameUpTo(d, p);
  }

  lemma NameUpTo(d: seq<Byte>, p: nat) returns (k: nat)
    requires p >= 2 && CrlfAt(d, p - 2) && HeaderAt(d, p).Found?
    ensures FindName(d, 0) == Some(k) && k + 1 <= p
  {
    NameInFront(d, p);
    FindNameFinds(d, 0, p - 1);
    k := FindName(d, 0).value;
  }

  lemma NameInFront(d: seq<Byte>, p: nat)
    requires p >= 2 && CrlfAt(d, p - 2) && HeaderAt(d, p).Found?
    ensures NameAt(d, p - 1)
  {
    FoundName(d, p);
  }

  lemma TwinsParse(d: seq<Byte>, e: seq<Byte>, k: nat)
    requires Twins(d, e, k) && HostPosition(d, AfterLine(d, 0)).Some? && k <= HostPosition(d, AfterLine(d, 0)).value
    ensures ParseHttp(e) == ParseHttp(d) && EqIgnoreCase(e, d)
  {
    TwinAfterLine(d, e, k, 0);
    TwinFindHost(d, e, k, AfterLine(d, 0));
    TheMethods();
    TwinMethod(d, e, k, METHODS);
    forall i | 0 <= i < |d| ensures Lower(e[i]) == Lower(d[i]) {
      TwinBytes(d, e, k, i);
    }
  }
}
