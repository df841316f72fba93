/** What a rewritten request means to a parser. */
module HttpHostProps {
  import opened Bytes
  import opened Types
  import opened Utf8
  import opened HttpParser
  import opened HttpLines
  import opened HttpHost

  // ---------- Trimming ----------

  /** Text that starts outside any character begun before it. */
  predicate Fresh(s: seq<Byte>) {
    s == [] || s[0] < 0x80
  }

  lemma {:induction false} StartIsDark(s: seq<Byte>)
    ensures WhiteFront(TrimStart(s)) == 0
  {
    if WhiteFront(s) > 0 {
      StartIsDark(s[WhiteFront(s)..]);
    }
  }

  lemma {:induction false} EndIsDark(s: seq<Byte>)
    ensures TrimEnd(s) <= s && WhiteBack(TrimEnd(s)) == 0
  {
    if WhiteBack(s) > 0 {
      EndIsDark(s[..|s| - WhiteBack(s)]);
    }
  }

  lemma FrontOfJoined(a: seq<Byte>, b: seq<Byte>)
    requires a != [] && Fresh(b)
    ensures WhiteFront(a + b) == WhiteFront(a)
  {
  }

  lemma BackOfJoined(a: seq<Byte>, b: seq<Byte>)
    requires b != [] && Fresh(b)
    ensures WhiteBack(a + b) == WhiteBack(b)
  {
  }

  lemma FrontOfPrefix(p: seq<Byte>, s: seq<Byte>)
    requires p <= s && WhiteFront(s) == 0
    ensures WhiteFront(p) == 0
  {
  }

  lemma {:induction false} TrimStartFinds(a: seq<Byte>, b: seq<Byte>)
    requires Fresh(b)
    ensures TrimStart(a + b) == if TrimStart(a) == [] then TrimStart(b) else TrimStart(a) + b
  {
    if a == [] {
      assert a + b == b;
    } else {
      FrontOfJoined(a, b);
      var n := WhiteFront(a);
      if n > 0 {
        assert (a + b)[n..] == a[n..] + b;
        TrimStartFinds(a[n..], b);
      }
    }
  }

  lemma {:induction false} TrimEndFinds(a: seq<Byte>, b: seq<Byte>)
    requires Fresh(b)
    ensures TrimEnd(a + b) == if TrimEnd(b) == [] then TrimEnd(a) else a + TrimEnd(b)
    decreases |b|
  {
    if b == [] {
      assert a + b == a;
    } else {
      BackOfJoined(a, b);
      var n := WhiteBack(b);
      if n > 0 {
        assert (a + b)[..|a + b| - n] == a + b[..|b| - n];
        TrimEndFinds(a, b[..|b| - n]);
      }
    }
  }

  lemma {:induction false} TrimEndKeepsHead(s: seq<Byte>)
    requires s != [] && WhiteFront(s) == 0
    ensures TrimEnd(s) != [] && TrimEnd(s)[0] == s[0]
    decreases |s|
  {
    var n := WhiteBack(s);
    if n > 0 {
      assert |s| > n;
      FrontOfPrefix(s[..|s| - n], s);
      TrimEndKeepsHead(s[..|s| - n]);
    }
  }

  lemma TrimEmpty(s: seq<Byte>)
    ensures Trim(s) == [] <==> TrimStart(s) == []
    ensures WhiteFront(Trim(s)) == 0
  {
    StartIsDark(s);
    EndIsDark(TrimStart(s));
    FrontOfPrefix(Trim(s), TrimStart(s));
    if TrimStart(s) != [] {
      TrimEndKeepsHead(TrimStart(s));
    }
  }

  lemma StartsDark(s: seq<Byte>)
    requires WhiteFront(s) == 0
    ensures TrimStart(s) == s && Trim(s) == TrimEnd(s)
  {
  }

  lemma TrimEndTwice(s: seq<Byte>)
    ensures TrimEnd(TrimEnd(s)) == TrimEnd(s)
  {
    EndIsDark(s);
  }

  lemma CrInAppend(a: seq<Byte>, b: seq<Byte>)
    requires (forall i :: 0 <= i < |a| ==> a[i] != CR) && (b == [] || b[0] == CR)
    ensures CrIn(a + b) == |a|
  {
    assert forall i :: 0 <= i < |a| ==> (a + b)[i] == a[i];
    if b != [] {
      assert (a + b)[|a|] == CR;
    }
    CrIsFirst(a + b, |a|);
  }

  lemma {:induction false} TrimStartSuffix(s: seq<Byte>, i: nat)
    requires i < |TrimStart(s)| && forall j :: 0 <= j < |s| ==> s[j] != CR
    ensures TrimStart(s)[i] != CR
  {
    if WhiteFront(s) > 0 {
      TrimStartSuffix(s[WhiteFront(s)..], i);
    }
  }

  /**
   * The text up to a bare carriage return survives trimming the whole: what is read back is the
   * host exactly when the host is not empty or there is nothing else on the line.
   */
  lemma HostSurvivesTrim(a: seq<Byte>, b: seq<Byte>)
    requires (forall i :: 0 <= i < |a| ==> a[i] != CR) && (b == [] || b[0] == CR)
    ensures var v := Trim(a + b);
            Trim(v[..CrIn(v)]) == Trim(a) <==> Trim(a) != [] || v == []
  {
    TrimEmpty(a);
    TrimStartFinds(a, b);
    if Trim(a) == [] {
      NothingBeforeCr(Trim(a + b), a + b);
    } else {
      var start := TrimStart(a);
      StartIsDark(a);
      forall i | 0 <= i < |start| ensures start[i] != CR {
        TrimStartSuffix(a, i);
      }
      TrimEndFinds(start, b);
      HostBeforeCr(start, b);
    }
  }

  /** A trimmed text that is not empty has something in front of its first carriage return. */
  lemma NothingBeforeCr(v: seq<Byte>, s: seq<Byte>)
    requires v == Trim(s)
    ensures Trim(v[..CrIn(v)]) == [] <==> v == []
  {
    TrimEmpty(s);
    if v != [] {
      var h := v[..CrIn(v)];
      assert v[0] != CR && CrIn(v) > 0;
      FrontOfPrefix(h, v);
      StartsDark(h);
      TrimEmpty(h);
    } else {
      assert v[..CrIn(v)] == [];
    }
  }

  lemma HostBeforeCr(start: seq<Byte>, b: seq<Byte>)
    requires WhiteFront(start) == 0 && (forall i :: 0 <= i < |start| ==> start[i] != CR) && (b == [] || b[0] == CR)
    ensures var v := if TrimEnd(b) == [] then TrimEnd(start) else start + TrimEnd(b);
            Trim(v[..CrIn(v)]) == TrimEnd(start)
  {
    EndIsDark(b);
    EndIsDark(start);
    StartsDark(start);
    if TrimEnd(b) == [] {
      var v := TrimEnd(start);
      CrInAppend(v, []);
      assert v + [] == v && v[..|v|] == v;
      FrontOfPrefix(v, start);
      StartsDark(v);
      TrimEndTwice(start);
    } else {
      CrInAppend(start, TrimEnd(b));
      assert (start + TrimEnd(b))[..|start|] == start;
    }
  }

  lemma TextSurvivesTrim(text: seq<Byte>)
    ensures var v, h := Trim(text), Trim(text[..CrIn(text)]);
            Trim(v[..CrIn(v)]) == h <==> h != [] || v == []
  {
    var a, b := SplitAtCr(text);
    HostSurvivesTrim(a, b);
  }

  // ---------- The rewritten line ----------

  /** `name:gap` in front of text: the piece a parser sees. */
  lemma {:induction false} NewPiece(name: seq<Byte>, gap: seq<Byte>, v: seq<Byte>, line: seq<Byte>, last: bool)
    requires EqIgnoreCase(name, HOST) && (forall i :: 0 <= i < |gap| ==> White(gap[i]) && gap[i] != CR)
    requires line == name + [COLON] + gap + v
    ensures PieceOf(line, last).HostPiece? && Trim(PieceOf(line, last).text) == Trim(v[..CrIn(v)])
  {
    var n := |name| + 1 + |gap|;
    var front := name + [COLON] + gap;
    NameBytes(name);
    assert forall i :: 0 <= i < n ==> front[i] != CR;
    CrInFront(front, v);
    var seg, h := line[..CrIn(line)], v[..CrIn(v)];
    assert seg == front + h;
    ColonAfterName(name, gap + h, seg);
    assert seg[..|name|] == name && seg[|name| + 1..] == gap + h;
    GapTrimmed(gap, h);
  }

  lemma NameBytes(name: seq<Byte>)
    requires EqIgnoreCase(name, HOST)
    ensures |name| == 4 && forall i :: 0 <= i < 4 ==> name[i] != CR && name[i] != LF && name[i] != COLON
  {
    forall i | 0 <= i < 4 ensures name[i] != CR && name[i] != LF && name[i] != COLON {
      assert Lower(name[i]) == Lower(HOST[i]);
    }
  }

  lemma CrInFront(front: seq<Byte>, v: seq<Byte>)
    requires forall i :: 0 <= i < |front| ==> front[i] != CR
    ensures CrIn(front + v) == |front| + CrIn(v)
  {
    var a, b := SplitAtCr(v);
    assert front + v == (front + a) + b;
    CrInAppend(front + a, b);
  }

  lemma ColonAfterName(name: seq<Byte>, rest: seq<Byte>, s: seq<Byte>)
    requires forall i :: 0 <= i < |name| ==> name[i] != COLON
    requires s == name + ([COLON] + rest) || s == name + [COLON] + rest
    ensures Colon(s) == Some(|name|)
  {
    assert s[|name|] == COLON && forall i :: 0 <= i < |name| ==> s[i] == name[i];
    ColonIsFirst(s, Some(|name|));
  }

  lemma {:induction false} GapTrimmed(gap: seq<Byte>, h: seq<Byte>)
    requires forall i :: 0 <= i < |gap| ==> White(gap[i])
    ensures Trim(gap + h) == Trim(h)
  {
    if gap == [] {
      assert gap + h == h;
    } else {
      assert (gap + h)[1..] == gap[1..] + h && WhiteFront(gap + h) == 1;
      GapTrimmed(gap[1..], h);
    }
  }

  // ---------- The rewritten lines ----------

  /** Everything after the colon of the first Host line. */
  function TextOf(ls: seq<seq<Byte>>): Option<seq<Byte>> {
    if ls == [] then None
    else if HostColon(ls[0]).Some? then Some(ls[0][HostColon(ls[0]).value + 1..])
    else TextOf(ls[1..])
  }

  /** The first Host line of a list, or its length. */
  function HostLine(ls: seq<seq<Byte>>): (k: nat)
    ensures k <= |ls| && (k < |ls| ==> HostColon(ls[k]).Some?)
    ensures forall j :: 0 <= j < k ==> HostColon(ls[j]).None?
  {
    if ls == [] || HostColon(ls[0]).Some? then 0 else 1 + HostLine(ls[1..])
  }

  /** The lines with line `k`, if there is one, given in another form. */
  function Exchanged<T>(ls: seq<T>, k: nat, lines: seq<T>): seq<T> {
    if k < |ls| then ls[..k] + lines + ls[k + 1..] else ls
  }

  lemma ExchangedHead<T>(ls: seq<T>, lines: seq<T>)
    requires |ls| >= 1
    ensures Exchanged(ls, 0, lines) == lines + ls[1..]
  {
    assert ls[..0] + lines == lines;
  }

  lemma ExchangedTail<T>(ls: seq<T>, k: nat, lines: seq<T>)
    requires |ls| >= 1 && k > 0
    ensures Exchanged(ls, k, lines) == [ls[0]] + Exchanged(ls[1..], k - 1, lines)
  {
    if k < |ls| {
      assert ls[..k] == [ls[0]] + ls[1..][..k - 1] && ls[k + 1..] == ls[1..][k..];
    } else {
      assert ls == [ls[0]] + ls[1..];
    }
  }

  /** The lines that stand for the Host line, none without one. */
  function HostLines(mode: Mode, ls: seq<seq<Byte>>): seq<seq<Byte>> {
    var k := HostLine(ls);
    if k < |ls| then FormatLine(mode, ls[k], HostColon(ls[k]).value) else []
  }

  /** Only the Host line is replaced. */
  lemma {:induction false} OnlyHostLineChanges(mode: Mode, ls: seq<seq<Byte>>)
    ensures RewriteLines(mode, ls) == Exchanged(ls, HostLine(ls), HostLines(mode, ls))
  {
    if ls == [] {
    } else if HostColon(ls[0]).Some? {
      ExchangedHead(ls, HostLines(mode, ls));
    } else {
      ExchangedTail(ls, HostLine(ls), HostLines(mode, ls));
      HostLinesTail(mode, ls);
      OnlyHostLineChanges(mode, ls[1..]);
    }
  }

  lemma HostLinesTail(mode: Mode, ls: seq<seq<Byte>>)
    requires ls != [] && HostColon(ls[0]).None?
    ensures HostLine(ls) == 1 + HostLine(ls[1..]) && HostLines(mode, ls) == HostLines(mode, ls[1..])
  {
  }

  lemma SegmentColon(line: seq<Byte>)
    requires HostColon(line[..CrIn(line)]).Some?
    ensures HostColon(line) == HostColon(line[..CrIn(line)])
    ensures var c, t := HostColon(line).value, line[HostColon(line).value + 1..];
            line[..CrIn(line)][c + 1..] == t[..CrIn(t)]
  {
    var seg, rest := SplitAtCr(line);
    var c := HostColon(seg).value;
    assert forall i :: 0 <= i < |seg| ==> seg[i] == line[i];
    ColonIsFirst(seg, Some(c));
    ColonIsFirst(line, Some(c));
    assert seg[..c] == line[..c];
    TailSegment(line, seg, rest, c + 1);
  }

  lemma TailSegment(line: seq<Byte>, seg: seq<Byte>, rest: seq<Byte>, n: nat)
    requires line == seg + rest && n <= |seg| && (rest == [] || rest[0] == CR)
    requires forall i :: 0 <= i < |seg| ==> seg[i] != CR
    ensures line[n..][..CrIn(line[n..])] == seg[n..]
  {
    assert line[n..] == seg[n..] + rest;
    CrInAppend(seg[n..], rest);
  }

  /** What a parser reads back from the text after the colon, once it is trimmed and cut at a carriage return. */
  function ReadBack(mode: Mode, text: seq<Byte>): seq<Byte> {
    if mode.LineWrapping? then [] else Trim(Trim(text)[..CrIn(Trim(text))])
  }

  lemma FormattedPiece(mode: Mode, line: seq<Byte>, last: bool)
    requires HostColon(line).Some? && !mode.MixedCase?
    ensures var c := HostColon(line).value;
            var piece := PieceOf(FormatLine(mode, line, c)[0], last);
            piece.HostPiece? && Trim(piece.text) == ReadBack(mode, line[c + 1..])
  {
    var c := HostColon(line).value;
    var name, v := line[..c], Trim(line[c + 1..]);
    if mode.LineWrapping? {
      assert name + [COLON] == name + [COLON] + [] + [];
      NewPiece(name, [], [], name + [COLON], last);
    } else {
      NewPiece(name, Gap(mode), v, name + [COLON] + Gap(mode) + v, last);
    }
  }

  lemma {:induction false} RewrittenHost(mode: Mode, ls: seq<seq<Byte>>)
    requires HostOfLines(ls).Some? && !mode.MixedCase?
    ensures TextOf(ls).Some? && HostOfLines(ls).value == Trim(TextOf(ls).value[..CrIn(TextOf(ls).value)])
    ensures HostOfLines(RewriteLines(mode, ls)) == Some(ReadBack(mode, TextOf(ls).value))
  {
    var line, seg := ls[0], ls[0][..CrIn(ls[0])];
    if HostColon(seg).Some? {
      SegmentColon(line);
      var new0 := FormatLine(mode, line, HostColon(line).value);
      assert (new0 + ls[1..])[0] == new0[0];
      FormattedPiece(mode, line, |new0 + ls[1..]| == 1);
    } else {
      assert seg == line;
      RewrittenHost(mode, ls[1..]);
      assert ([line] + RewriteLines(mode, ls[1..]))[1..] == RewriteLines(mode, ls[1..]);
    }
  }
}
