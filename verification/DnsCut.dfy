/** A response cut off anywhere: the addresses in front of the cut, or an error. */
module DnsCut {
  import opened Bytes
  import opened Types
  import opened DnsMessage

  // ---------- Names ----------

  function NameBytes(n: Name): seq<Byte>
    requires NameFits(n)
  {
    PutName(n, [])
  }

  lemma {:induction false} LabelsJoined(ls: seq<seq<Byte>>, end: seq<Byte>, rest: seq<Byte>)
    requires LabelsFit(ls)
    ensures PutLabels(ls, end + rest) == PutLabels(ls, end) + rest
  {
    if ls == [] {
    } else {
      LabelsJoined(ls[1..], end, rest);
      Assoc(ls[0], PutLabels(ls[1..], end), rest);
      Assoc([|ls[0]|], ls[0] + PutLabels(ls[1..], end), rest);
    }
  }

  lemma NameJoined(n: Name, rest: seq<Byte>)
    requires NameFits(n)
    ensures PutName(n, rest) == NameBytes(n) + rest
  {
    assert NameEnd(n.pointer) + [] == NameEnd(n.pointer);
    LabelsJoined(n.labels, NameEnd(n.pointer), rest);
  }

  /** A name that is cut off leaves the packet. */
  lemma {:induction false} CutName(d: seq<Byte>, pos: nat, ls: seq<seq<Byte>>, end: seq<Byte>, part: seq<Byte>)
    requires LabelsFit(ls) && 0 < pos <= |d| && d[pos..] == part && part < PutLabels(ls, end)
    requires end == [ROOT] || (|end| == 2 && end[0] >= 0xC0)
    ensures SkipName(d, pos) == None
    decreases |ls|
  {
    if part != [] {
      assert d[pos] == part[0] == PutLabels(ls, end)[0];
      if ls != [] {
        var l, more := ls[0], PutLabels(ls[1..], end);
        if |part| >= 1 + |l| {
          var others, tail := ls[1..], part[1 + |l|..];
          CutBehind([|l|] + l, more, part, PutLabels(ls, end));
          assert d[pos + 1 + |l|..] == tail;
          CutName(d, pos + 1 + |l|, others, end, tail);
          LabelPassed(d, pos, |l|);
        }
      }
    }
  }

  lemma LabelPassed(d: seq<Byte>, pos: nat, n: nat)
    requires 0 < n < 0xC0 && pos + 1 + n <= |d| && d[pos] == n
    ensures SkipName(d, pos) == SkipName(d, pos + 1 + n)
  {
  }

  lemma CutBehind(a: seq<Byte>, b: seq<Byte>, part: seq<Byte>, whole: seq<Byte>)
    requires a != [] && |a| <= |part| && part < whole && whole == [a[0]] + (a[1..] + b)
    ensures part[|a|..] < b && part[..|a|] == a
  {
    assert whole == a + b;
  }

  // ---------- Answers ----------

  /** The bytes of a record. */
  function RecordBytes(r: Record): seq<Byte>
    requires RecordFits(r)
  {
    NameBytes(r.name) + (PrintFixed(r) + r.data)
  }

  /** The packet holds records with these addresses back to back from `pos` to `p`. */
  predicate HeldTo(d: seq<Byte>, pos: nat, rs: seq<Record>, p: nat)
    decreases |rs|
  {
    if rs == [] then p == pos
    else EntryAt(d, pos).Found? && EntryAt(d, pos).ips == AddressIn(rs[0]) && HeldTo(d, EntryAt(d, pos).next, rs[1..], p)
  }

  lemma {:induction false} RecordsHeldTo(d: seq<Byte>, pos: nat, rs: seq<Record>, rest: seq<Byte>) returns (p: nat)
    requires RecordsFit(rs) && 0 < pos <= |d| && d[pos..] == PutRecords(rs, rest)
    ensures 0 < p <= |d| && d[p..] == rest && HeldTo(d, pos, rs, p)
    decreases |rs|
  {
    if rs == [] {
      p := pos;
    } else {
      var more := rs[1..];
      var next := RecordRead(d, pos, rs[0], PutRecords(more, rest));
      p := RecordsHeldTo(d, next, more, rest);
    }
  }

  lemma {:induction false} AnswersBefore(d: seq<Byte>, pos: nat, front: seq<Record>, p: nat, n: nat, left: nat)
    requires HeldTo(d, pos, front, p) && n == |front| + left
    ensures Answers(d, pos, n) == Prepended(Addresses(front), Answers(d, p, left))
    decreases |front|
  {
    if front == [] {
      NothingBefore(Answers(d, p, left), Addresses(front));
    } else {
      var next, more := EntryAt(d, pos).next, front[1..];
      AnswersBefore(d, next, more, p, n - 1, left);
      BothPrepended(AddressIn(front[0]), Addresses(more), Addresses(front),
                    Answers(d, pos, n), Answers(d, next, n - 1), Answers(d, p, left));
    }
  }

  lemma NothingBefore(rest: Option<seq<Address>>, none: seq<Address>)
    requires none == []
    ensures Prepended(none, rest) == rest
  {
    PrependedNothing(rest);
  }

  lemma BothPrepended(
      a: seq<Address>, b: seq<Address>, ab: seq<Address>, all: Option<seq<Address>>, rest: Option<seq<Address>>,
      last: Option<seq<Address>>)
    requires ab == a + b && all == Prepended(a, rest) && rest == Prepended(b, last)
    ensures all == Prepended(ab, last)
  {
    PrependedTwice(a, b, last);
  }

  /** What a record that is cut off gives: an error inside the name, and the end of the answers otherwise. */
  lemma CutRecord(d: seq<Byte>, p: nat, r: Record, part: seq<Byte>, n: nat)
    requires RecordFits(r) && 0 < p <= |d| && d[p..] == part && part < RecordBytes(r) && n > 0
    ensures Answers(d, p, n) == if 0 < |part| < |NameBytes(r.name)| then None else Some([])
  {
    if part != [] {
      var name, more := NameBytes(r.name), PrintFixed(r) + r.data;
      if |part| < |name| {
        assert part < name;
        assert NameEnd(r.name.pointer) + [] == NameEnd(r.name.pointer);
        CutName(d, p, r.name.labels, NameEnd(r.name.pointer), part);
      } else {
        var rest := part[|name|..];
        assert part == name + rest && rest < more;
        NameJoined(r.name, rest);
        var at := LabelsSkipped(d, p, r.name.labels, NameEnd(r.name.pointer), rest);
        CutFixed(d, at, r, rest);
      }
    }
  }

  lemma CutFixed(d: seq<Byte>, at: nat, r: Record, rest: seq<Byte>)
    requires RecordFits(r) && 0 < at <= |d| && d[at..] == rest && rest < PrintFixed(r) + r.data
    ensures at + 10 > |d| || at + 10 + U16At(d, at + 8) > |d|
  {
    if at + 10 <= |d| {
      U16RoundTrip(|r.data|);
      assert d[at + 8] == rest[8] == PrintFixed(r)[8] && d[at + 9] == rest[9] == PrintFixed(r)[9];
    }
  }

  /**
   * Cut inside a record or in front of it: an error when the record's name is cut, and otherwise exactly the
   * addresses of the records that are there whole.
   */
  lemma CutInAnswer(m: Message, front: seq<Record>, r: Record, back: seq<Record>, part: seq<Byte>)
    requires Fits(m) && LowNibble(m.flags[1]) == 0 && m.answers == front + ([r] + back)
    requires RecordsFit(front) && RecordFits(r) && part < RecordBytes(r)
    ensures ParseResponse(PrintHeader(m) + PutQuestions(m.questions, PutRecords(front, part)))
            == if 0 < |part| < |NameBytes(r.name)| then None else Some(Addresses(front))
  {
    var rest := PutRecords(front, part);
    var d := PrintHeader(m) + PutQuestions(m.questions, rest);
    HeaderRead(m, d, PutQuestions(m.questions, rest));
    var p := QuestionsSkipped(d, HEADER, m.questions, rest);
    var at := RecordsHeldTo(d, p, front, part);
    AnswersBefore(d, p, front, at, |m.answers|, |m.answers| - |front|);
    CutRecord(d, at, r, part, |m.answers| - |front|);
    PrependedLast(Addresses(front));
  }

  // ---------- Questions ----------

  function QuestionBytes(q: Question): seq<Byte>
    requires NameFits(q.name)
  {
    NameBytes(q.name) + q.typeAndClass
  }

  lemma {:induction false} SkipsOn(d: seq<Byte>, pos: nat, front: nat, p: nat, left: nat)
    requires SkipQuestions(d, pos, front) == Some(p)
    ensures SkipQuestions(d, pos, front + left) == SkipQuestions(d, p, left)
    decreases front
  {
    if front > 0 {
      SkipsOn(d, SkipName(d, pos).value + 4, front - 1, p, left);
    }
  }

  lemma CutQuestion(d: seq<Byte>, p: nat, q: Question, part: seq<Byte>, n: nat)
    requires NameFits(q.name) && |q.typeAndClass| == 4
    requires 0 < p <= |d| && d[p..] == part && part < QuestionBytes(q) && n > 0
    ensures |part| < |NameBytes(q.name)| || n > 1 ==> SkipQuestions(d, p, n) == None
    ensures |part| >= |NameBytes(q.name)| && n == 1 ==>
              SkipQuestions(d, p, n).Some? && SkipQuestions(d, p, n).value >= |d|
  {
    var name := NameBytes(q.name);
    if |part| < |name| {
      assert part < name;
      assert NameEnd(q.name.pointer) + [] == NameEnd(q.name.pointer);
      CutName(d, p, q.name.labels, NameEnd(q.name.pointer), part);
    } else {
      var rest := part[|name|..];
      assert part == name + rest;
      NameJoined(q.name, rest);
      var at := LabelsSkipped(d, p, q.name.labels, NameEnd(q.name.pointer), rest);
      assert at + 4 > |d|;
      assert SkipQuestions(d, p, n) == SkipQuestions(d, at + 4, n - 1);
    }
  }

  lemma {:induction false} CutQuestions(d: seq<Byte>, pos: nat, front: seq<Question>, q: Question, part: seq<Byte>, n: nat)
    requires QuestionsFit(front) && NameFits(q.name) && |q.typeAndClass| == 4 && part < QuestionBytes(q)
    requires 0 < pos <= |d| && d[pos..] == PutQuestions(front, part) && n > |front|
    ensures |part| < |NameBytes(q.name)| || n > |front| + 1 ==> SkipQuestions(d, pos, n) == None
    ensures |part| >= |NameBytes(q.name)| && n == |front| + 1 ==>
              SkipQuestions(d, pos, n).Some? && SkipQuestions(d, pos, n).value >= |d|
  {
    var p := QuestionsSkipped(d, pos, front, part);
    CutQuestion(d, p, q, part, n - |front|);
    SkipsOn(d, pos, |front|, p, n - |front|);
  }

  /** Cut inside a question: an error, unless only the type or class of the last question is cut. */
  lemma CutInQuestion(m: Message, front: seq<Question>, q: Question, back: seq<Question>, part: seq<Byte>)
    requires Fits(m) && LowNibble(m.flags[1]) == 0 && m.questions == front + ([q] + back)
    requires QuestionsFit(front) && NameFits(q.name) && |q.typeAndClass| == 4 && part < QuestionBytes(q)
    ensures ParseResponse(PrintHeader(m) + PutQuestions(front, part))
            == if |part| < |NameBytes(q.name)| || back != [] then None else Some([])
  {
    var d := PrintHeader(m) + PutQuestions(front, part);
    HeaderRead(m, d, PutQuestions(front, part));
    CutQuestions(d, HEADER, front, q, part, |m.questions|);
  }
}
