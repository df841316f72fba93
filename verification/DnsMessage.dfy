/** DNS messages: building an address query, reading the addresses of a response. */
module DnsMessage {
  import opened Bytes
  import opened Types

  type Address = seq<Byte>

  const HEADER := 12
  const ROOT: Byte := 0
  const TYPE_A := 1

  // ---------- The parser ----------

  /** The position after the name at `pos`, or nothing when the name leaves the packet. */
  function SkipName(d: seq<Byte>, pos: nat): (r: Option<nat>)
    ensures r.Some? ==> pos < r.value <= |d|
    decreases |d| - pos
  {
    if pos >= |d| then None
    else if d[pos] == 0 then Some(pos + 1)
    else if d[pos] >= 0xC0 then if pos + 2 > |d| then None else Some(pos + 2)
    else if pos + 1 + d[pos] > |d| then None
    else SkipName(d, pos + 1 + d[pos])
  }

  function SkipQuestions(d: seq<Byte>, pos: nat, n: nat): Option<nat>
    decreases n
  {
    if n == 0 then Some(pos)
    else match SkipName(d, pos)
      case None => None
      case Some(p) => SkipQuestions(d, p + 4, n - 1)
  }

  /** The address in the record whose type field is at `p`, if it is an A record. */
  function AddressAt(d: seq<Byte>, p: nat): (ips: seq<Address>)
    requires p + 10 + U16At(d, p + 8) <= |d|
    ensures |ips| <= 1
  {
    if U16At(d, p) == TYPE_A && U16At(d, p + 8) == 4 then [[d[p + 10], d[p + 11], d[p + 12], d[p + 13]]] else []
  }

  /** What stands at a position: a name that leaves the packet, a record cut off, or a whole record. */
  datatype Entry = Broken | CutOff | Found(ips: seq<Address>, next: nat)

  function EntryAt(d: seq<Byte>, pos: nat): (e: Entry)
    ensures e.Found? ==> pos < e.next <= |d|
  {
    if pos >= |d| then CutOff
    else match SkipName(d, pos)
      case None => Broken
      case Some(p) =>
        if p + 10 > |d| || p + 10 + U16At(d, p + 8) > |d| then CutOff
        else Found(AddressAt(d, p), p + 10 + U16At(d, p + 8))
  }

  function Prepended(ips: seq<Address>, rest: Option<seq<Address>>): Option<seq<Address>> {
    if rest.None? then None else Some(ips + rest.value)
  }

  /** The addresses in the next `n` records; the last ones may be cut off. */
  function Answers(d: seq<Byte>, pos: nat, n: nat): Option<seq<Address>>
    decreases n
  {
    if n == 0 then Some([])
    else match EntryAt(d, pos)
      case Broken => None
      case CutOff => Some([])
      case Found(ips, next) => Prepended(ips, Answers(d, next, n - 1))
  }

  /** The low four bits of the flags. */
  function ResponseCode(d: seq<Byte>): nat
    requires |d| >= HEADER
  {
    LowNibble(Word(d, 2))
  }

  function ParseResponse(d: seq<Byte>): Option<seq<Address>> {
    if |d| < HEADER || ResponseCode(d) != 0 then None
    else match SkipQuestions(d, HEADER, U16At(d, 4))
      case None => None
      case Some(p) => Answers(d, p, U16At(d, 6))
  }

  method SkipDnsName(d: seq<Byte>, start: nat) returns (r: Option<nat>)
    ensures r == SkipName(d, start)
  {
    var pos := start;
    while true
      invariant SkipName(d, pos) == SkipName(d, start)
      decreases |d| - pos
    {
      if pos >= |d| {
        return None;
      }
      var len := d[pos];
      if len == 0 {
        pos := pos + 1;
        break;
      }
      if len >= 0xC0 {
        if pos + 2 > |d| {
          return None;
        }
        pos := pos + 2;
        break;
      }
      if pos + 1 + len > |d| {
        return None;
      }
      pos := pos + 1 + len;
    }
    return Some(pos);
  }

  method ParseDnsResponse(d: seq<Byte>) returns (r: Option<seq<Address>>)
    ensures r == ParseResponse(d)
  {
    if |d| < HEADER {
      return None;
    }
    var rcode := ResponseCode(d);
    if rcode != 0 {
      return None;
    }
    var qdcount, ancount := Word(d, 4), Word(d, 6);
    var pos := HEADER;
    var asked := 0;
    while asked < qdcount
      invariant 0 <= asked <= qdcount && pos > 0
      invariant SkipQuestions(d, pos, qdcount - asked) == SkipQuestions(d, HEADER, qdcount)
    {
      var next := SkipDnsName(d, pos);
      if next.None? {
        return None;
      }
      pos := next.value + 4;
      asked := asked + 1;
    }
    r := ReadAnswers(d, pos, ancount);
  }

  method ReadAnswers(d: seq<Byte>, start: nat, ancount: nat) returns (r: Option<seq<Address>>)
    ensures r == Answers(d, start, ancount)
  {
    var pos, ips := start, [];
    ghost var all := Answers(d, start, ancount);
    PrependedNothing(all);
    var n := 0;
    while n < ancount
      invariant 0 <= n <= ancount
      invariant all == Prepended(ips, Answers(d, pos, ancount - n))
    {
      var entry := ReadAnswer(d, pos);
      if entry.CutOff? {
        PrependedLast(ips);
        return Some(ips);
      }
      if entry.Broken? {
        return None;
      }
      PrependedTwice(ips, entry.ips, Answers(d, entry.next, ancount - n - 1));
      ips := ips + entry.ips;
      pos := entry.next;
      n := n + 1;
    }
    PrependedLast(ips);
    return Some(ips);
  }

  /** One turn of the answer loop. */
  method ReadAnswer(d: seq<Byte>, start: nat) returns (e: Entry)
    ensures e == EntryAt(d, start)
  {
    var pos := start;
    if pos >= |d| {
      return CutOff;
    }
    var next := SkipDnsName(d, pos);
    if next.None? {
      return Broken;
    }
    pos := next.value;
    if pos + 10 > |d| {
      return CutOff;
    }
    var rtype, rdlength := Word(d, pos), Word(d, pos + 8);
    pos := pos + 10;
    if pos + rdlength > |d| {
      return CutOff;
    }
    var ips := [];
    if rtype == TYPE_A && rdlength == 4 {
      ips := [[d[pos], d[pos + 1], d[pos + 2], d[pos + 3]]];
    }
    return Found(ips, pos + rdlength);
  }

  lemma PrependedNothing(rest: Option<seq<Address>>)
    ensures Prepended([], rest) == rest
  {
    if rest.Some? {
      assert [] + rest.value == rest.value;
    }
  }

  lemma PrependedLast(ips: seq<Address>)
    ensures Prepended(ips, Some([])) == Some(ips)
  {
    assert ips + [] == ips;
  }

  lemma PrependedTwice(a: seq<Address>, b: seq<Address>, rest: Option<seq<Address>>)
    ensures Prepended(a, Prepended(b, rest)) == Prepended(a + b, rest)
  {
    if rest.Some? {
      Assoc(a, b, rest.value);
    }
  }

  lemma LowNibbleOfWord(hi: Byte, lo: Byte)
    ensures LowNibble(256 * hi + lo) == LowNibble(lo)
  {
    NibblesOf(lo);
    NibblesRead(16 * hi + HighNibble(lo), LowNibble(lo));
  }

  // ---------- Truncation ----------

  lemma {:induction false} SkipNameExtends(d: seq<Byte>, e: seq<Byte>, pos: nat)
    requires d <= e && SkipName(d, pos).Some?
    ensures SkipName(e, pos) == SkipName(d, pos)
    decreases |d| - pos
  {
    if d[pos] != 0 && d[pos] < 0xC0 {
      SkipNameExtends(d, e, pos + 1 + d[pos]);
    }
  }

  lemma {:induction false} SkipQuestionsExtends(d: seq<Byte>, e: seq<Byte>, pos: nat, n: nat)
    requires d <= e && SkipQuestions(d, pos, n).Some?
    ensures SkipQuestions(e, pos, n) == SkipQuestions(d, pos, n)
    decreases n
  {
    if n > 0 {
      SkipNameExtends(d, e, pos);
      SkipQuestionsExtends(d, e, SkipName(d, pos).value + 4, n - 1);
    }
  }

  lemma EntryExtends(d: seq<Byte>, e: seq<Byte>, pos: nat)
    requires d <= e && EntryAt(d, pos).Found?
    ensures EntryAt(e, pos) == EntryAt(d, pos)
  {
    SkipNameExtends(d, e, pos);
  }

  lemma PrefixAfter<T>(x: seq<T>, a: seq<T>, b: seq<T>)
    requires a <= b
    ensures x + a <= x + b
  {
  }

  lemma {:induction false} AnswersExtend(d: seq<Byte>, e: seq<Byte>, pos: nat, n: nat)
    requires d <= e && Answers(d, pos, n).Some? && Answers(e, pos, n).Some?
    ensures Answers(d, pos, n).value <= Answers(e, pos, n).value
    decreases n
  {
    if n > 0 && EntryAt(d, pos).Found? {
      EntryExtends(d, e, pos);
      var next := EntryAt(d, pos).next;
      AnswersExtend(d, e, next, n - 1);
      PrefixAfter(EntryAt(d, pos).ips, Answers(d, next, n - 1).value, Answers(e, next, n - 1).value);
    }
  }

  /** When a truncated response parses at all, it gives the first addresses of the whole one. */
  lemma TruncationGivesPrefix(d: seq<Byte>, e: seq<Byte>)
    requires d <= e && ParseResponse(d).Some? && ParseResponse(e).Some?
    ensures ParseResponse(d).value <= ParseResponse(e).value
  {
    CountsExtend(d, e);
    SkipQuestionsExtends(d, e, HEADER, U16At(d, 4));
    SkipQuestionsAdvance(d, HEADER, U16At(d, 4));
    AnswersExtend(d, e, SkipQuestions(d, HEADER, U16At(d, 4)).value, U16At(d, 6));
  }

  lemma CountsExtend(d: seq<Byte>, e: seq<Byte>)
    requires d <= e && |d| >= HEADER
    ensures d[2] == e[2] && d[3] == e[3] && U16At(e, 4) == U16At(d, 4) && U16At(e, 6) == U16At(d, 6)
  {
  }

  lemma {:induction false} SkipQuestionsAdvance(d: seq<Byte>, pos: nat, n: nat)
    requires SkipQuestions(d, pos, n).Some?
    ensures pos <= SkipQuestions(d, pos, n).value
    decreases n
  {
    if n > 0 {
      SkipQuestionsAdvance(d, SkipName(d, pos).value + 4, n - 1);
    }
  }

  // ---------- Printed messages ----------

  /** A name ends in the root or in a compression pointer. */
  datatype Name = Name(labels: seq<seq<Byte>>, pointer: Option<nat>)

  datatype Question = Question(name: Name, typeAndClass: seq<Byte>)

  datatype Record = Record(name: Name, kind: nat, classAndTtl: seq<Byte>, data: seq<Byte>)

  /** `tail` is whatever follows the answers: authority and additional records. */
  datatype Message = Message(
    id: seq<Byte>, flags: seq<Byte>, otherCounts: seq<Byte>,
    questions: seq<Question>, answers: seq<Record>, tail: seq<Byte>)

  /** Labels as long as the parser takes them; a name that keeps to its format has no label above 63 bytes. */
  predicate LabelsFit(ls: seq<seq<Byte>>) {
    ls == [] || (0 < |ls[0]| < 0xC0 && LabelsFit(ls[1..]))
  }

  predicate NameFits(n: Name) {
    LabelsFit(n.labels) && (n.pointer.Some? ==> n.pointer.value < 0x4000)
  }

  predicate QuestionsFit(qs: seq<Question>) {
    qs == [] || (NameFits(qs[0].name) && |qs[0].typeAndClass| == 4 && QuestionsFit(qs[1..]))
  }

  predicate RecordFits(r: Record) {
    NameFits(r.name) && r.kind < 0x1_0000 && |r.classAndTtl| == 6 && |r.data| < 0x1_0000
  }

  predicate RecordsFit(rs: seq<Record>) {
    rs == [] || (RecordFits(rs[0]) && RecordsFit(rs[1..]))
  }

  predicate Fits(m: Message) {
    && |m.id| == 2 && |m.flags| == 2 && |m.otherCounts| == 4
    && |m.questions| < 0x1_0000 && QuestionsFit(m.questions)
    && |m.answers| < 0x1_0000 && RecordsFit(m.answers)
  }

  // Every printer below puts its value in front of the bytes `rest`.

  function PutLabels(ls: seq<seq<Byte>>, rest: seq<Byte>): seq<Byte>
    requires LabelsFit(ls)
  {
    if ls == [] then rest else [|ls[0]|] + (ls[0] + PutLabels(ls[1..], rest))
  }

  function NameEnd(pointer: Option<nat>): (s: seq<Byte>)
    requires pointer.Some? ==> pointer.value < 0x4000
    ensures 1 <= |s| <= 2
  {
    if pointer.None? then [ROOT] else [0xC0 + pointer.value / 256, pointer.value % 256]
  }

  function PutName(n: Name, rest: seq<Byte>): seq<Byte>
    requires NameFits(n)
  {
    PutLabels(n.labels, NameEnd(n.pointer) + rest)
  }

  function PutQuestions(qs: seq<Question>, rest: seq<Byte>): seq<Byte>
    requires QuestionsFit(qs)
  {
    if qs == [] then rest else PutName(qs[0].name, qs[0].typeAndClass + PutQuestions(qs[1..], rest))
  }

  function PrintFixed(r: Record): (s: seq<Byte>)
    requires |r.classAndTtl| == 6
    ensures |s| == 10
  {
    U16Bytes(r.kind) + r.classAndTtl + U16Bytes(|r.data|)
  }

  function PutRecords(rs: seq<Record>, rest: seq<Byte>): seq<Byte>
    requires RecordsFit(rs)
  {
    if rs == [] then rest
    else PutName(rs[0].name, PrintFixed(rs[0]) + (rs[0].data + PutRecords(rs[1..], rest)))
  }

  function PrintHeader(m: Message): (s: seq<Byte>)
    requires Fits(m)
    ensures |s| == HEADER
  {
    m.id + m.flags + U16Bytes(|m.questions|) + U16Bytes(|m.answers|) + m.otherCounts
  }

  function Print(m: Message): seq<Byte>
    requires Fits(m)
  {
    PrintHeader(m) + PutQuestions(m.questions, PutRecords(m.answers, m.tail))
  }

  function AddressIn(r: Record): seq<Address> {
    if r.kind == 1 && |r.data| == 4 then [r.data] else []
  }

  /** The addresses a response carries: the data of its four-byte A records, in order. */
  function Addresses(rs: seq<Record>): seq<Address> {
    if rs == [] then [] else AddressIn(rs[0]) + Addresses(rs[1..])
  }

  // ---------- The parser inverts the printer ----------

  lemma LabelRead(d: seq<Byte>, pos: nat, l: seq<Byte>, rest: seq<Byte>)
    requires 0 < |l| < 0xC0 && 0 < pos <= |d| && d[pos..] == [|l|] + (l + rest)
    ensures pos + 1 + |l| <= |d| && d[pos] == |l| && d[pos + 1..pos + 1 + |l|] == l && d[pos + 1 + |l|..] == rest
  {
    Taken(d, pos, [|l|], l + rest);
    Taken(d, pos + 1, l, rest);
    TakenAt(d, pos, [|l|], l + rest, 0);
  }

  lemma {:induction false} LabelsSkipped(d: seq<Byte>, pos: nat, ls: seq<seq<Byte>>, end: seq<Byte>, rest: seq<Byte>)
    returns (p: nat)
    requires LabelsFit(ls) && 0 < pos <= |d| && d[pos..] == PutLabels(ls, end + rest)
    requires end == [ROOT] || (|end| == 2 && end[0] >= 0xC0)
    ensures SkipName(d, pos) == Some(p) && d[p..] == rest
    decreases |ls|
  {
    if ls == [] {
      Taken(d, pos, end, rest);
      TakenAt(d, pos, end, rest, 0);
      p := pos + |end|;
    } else {
      LabelRead(d, pos, ls[0], PutLabels(ls[1..], end + rest));
      p := LabelsSkipped(d, pos + 1 + |ls[0]|, ls[1..], end, rest);
    }
  }

  lemma QuestionSkipped(d: seq<Byte>, pos: nat, q: Question, rest: seq<Byte>) returns (p: nat)
    requires NameFits(q.name) && |q.typeAndClass| == 4
    requires 0 < pos <= |d| && d[pos..] == PutName(q.name, q.typeAndClass + rest)
    ensures SkipName(d, pos) == Some(p) && p + 4 <= |d| && d[p + 4..] == rest
  {
    p := LabelsSkipped(d, pos, q.name.labels, NameEnd(q.name.pointer), q.typeAndClass + rest);
    Taken(d, p, q.typeAndClass, rest);
  }

  lemma FirstQuestion(d: seq<Byte>, pos: nat, qs: seq<Question>, more: seq<Question>, rest: seq<Byte>) returns (p: nat)
    requires QuestionsFit(qs) && qs != [] && more == qs[1..] && 0 < pos <= |d| && d[pos..] == PutQuestions(qs, rest)
    ensures QuestionsFit(more) && |more| == |qs| - 1
    ensures SkipName(d, pos) == Some(p) && p + 4 <= |d| && d[p + 4..] == PutQuestions(more, rest)
  {
    p := QuestionSkipped(d, pos, qs[0], PutQuestions(more, rest));
  }

  lemma {:induction false} QuestionsSkipped(d: seq<Byte>, pos: nat, qs: seq<Question>, rest: seq<Byte>) returns (p: nat)
    requires QuestionsFit(qs) && 0 < pos <= |d| && d[pos..] == PutQuestions(qs, rest)
    ensures SkipQuestions(d, pos, |qs|) == Some(p) && 0 < p <= |d| && d[p..] == rest
    decreases |qs|
  {
    if qs == [] {
      p := pos;
    } else {
      var more := qs[1..];
      var after := FirstQuestion(d, pos, qs, more, rest);
      p := QuestionsSkipped(d, after + 4, more, rest);
      SkipsOne(d, pos, |qs|, after, p);
    }
  }

  lemma SkipsOne(d: seq<Byte>, pos: nat, n: nat, after: nat, p: nat)
    requires n > 0 && SkipName(d, pos) == Some(after) && SkipQuestions(d, after + 4, n - 1) == Some(p)
    ensures SkipQuestions(d, pos, n) == Some(p)
  {
  }

  lemma FixedRead(d: seq<Byte>, p: nat, r: Record, rest: seq<Byte>)
    requires RecordFits(r) && 0 < p <= |d| && d[p..] == PrintFixed(r) + (r.data + rest)
    ensures p + 10 + |r.data| <= |d| && U16At(d, p + 8) == |r.data| && AddressAt(d, p) == AddressIn(r)
    ensures d[p + 10 + |r.data|..] == rest
  {
    var f, more := PrintFixed(r), r.data + rest;
    Taken(d, p, f, more);
    Taken(d, p + 10, r.data, rest);
    U16RoundTrip(r.kind);
    U16RoundTrip(|r.data|);
    TakenAt(d, p, f, more, 0);
    TakenAt(d, p, f, more, 1);
    TakenAt(d, p, f, more, 8);
    TakenAt(d, p, f, more, 9);
    if |r.data| == 4 {
      FourBytes(d[p + 10..p + 14]);
    }
  }

  lemma RecordRead(d: seq<Byte>, pos: nat, r: Record, rest: seq<Byte>) returns (next: nat)
    requires RecordFits(r) && 0 < pos <= |d|
    requires d[pos..] == PutName(r.name, PrintFixed(r) + (r.data + rest))
    ensures EntryAt(d, pos) == Found(AddressIn(r), next) && d[next..] == rest
  {
    var p := LabelsSkipped(d, pos, r.name.labels, NameEnd(r.name.pointer), PrintFixed(r) + (r.data + rest));
    FixedRead(d, p, r, rest);
    next := p + 10 + |r.data|;
    EntryBehind(d, pos, p);
  }

  lemma EntryBehind(d: seq<Byte>, pos: nat, p: nat)
    requires SkipName(d, pos) == Some(p) && p + 10 <= |d| && p + 10 + U16At(d, p + 8) <= |d|
    ensures EntryAt(d, pos) == Found(AddressAt(d, p), p + 10 + U16At(d, p + 8))
  {
  }

  lemma FourBytes(a: seq<Byte>)
    requires |a| == 4
    ensures a == [a[0], a[1], a[2], a[3]]
  {
  }

  /** The packet holds records with these addresses back to back from `pos` on. */
  predicate Held(d: seq<Byte>, pos: nat, rs: seq<Record>)
    decreases |rs|
  {
    rs == []
    || (EntryAt(d, pos).Found? && EntryAt(d, pos).ips == AddressIn(rs[0]) && Held(d, EntryAt(d, pos).next, rs[1..]))
  }

  lemma {:induction false} RecordsHeld(d: seq<Byte>, pos: nat, rs: seq<Record>, rest: seq<Byte>)
    requires RecordsFit(rs) && 0 < pos <= |d| && d[pos..] == PutRecords(rs, rest)
    ensures Held(d, pos, rs)
    decreases |rs|
  {
    if rs == [] {
    } else {
      var next := RecordRead(d, pos, rs[0], PutRecords(rs[1..], rest));
      RecordsHeld(d, next, rs[1..], rest);
    }
  }

  lemma {:induction false} AnswersRead(d: seq<Byte>, pos: nat, rs: seq<Record>)
    requires Held(d, pos, rs)
    ensures Answers(d, pos, |rs|) == Some(Addresses(rs))
    decreases |rs|
  {
    if rs == [] {
    } else {
      AnswersRead(d, EntryAt(d, pos).next, rs[1..]);
    }
  }

  lemma HeaderRead(m: Message, d: seq<Byte>, rest: seq<Byte>)
    requires Fits(m) && d == PrintHeader(m) + rest
    ensures |d| >= HEADER && d[HEADER..] == rest && ResponseCode(d) == LowNibble(m.flags[1])
    ensures U16At(d, 4) == |m.questions| && U16At(d, 6) == |m.answers|
  {
    U16RoundTrip(|m.questions|);
    U16RoundTrip(|m.answers|);
    assert d[2] == m.flags[0] && d[3] == m.flags[1];
    LowNibbleOfWord(m.flags[0], m.flags[1]);
  }

  /**
   * The response code decides, and a response without an error gives exactly the A records it was
   * printed from, in order, whatever other records it has and however its names are compressed.
   */
  lemma ResponseRoundTrip(m: Message)
    requires Fits(m)
    ensures ParseResponse(Print(m)) == if LowNibble(m.flags[1]) != 0 then None else Some(Addresses(m.answers))
  {
    var d := Print(m);
    HeaderRead(m, d, PutQuestions(m.questions, PutRecords(m.answers, m.tail)));
    var p := QuestionsSkipped(d, HEADER, m.questions, PutRecords(m.answers, m.tail));
    RecordsHeld(d, p, m.answers, m.tail);
    AnswersRead(d, p, m.answers);
  }
}
