/** Building an address query for a domain. */
module DnsQuery {
  import opened Bytes
  import opened Types
  import opened DnsMessage

  /** `domain.split('.')` */
  function SplitDots(s: seq<Byte>): (ls: seq<seq<Byte>>)
    ensures |ls| >= 1
  {
    if s == [] then [[]]
    else
      var ls := SplitDots(s[1..]);
      if s[0] == DOT then [[]] + ls else [[s[0]] + ls[0]] + ls[1..]
  }

  function Join(ls: seq<seq<Byte>>): seq<Byte>
    requires |ls| >= 1
  {
    if |ls| == 1 then ls[0] else ls[0] + ([DOT] + Join(ls[1..]))
  }

  /** Splitting loses nothing, and no label holds a dot. */
  lemma {:induction false} SplitJoin(s: seq<Byte>)
    ensures Join(SplitDots(s)) == s
    ensures forall l :: l in SplitDots(s) ==> DOT !in l
  {
    if s == [] {
    } else {
      var ls := SplitDots(s[1..]);
      SplitJoin(s[1..]);
      if s[0] == DOT {
        assert ([[]] + ls)[1..] == ls;
        assert [] + ([DOT] + Join(ls)) == s;
      } else {
        JoinHead(s[0], ls);
        assert s == [s[0]] + s[1..];
      }
    }
  }

  lemma JoinHead(b: Byte, ls: seq<seq<Byte>>)
    requires |ls| >= 1
    ensures Join([[b] + ls[0]] + ls[1..]) == [b] + Join(ls)
  {
    var xs := [[b] + ls[0]] + ls[1..];
    assert xs[1..] == ls[1..];
    if |ls| > 1 {
      Assoc([b], ls[0], [DOT] + Join(ls[1..]));
    }
  }

  const MAX_LABEL := 63

  /** Every label has between 1 and 63 bytes. */
  predicate LabelsAllowed(ls: seq<seq<Byte>>) {
    ls == [] || (0 < |ls[0]| <= MAX_LABEL && LabelsAllowed(ls[1..]))
  }

  /** A label that is too long is cut, without notice. */
  function Cut(l: seq<Byte>): (c: seq<Byte>)
    ensures |c| <= MAX_LABEL && c <= l && (|l| <= MAX_LABEL ==> c == l)
  {
    l[..Min(|l|, MAX_LABEL)]
  }

  function PutCut(ls: seq<seq<Byte>>, rest: seq<Byte>): seq<Byte> {
    if ls == [] then rest else [|Cut(ls[0])|] + (Cut(ls[0]) + PutCut(ls[1..], rest))
  }

  const QUERY_COUNTS: seq<Byte> := [1, 0, 0, 1, 0, 0, 0, 0, 0, 0]
  const ASK_ADDRESS: seq<Byte> := [0, 1, 0, 1]

  function Query(id: nat, domain: seq<Byte>): seq<Byte> {
    U16Bytes(id) + QUERY_COUNTS + PutCut(SplitDots(domain), [ROOT] + ASK_ADDRESS)
  }

  method BuildDnsQuery(domain: seq<Byte>, id: nat) returns (buf: seq<Byte>)
    ensures buf == Query(id, domain)
  {
    buf := U16Bytes(id) + QUERY_COUNTS;
    var labels := SplitDots(domain);
    var end := [ROOT] + ASK_ADDRESS;
    while labels != []
      invariant buf + PutCut(labels, end) == Query(id, domain)
      decreases |labels|
    {
      var piece := labels[0];
      var len := Min(|piece|, MAX_LABEL);
      Assoc(buf, [len], piece[..len] + PutCut(labels[1..], end));
      Assoc(buf + [len], piece[..len], PutCut(labels[1..], end));
      buf := buf + [len];
      buf := buf + piece[..len];
      labels := labels[1..];
    }
    Assoc(buf, [ROOT], ASK_ADDRESS);
    buf := buf + [ROOT];
    buf := buf + ASK_ADDRESS;
  }

  // ---------- What a server reads ----------

  /** An uncompressed name as a server reads it, section 3.1 of RFC 1035. */
  function ReadLabels(d: seq<Byte>, pos: nat): Option<seq<seq<Byte>>>
    decreases |d| - pos
  {
    if pos >= |d| then None
    else if d[pos] == ROOT then Some([])
    else if d[pos] > MAX_LABEL || pos + 1 + d[pos] > |d| then None
    else match ReadLabels(d, pos + 1 + d[pos])
      case None => None
      case Some(ls) => Some([d[pos + 1..pos + 1 + d[pos]]] + ls)
  }

  predicate NoneEmpty(ls: seq<seq<Byte>>) {
    ls == [] || (ls[0] != [] && NoneEmpty(ls[1..]))
  }

  function UntilEmpty(ls: seq<seq<Byte>>): seq<seq<Byte>> {
    if ls == [] || ls[0] == [] then [] else [Cut(ls[0])] + UntilEmpty(ls[1..])
  }

  lemma {:induction false} UntilEmptyExact(ls: seq<seq<Byte>>)
    ensures UntilEmpty(ls) == ls <==> LabelsAllowed(ls)
  {
    if ls != [] && ls[0] != [] {
      var all := [Cut(ls[0])] + UntilEmpty(ls[1..]);
      UntilEmptyExact(ls[1..]);
      assert all[0] == Cut(ls[0]) && all[1..] == UntilEmpty(ls[1..]);
      assert ls == [ls[0]] + ls[1..];
    }
  }

  /** Reading and skipping both stop at the first empty label. */
  lemma {:induction false} CutLabelsRead(d: seq<Byte>, pos: nat, ls: seq<seq<Byte>>, rest: seq<Byte>) returns (p: nat)
    requires 0 < pos <= |d| && d[pos..] == PutCut(ls, [ROOT] + rest)
    ensures SkipName(d, pos) == Some(p) && p + |rest| <= |d|
    ensures p + |rest| == |d| <==> NoneEmpty(ls)
    ensures ReadLabels(d, pos) == Some(UntilEmpty(ls))
    decreases |ls|
  {
    if ls == [] {
      Taken(d, pos, [ROOT], rest);
      TakenAt(d, pos, [ROOT], rest, 0);
      p := pos + 1;
    } else {
      var l, more := Cut(ls[0]), PutCut(ls[1..], [ROOT] + rest);
      LabelHere(d, pos, l, more);
      if l == [] {
        PutCutLength(ls[1..], [ROOT] + rest);
        p := pos + 1;
      } else {
        p := CutLabelsRead(d, pos + 1 + |l|, ls[1..], rest);
      }
    }
  }

  lemma LabelHere(d: seq<Byte>, pos: nat, l: seq<Byte>, more: seq<Byte>)
    requires |l| < 256 && 0 < pos <= |d| && d[pos..] == [|l|] + (l + more)
    ensures pos + 1 + |l| + |more| == |d| && d[pos] == |l| && d[pos + 1 + |l|..] == more
    ensures d[pos + 1..pos + 1 + |l|] == l
  {
    Taken(d, pos, [|l|], l + more);
    TakenAt(d, pos, [|l|], l + more, 0);
    Taken(d, pos + 1, l, more);
  }

  lemma {:induction false} PutCutLength(ls: seq<seq<Byte>>, rest: seq<Byte>)
    ensures |PutCut(ls, rest)| >= |rest|
  {
    if ls == [] {
    } else {
      PutCutLength(ls[1..], rest);
    }
  }

  /**
   * The query is one question for an address, type 1, of the Internet, class 1, with recursion asked for. The
   * skipped name ends at the query type exactly when no label is empty (so a trailing dot breaks the query),
   * and a server reads back the domain's own labels exactly when each has between 1 and 63 bytes.
   */
  lemma QueryAsksForDomain(id: nat, domain: seq<Byte>)
    ensures var q := Query(id, domain);
            && |q| >= 17 && q[2..12] == [1, 0, 0, 1, 0, 0, 0, 0, 0, 0] && q[|q| - 4..] == [0, 1, 0, 1]
            && (id < 0x1_0000 ==> 256 * q[0] as int + q[1] as int == id)
            && (SkipName(q, HEADER) == Some(|q| - 4) <==> NoneEmpty(SplitDots(domain)))
            && (ReadLabels(q, HEADER) == Some(SplitDots(domain)) <==> LabelsAllowed(SplitDots(domain)))
  {
    var q, ls := Query(id, domain), SplitDots(domain);
    var head := U16Bytes(id) + QUERY_COUNTS;
    U16Low(id);
    assert q[0] == U16Bytes(id)[0] && q[1] == U16Bytes(id)[1] && q[2..12] == QUERY_COUNTS;
    assert q[HEADER..] == PutCut(ls, [ROOT] + ASK_ADDRESS);
    PutCutLength(ls, [ROOT] + ASK_ADDRESS);
    var p := CutLabelsRead(q, HEADER, ls, ASK_ADDRESS);
    PutCutEnd(ls, ASK_ADDRESS);
    EndOf(head, PutCut(ls, [ROOT] + ASK_ADDRESS), ASK_ADDRESS);
    UntilEmptyExact(ls);
  }

  lemma {:induction false} PutCutEnd(ls: seq<seq<Byte>>, rest: seq<Byte>)
    ensures var s := PutCut(ls, [ROOT] + rest); |s| >= |rest| && s[|s| - |rest|..] == rest
  {
    if ls == [] {
      EndOf([ROOT], rest, rest);
    } else {
      var l, more := Cut(ls[0]), PutCut(ls[1..], [ROOT] + rest);
      PutCutEnd(ls[1..], rest);
      EndOf(l, more, rest);
      EndOf([|l|], l + more, rest);
    }
  }

  lemma EndOf<T>(a: seq<T>, s: seq<T>, rest: seq<T>)
    requires |s| >= |rest| && s[|s| - |rest|..] == rest
    ensures (a + s)[|a + s| - |rest|..] == rest
  {
  }
}
