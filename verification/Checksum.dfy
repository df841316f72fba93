/** The Internet checksum: sixteen-bit words, folded carries, complement. */
module Checksum {
  import opened Bytes

  /** The sum of the big-endian words of `p[i..end]`; a last odd byte counts as a high byte. */
  function Sum(p: seq<Byte>, i: nat, end: nat): nat
    requires end <= |p|
    decreases end - i
  {
    if i + 1 < end then Word(p, i) + Sum(p, i + 2, end)
    else if i < end then U16(p[i], 0)
    else 0
  }

  /** Fold the carries back in until sixteen bits are left. */
  function Fold(n: nat): (f: nat)
    ensures f < 0x1_0000
  {
    if n < 0x1_0000 then n else Fold(n % 0x1_0000 + n / 0x1_0000)
  }

  /** `!(sum as u16)` of the folded sum. */
  function Complement(sum: nat): (c: nat)
    ensures c < 0x1_0000
  {
    0xFFFF - Fold(sum)
  }

  method FoldCarries(start: nat) returns (sum: nat)
    ensures sum == Fold(start)
  {
    sum := start;
    while sum / 0x1_0000 != 0
      invariant Fold(sum) == Fold(start)
      decreases sum
    {
      sum := sum % 0x1_0000 + sum / 0x1_0000;
    }
  }

  /** Add the words of `p[from..end]` to a running sum. */
  method AddWords(p: seq<Byte>, from: nat, end: nat, start: nat) returns (sum: nat)
    requires from <= end <= |p|
    ensures sum == start + Sum(p, from, end)
  {
    sum := start;
    var i := from;
    while i + 1 < end
      invariant from <= i <= end && sum + Sum(p, i, end) == start + Sum(p, from, end)
    {
      sum := sum + Word(p, i);
      i := i + 2;
    }
    if i < end {
      sum := sum + U16(p[i], 0);
    }
  }

  // ---------- The fold is the canonical residue modulo 65535 ----------

  lemma SameResidue(a: int, k: int)
    ensures (a + 0xFFFF * k) % 0xFFFF == a % 0xFFFF
  {
    var m := a + 0xFFFF * k;
    assert a == 0xFFFF * (a / 0xFFFF) + a % 0xFFFF;
    assert m == 0xFFFF * (a / 0xFFFF + k) + a % 0xFFFF;
  }

  /** Folding keeps the residue modulo 65535, with 65535 itself for a non-zero multiple. */
  lemma {:induction false} FoldIsResidue(n: nat)
    ensures Fold(n) == if n == 0 then 0 else (n - 1) % 0xFFFF + 1
    decreases n
  {
    if n >= 0x1_0000 {
      var q, r := n / 0x1_0000, n % 0x1_0000;
      assert n - 1 == (q + r - 1) + 0xFFFF * q;
      SameResidue(q + r - 1, q);
      FoldIsResidue(r + q);
    }
  }

  /** Adding the complement of a sum gives the all-ones word: what the receiver checks. */
  lemma ComplementCloses(sum: nat)
    ensures Fold(sum + Complement(sum)) == 0xFFFF
  {
    FoldIsResidue(sum);
    FoldIsResidue(sum + Complement(sum));
    if sum > 0 {
      var k := (sum - 1) / 0xFFFF;
      assert sum - 1 == 0xFFFF * k + (sum - 1) % 0xFFFF;
      assert sum + Complement(sum) - 1 == 0xFFFE + 0xFFFF * k;
      SameResidue(0xFFFE, k);
    }
  }

  // ---------- Sums and updates ----------

  /** `s[at] = hi; s[at + 1] = lo` */
  function Write(s: seq<Byte>, at: nat, hi: Byte, lo: Byte): (r: seq<Byte>)
    requires at + 1 < |s|
    ensures |r| == |s| && r[at] == hi && r[at + 1] == lo
    ensures forall i :: 0 <= i < |s| && i != at && i != at + 1 ==> r[i] == s[i]
  {
    s[at := hi][at + 1 := lo]
  }

  /** `(v >> 8) as u8` */
  function High(v: nat): Byte {
    U16Bytes(v)[0]
  }

  /** `v as u8` */
  function Low(v: nat): Byte {
    U16Bytes(v)[1]
  }

  lemma HighLow(v: nat)
    ensures v < 0x1_0000 <==> U16(High(v), Low(v)) == v
  {
    U16Low(v);
  }

  lemma {:induction false} SumSame(p: seq<Byte>, q: seq<Byte>, i: nat, end: nat)
    requires end <= |p| && end <= |q| && forall j :: i <= j < end ==> p[j] == q[j]
    ensures Sum(p, i, end) == Sum(q, i, end)
    decreases end - i
  {
    if i + 1 < end {
      SumSame(p, q, i + 2, end);
    }
  }

  /** Writing a word over a zero word, on a word boundary, adds it to the sum. */
  lemma {:induction false} SumWrite(p: seq<Byte>, q: seq<Byte>, i: nat, end: nat, at: nat, hi: Byte, lo: Byte)
    requires i <= at && at + 1 < end <= |p| && (at - i) % 2 == 0
    requires p[at] == 0 && p[at + 1] == 0 && q == Write(p, at, hi, lo)
    ensures Sum(q, i, end) == Sum(p, i, end) + U16(hi, lo)
    decreases end - i
  {
    if i == at {
      SumSame(p, q, i + 2, end);
    } else {
      SumWrite(p, q, i + 2, end, at, hi, lo);
    }
  }

  /** A packet that fits sixteen bits of length cannot overflow the 32-bit accumulator. */
  lemma {:induction false} SumFitsU32(p: seq<Byte>, i: nat, end: nat)
    requires i <= end <= |p|
    ensures 2 * Sum(p, i, end) <= 0xFFFF * (end - i + 1)
    ensures end <= 0xFFFF ==> Sum(p, i, end) + 0x5_0000 < 0x1_0000_0000
    decreases end - i
  {
    if i + 1 < end {
      SumFitsU32(p, i + 2, end);
    }
  }
}
