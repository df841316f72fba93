/** The arithmetic of cutting a record into fragments that all end before or at the SNI. */
module SplitPoints {
  import opened Bytes

  // ---------- Library operations on vectors ----------

  function Insert(x: nat, s: seq<nat>): seq<nat> {
    if s == [] || x <= s[0] then [x] + s else [s[0]] + Insert(x, s[1..])
  }

  /** `Vec::sort` */
  function Sort(s: seq<nat>): seq<nat> {
    if s == [] then [] else Insert(s[0], Sort(s[1..]))
  }

  /** `Vec::dedup` */
  function Dedup(s: seq<nat>): seq<nat> {
    if |s| <= 1 then s
    else if s[0] == s[1] then Dedup(s[1..])
    else [s[0]] + Dedup(s[1..])
  }

  /** `Vec::retain(|p| 0 < p < bound)` */
  function Retain(s: seq<nat>, bound: nat): seq<nat> {
    if s == [] then []
    else (if 0 < s[0] < bound then [s[0]] else []) + Retain(s[1..], bound)
  }

  predicate Monotone(s: seq<nat>) {
    forall i :: 0 <= i && i + 1 < |s| ==> s[i] <= s[i + 1]
  }

  lemma {:induction false} SortedStays(s: seq<nat>)
    requires Monotone(s)
    ensures Sort(s) == s
  {
    if s == [] {
    } else {
      SortedStays(s[1..]);
    }
  }

  lemma {:induction false} DistinctStays(s: seq<nat>)
    requires forall i :: 0 <= i && i + 1 < |s| ==> s[i] < s[i + 1]
    ensures Dedup(s) == s
  {
    if |s| > 1 {
      DistinctStays(s[1..]);
    }
  }

  lemma {:induction false} InRangeStays(s: seq<nat>, bound: nat)
    requires forall i :: 0 <= i < |s| ==> 0 < s[i] < bound
    ensures Retain(s, bound) == s
  {
    if s == [] {
    } else {
      InRangeStays(s[1..], bound);
    }
  }

  function Count(from: nat, n: nat): (s: seq<nat>)
    ensures |s| == n && forall i :: 0 <= i < n ==> s[i] == from + i
  {
    seq(n, i requires 0 <= i => from + i)
  }

  /** A sequence that climbs in steps of 0 or 1 keeps every value in between. */
  lemma {:induction false} StaircaseDedup(s: seq<nat>)
    requires |s| > 0
    requires forall i :: 0 <= i && i + 1 < |s| ==> s[i] <= s[i + 1] <= s[i] + 1
    ensures s[|s| - 1] >= s[0] && Dedup(s) == Count(s[0], s[|s| - 1] - s[0] + 1)
  {
    if |s| > 1 {
      StaircaseDedup(s[1..]);
    }
  }

  // ---------- Evenly spaced cuts ----------

  /** `s * i / k` for the `i`-th of `k` cuts. */
  function Even(s: nat, i: nat, k: nat): nat
    requires k > 0
  {
    s * i / k
  }

  lemma EvenStep(s: nat, i: nat, k: nat)
    requires k > 0
    ensures s / k <= Even(s, i + 1, k) - Even(s, i, k) <= s / k + 1
  {
    assert s * (i + 1) == s * i + s;
    QuotientStep(s * i, s, k);
  }

  lemma QuotientStep(n: nat, s: nat, k: nat)
    requires k > 0
    ensures s / k <= (n + s) / k - n / k <= s / k + 1
  {
    QuotientParts(n + s, n / k, n % k, s / k, s % k, k);
  }

  lemma QuotientParts(n: nat, q: nat, r: nat, a: nat, b: nat, k: nat)
    requires k > 0 && r < k && b < k && n == q * k + r + (a * k + b)
    ensures a <= n / k - q <= a + 1
  {
    assert (q + a) * k == q * k + a * k;
    DivideSum(n, q + a, r + b, k);
  }

  lemma DivideSum(n: nat, q: nat, r: nat, k: nat)
    requires k > 0 && r < 2 * k && n == q * k + r
    ensures q <= n / k <= q + 1
  {
    if r < k {
      DivideExact(n, q, r, k);
    } else {
      assert (q + 1) * k == q * k + k;
      DivideExact(n, q + 1, r - k, k);
    }
  }

  lemma DivideExact(n: nat, q: nat, r: nat, k: nat)
    requires r < k && n == q * k + r
    ensures n / k == q
  {
    var m: int := q as int - n / k;
    assert n == n / k * k + n % k;
    assert m * k == q * k - n / k * k;
    Multiple(m, k);
  }

  lemma Multiple(m: int, k: nat)
    ensures m >= 1 ==> m * k >= k
    ensures m <= -1 ==> m * k + k <= 0
  {
  }

  lemma EvenEnds(s: nat, k: nat)
    requires k > 0
    ensures Even(s, 0, k) == 0 && Even(s, k, k) == s
  {
    DivideExact(s * k, s, 0, k);
  }

  lemma {:induction false} EvenOrder(s: nat, i: nat, j: nat, k: nat)
    requires k > 0 && i <= j
    ensures Even(s, i, k) <= Even(s, j, k)
    decreases j - i
  {
    if i < j {
      EvenStep(s, i, k);
      QuotientNonNegative(s, k);
      EvenOrder(s, i + 1, j, k);
    }
  }

  // ---------- The split points ----------

  /** The requested cuts that fit: `n - 1` even cuts up to `s`, or every byte position up to `s`. */
  function Points(s: nat, k: nat): (p: seq<nat>)
    requires k > 0
    ensures |p| == Min(k, s)
  {
    if s >= k then seq(k, i requires 0 <= i => Even(s, i + 1, k)) else Count(1, s)
  }

  function SplitPointsOf(dataLen: nat, sniOffset: nat, nFragments: nat): seq<nat>
    requires nFragments <= 1 || dataLen != 1
  {
    if nFragments <= 1 || dataLen == 0 then []
    else Points(Clamp(sniOffset, 1, dataLen - 1), nFragments - 1)
  }

  method ComputeSplitPoints(dataLen: nat, sniOffset: nat, nFragments: nat) returns (points: seq<nat>)
    requires nFragments <= 1 || dataLen != 1  // clamp(1, 0) panics
    ensures points == SplitPointsOf(dataLen, sniOffset, nFragments)
  {
    if nFragments <= 1 || dataLen == 0 {
      return [];
    }
    var nSplits: nat := nFragments - 1;
    var s: nat := Clamp(sniOffset, 1, dataLen - 1);
    points := [];
    var i: nat := 1;
    while i <= nSplits
      invariant 1 <= i <= nSplits + 1 && |points| == i - 1
      invariant forall j :: 0 <= j < i - 1 ==> points[j] == Clamp(Even(s, j + 1, nSplits), 1, dataLen - 1)
    {
      var pos := s * i / nSplits;
      points := points + [Clamp(pos, 1, dataLen - 1)];
      i := i + 1;
    }
    RawPoints(points, dataLen, s, nSplits);
    points := Sort(points);
    points := Dedup(points);
    points := Retain(points, dataLen);
  }

  /** Sorting is idle, deduplication leaves exactly the closed form, nothing is out of range. */
  lemma RawPoints(raw: seq<nat>, dataLen: nat, s: nat, k: nat)
    requires k > 0 && 1 <= s < dataLen && |raw| == k
    requires forall j :: 0 <= j < k ==> raw[j] == Clamp(Even(s, j + 1, k), 1, dataLen - 1)
    ensures Retain(Dedup(Sort(raw)), dataLen) == Points(s, k)
  {
    forall j | 0 <= j < k
      ensures raw[j] == if Even(s, j + 1, k) == 0 then 1 else Even(s, j + 1, k)
    {
      EvenOrder(s, j + 1, k, k);
      EvenEnds(s, k);
    }
    if s >= k {
      EnoughRoom(raw, s, k);
    } else {
      TooLittleRoom(raw, s, k);
    }
    PointsIncrease(s, k);
    SortedStays(raw);
    InRangeStays(Points(s, k), dataLen);
  }

  lemma EnoughRoom(raw: seq<nat>, s: nat, k: nat)
    requires 0 < k <= s && |raw| == k
    requires forall j :: 0 <= j < k ==> raw[j] == if Even(s, j + 1, k) == 0 then 1 else Even(s, j + 1, k)
    ensures Monotone(raw) && Dedup(raw) == Points(s, k)
  {
    PointsIncrease(s, k);
    assert raw == Points(s, k) by {
      forall j | 0 <= j < k
        ensures raw[j] == Points(s, k)[j]
      {
        assert 1 <= Points(s, k)[j];
      }
    }
    DistinctStays(raw);
  }

  lemma TooLittleRoom(raw: seq<nat>, s: nat, k: nat)
    requires 0 < s < k && |raw| == k
    requires forall j :: 0 <= j < k ==> raw[j] == if Even(s, j + 1, k) == 0 then 1 else Even(s, j + 1, k)
    ensures Monotone(raw) && Dedup(raw) == Points(s, k)
  {
    forall j | 0 <= j && j + 1 < k
      ensures raw[j] <= raw[j + 1] <= raw[j] + 1
    {
      RawStep(s, j, k);
    }
    EvenEnds(s, k);
    EvenStep(s, 0, k);
    QuotientZero(s, k);
    StaircaseDedup(raw);
  }

  lemma RawStep(s: nat, j: nat, k: nat)
    requires k > 0
    ensures Even(s, j + 1, k) <= Even(s, j + 2, k)
    ensures s < k ==> Even(s, j + 2, k) <= Even(s, j + 1, k) + 1
    ensures s >= k ==> 0 < Even(s, j + 1, k) < Even(s, j + 2, k)
  {
    EvenStep(s, j + 1, k);
    if s < k {
      QuotientZero(s, k);
    } else {
      QuotientPositive(s, k);
      EvenStep(s, 0, k);
      EvenEnds(s, k);
      EvenOrder(s, 1, j + 1, k);
    }
  }

  lemma QuotientPositive(s: nat, k: nat)
    requires 0 < k <= s
    ensures s / k >= 1
  {
  }

  lemma QuotientNonNegative(s: nat, k: nat)
    requires k > 0
    ensures s / k >= 0
  {
  }

  lemma QuotientZero(s: nat, k: nat)
    requires s < k
    ensures s / k == 0
  {
  }

  /** The cuts are strictly increasing positions in [1, s], the last one is s itself. */
  lemma PointsIncrease(s: nat, k: nat)
    requires k > 0 && s > 0
    ensures var p := Points(s, k);
            && |p| > 0 && p[|p| - 1] == s
            && (forall i :: 0 <= i < |p| ==> 1 <= p[i] <= s)
            && (forall i :: 0 <= i && i + 1 < |p| ==> p[i] < p[i + 1])
  {
    if s >= k {
      var p := Points(s, k);
      EvenEnds(s, k);
      EvenStep(s, 0, k);
      QuotientPositive(s, k);
      forall i | 0 <= i < k
        ensures 1 <= p[i] <= s
      {
        EvenOrder(s, 1, i + 1, k);
        EvenOrder(s, i + 1, k, k);
      }
      forall i | 0 <= i && i + 1 < k
        ensures p[i] < p[i + 1]
      {
        RawStep(s, i, k);
      }
    }
  }

  /** With enough room the slices in front of the last cut differ by at most one byte. */
  lemma SlicesEven(s: nat, k: nat, i: nat)
    requires k > 0 && s >= k && i < k
    ensures var p := Points(s, k);
            s / k <= p[i] - (if i == 0 then 0 else p[i - 1]) <= s / k + 1
  {
    EvenStep(s, i, k);
    EvenEnds(s, k);
  }
}
