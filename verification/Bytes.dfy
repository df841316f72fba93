/** Bytes, big-endian integers and slices of byte strings. */
module Bytes {

  type Byte = b: int | 0 <= b < 256

  const DOT: Byte := 46

  /** `u16::from_be_bytes([hi, lo]) as usize` */
  function U16(hi: Byte, lo: Byte): (n: nat)
    ensures n < 0x1_0000
  {
    256 * hi + lo
  }

  /** `u16::from_be_bytes([s[i], s[i + 1]]) as usize` */
  function Word(s: seq<Byte>, i: nat): (n: nat)
    requires i + 2 <= |s|
    ensures n < 0x1_0000
  {
    256 * s[i] as int + s[i + 1] as int
  }

  /** The three-byte number at `i`. */
  function Word24(s: seq<Byte>, i: nat): (n: nat)
    requires i + 3 <= |s|
    ensures n < 0x100_0000
  {
    65536 * s[i] as int + 256 * s[i + 1] as int + s[i + 2] as int
  }

  /** The two-byte length field at `i`; 0 when the input is too short to hold one. */
  function U16At(s: seq<Byte>, i: nat): (n: nat)
    ensures n < 0x1_0000
    ensures i + 2 <= |s| ==> n == Word(s, i)
  {
    if i + 2 <= |s| then Word(s, i) else 0
  }

  /** The one-byte length field at `i`; 0 when the input is too short to hold it. */
  function U8At(s: seq<Byte>, i: nat): (n: nat)
    ensures n < 256
    ensures i < |s| ==> n == s[i]
  {
    if i < |s| then s[i] else 0
  }

  // Shifts and casts by steps of 256 and 65536, so that what is known of a length field stays linear.

  /** `m >> 8` */
  function HighByte(m: nat): (h: nat)
    ensures 256 * h <= m
  {
    if m < 256 then 0 else 1 + HighByte(m - 256)
  }

  /** `m as u8` */
  function LowByte(m: nat): Byte {
    if m < 256 then m else LowByte(m - 256)
  }

  /** `b >> 4` */
  function HighNibble(b: nat): nat {
    if b < 16 then 0 else 1 + HighNibble(b - 16)
  }

  /** `b & 0x0F` */
  function LowNibble(b: nat): (n: nat)
    ensures n < 16
  {
    if b < 16 then b else LowNibble(b - 16)
  }

  /** `n as u16`: the cast keeps the low sixteen bits. */
  function Low16(n: nat): (m: nat)
    ensures m < 0x1_0000
  {
    if n < 0x1_0000 then n else Low16(n - 0x1_0000)
  }

  lemma {:induction false} BytesOf(m: nat)
    ensures m == 256 * HighByte(m) + LowByte(m)
  {
    if m >= 256 {
      BytesOf(m - 256);
    }
  }

  lemma {:induction false} NibblesOf(b: nat)
    ensures b == 16 * HighNibble(b) + LowNibble(b)
  {
    if b >= 16 {
      NibblesOf(b - 16);
    }
  }

  lemma {:induction false} NibblesRead(high: nat, low: nat)
    requires low < 16
    ensures HighNibble(16 * high + low) == high && LowNibble(16 * high + low) == low
  {
    if high > 0 {
      NibblesRead(high - 1, low);
    }
  }

  lemma {:induction false} Low16IsRemainder(n: nat)
    ensures Low16(n) == n % 0x1_0000
  {
    if n >= 0x1_0000 {
      Low16IsRemainder(n - 0x1_0000);
    }
  }

  /** `(n as u16).to_be_bytes()` */
  function U16Bytes(n: nat): (s: seq<Byte>)
    ensures |s| == 2
  {
    [HighByte(Low16(n)), LowByte(Low16(n))]
  }

  lemma U16Low(n: nat)
    ensures Word(U16Bytes(n), 0) == Low16(n)
  {
    BytesOf(Low16(n));
  }

  lemma U16RoundTrip(n: nat)
    requires n < 0x1_0000
    ensures Word(U16Bytes(n), 0) == n
  {
    BytesOf(n);
  }

  lemma WordBytes(hi: Byte, lo: Byte)
    ensures U16Bytes(256 * hi as int + lo as int) == [hi, lo]
  {
    BytesOf(256 * hi as int + lo as int);
  }

  /** A three-byte length field. */
  function U24Bytes(n: nat): (s: seq<Byte>)
    requires n < 0x100_0000
    ensures |s| == 3
  {
    HighInRange(n);
    [HighByte(HighByte(n)), LowByte(HighByte(n)), LowByte(n)]
  }

  lemma HighInRange(n: nat)
    requires n < 0x100_0000
    ensures HighByte(n) < 0x1_0000
  {
    BytesOf(n);
  }

  lemma U24RoundTrip(n: nat)
    requires n < 0x100_0000
    ensures Word24(U24Bytes(n), 0) == n
  {
    BytesOf(n);
    BytesOf(HighByte(n));
  }

  function Clamp(x: int, lo: int, hi: int): (r: int)
    requires lo <= hi
    ensures lo <= r <= hi && (lo <= x <= hi ==> r == x)
  {
    if x < lo then lo else if x > hi then hi else x
  }

  function Min(x: int, y: int): int {
    if x < y then x else y
  }

  function Zeros(n: nat): (s: seq<Byte>)
    ensures |s| == n && forall i :: 0 <= i < n ==> s[i] == 0
  {
    seq(n, _ => 0)
  }

  /** The bytes of an ASCII text. */
  function Text(s: string): (b: seq<Byte>)
    requires forall i :: 0 <= i < |s| ==> s[i] < '\U{80}'
    ensures |b| == |s|
  {
    seq(|s|, i requires 0 <= i < |s| => s[i] as int)
  }

  predicate SameAt(a: seq<Byte>, b: seq<Byte>, i: nat) {
    i < |a| && i < |b| && a[i] == b[i]
  }

  lemma Assoc<T>(a: seq<T>, b: seq<T>, c: seq<T>)
    ensures a + b + c == a + (b + c)
  {
  }

  lemma PrefixSlice<T>(a: seq<T>, h: seq<T>, lo: nat, hi: nat)
    requires a <= h && lo <= hi <= |a|
    ensures a[lo..hi] == h[lo..hi]
  {
  }

  /** Slicing a suffix of a buffer is slicing the buffer. */
  lemma Slice<T>(h: seq<T>, pos: nat, lo: nat, hi: nat)
    requires lo <= hi && pos + hi <= |h|
    ensures h[pos..][lo..hi] == h[pos + lo..pos + hi]
  {
  }

  /** Slicing a window of a buffer is slicing the buffer. */
  lemma Window<T>(h: seq<T>, pos: nat, end: nat, lo: nat, hi: nat)
    requires pos <= end <= |h| && lo <= hi <= end - pos
    ensures h[pos..end][lo..hi] == h[pos + lo..pos + hi]
  {
    var a, w := h[pos..end][lo..hi], h[pos + lo..pos + hi];
    assert |a| == |w|;
    assert forall i :: 0 <= i < |a| ==> a[i] == w[i];
  }

  /** When the suffix at `pos` starts with `a`, the packet holds `a` there, and the rest follows it. */
  lemma Taken(d: seq<Byte>, pos: nat, a: seq<Byte>, rest: seq<Byte>)
    requires 0 < pos <= |d| && d[pos..] == a + rest
    ensures pos + |a| <= |d| && d[pos + |a|..] == rest && d[pos..pos + |a|] == a
  {
    assert d[pos..pos + |a|] == d[pos..][..|a|];
    assert d[pos + |a|..] == d[pos..][|a|..];
  }

  lemma TakenAt(d: seq<Byte>, pos: nat, a: seq<Byte>, rest: seq<Byte>, i: nat)
    requires 0 < pos <= |d| && d[pos..] == a + rest && i < |a|
    ensures pos + |a| <= |d| && d[pos + i] == a[i]
  {
    assert d[pos..][i] == a[i];
  }
}
