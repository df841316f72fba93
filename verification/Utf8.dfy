/** UTF-8 as the standard library decodes it: strings are kept as their UTF-8 bytes. */
module Utf8 {
  import opened Bytes

  predicate IsCont(b: seq<Byte>, i: nat) {
    i < |b| && 0x80 <= b[i] <= 0xBF
  }

  predicate InRange(b: seq<Byte>, i: nat, lo: Byte, hi: Byte) {
    i < |b| && lo <= b[i] <= hi
  }

  /** The second byte a three- or four-byte sequence may carry after its lead byte. */
  predicate SecondOk(b: seq<Byte>) {
    if b == [] then false
    else if b[0] == 0xE0 then InRange(b, 1, 0xA0, 0xBF)
    else if b[0] == 0xED then InRange(b, 1, 0x80, 0x9F)
    else if b[0] == 0xF0 then InRange(b, 1, 0x90, 0xBF)
    else if b[0] == 0xF4 then InRange(b, 1, 0x80, 0x8F)
    else IsCont(b, 1)
  }

  type Positive = n: nat | n > 0 witness 1

  datatype Scalar = Good(len: Positive) | Broken(len: Positive)

  /** Decode one scalar value: how many bytes it takes, or how many the ill-formed prefix takes. */
  function Next(b: seq<Byte>): (r: Scalar)
    ensures r.len > 0
    ensures |b| > 0 ==> r.len <= |b|
  {
    if b == [] then Broken(1)
    else if b[0] < 0x80 then Good(1)
    else if 0xC2 <= b[0] <= 0xDF then (if IsCont(b, 1) then Good(2) else Broken(1))
    else if 0xE0 <= b[0] <= 0xEF then
      if !SecondOk(b) then Broken(1) else if !IsCont(b, 2) then Broken(2) else Good(3)
    else if 0xF0 <= b[0] <= 0xF4 then
      if !SecondOk(b) then Broken(1)
      else if !IsCont(b, 2) then Broken(2)
      else if !IsCont(b, 3) then Broken(3)
      else Good(4)
    else Broken(1)
  }

  /** `str::from_utf8(b).is_ok()` */
  predicate Valid(b: seq<Byte>)
    decreases |b|
  {
    b == [] || (Next(b).Good? && Valid(b[Next(b).len..]))
  }

  const REPLACEMENT: seq<Byte> := [0xEF, 0xBF, 0xBD]

  /** `String::from_utf8_lossy(b)`: every ill-formed prefix becomes U+FFFD. */
  function Lossy(b: seq<Byte>): seq<Byte>
    decreases |b|
  {
    if b == [] then []
    else
      var n := Next(b).len;
      (if Next(b).Good? then b[..n] else REPLACEMENT) + Lossy(b[n..])
  }

  lemma {:induction false} LossyKeepsValid(b: seq<Byte>)
    requires Valid(b)
    ensures Lossy(b) == b
    decreases |b|
  {
    if b == [] {
    } else {
      LossyKeepsValid(b[Next(b).len..]);
    }
  }

  /** What a good scalar is does not depend on what follows it. */
  lemma GoodAlone(b: seq<Byte>, rest: seq<Byte>)
    requires b != [] && Next(b).Good?
    ensures Next(b[..Next(b).len] + rest) == Next(b)
  {
    var n := Next(b).len;
    var s := b[..n] + rest;
    assert s[0] == b[0] && (n > 1 ==> s[1] == b[1]) && (n > 2 ==> s[2] == b[2]) && (n > 3 ==> s[3] == b[3]);
  }

  /** Lossy decoding gives valid text. */
  lemma {:induction false} LossyIsValid(b: seq<Byte>)
    ensures Valid(Lossy(b))
    decreases |b|
  {
    if b != [] {
      var n := Next(b).len;
      var rest := Lossy(b[n..]);
      LossyIsValid(b[n..]);
      if Next(b).Good? {
        GoodAlone(b, rest);
        assert (b[..n] + rest)[n..] == rest;
      } else {
        assert Next(REPLACEMENT + rest) == Good(3) && (REPLACEMENT + rest)[3..] == rest;
      }
    }
  }

  /** Text that does not start inside a character. */
  predicate Boundary(s: seq<Byte>) {
    !IsCont(s, 0)
  }

  lemma NextJoined(a: seq<Byte>, b: seq<Byte>)
    requires a != [] && Boundary(b)
    ensures Next(a + b) == Next(a)
  {
    assert forall i :: 0 <= i < |a| ==> (a + b)[i] == a[i];
    assert |a + b| > |a| ==> (a + b)[|a|] == b[0];
  }

  /** Where a character starts, valid text may be cut and joined. */
  lemma {:induction false} ValidJoined(a: seq<Byte>, b: seq<Byte>)
    requires Boundary(b)
    ensures Valid(a + b) <==> Valid(a) && Valid(b)
    decreases |a|
  {
    if a == [] {
      assert a + b == b;
    } else {
      var n := Next(a).len;
      NextJoined(a, b);
      assert (a + b)[n..] == a[n..] + b;
      ValidJoined(a[n..], b);
    }
  }

  predicate IsAlpha(c: Byte) {
    0x41 <= c <= 0x5A || 0x61 <= c <= 0x7A
  }

  function Lower(c: Byte): Byte {
    if 0x41 <= c <= 0x5A then c + 32 else c
  }

  function Upper(c: Byte): Byte {
    if 0x61 <= c <= 0x7A then c - 32 else c
  }

  /** The ASCII letters in lower case. */
  function Lowered(s: seq<Byte>): (r: seq<Byte>)
    ensures |r| == |s| && forall i :: 0 <= i < |s| ==> r[i] == Lower(s[i])
  {
    if s == [] then [] else [Lower(s[0])] + Lowered(s[1..])
  }

  /** U+212A, the Kelvin sign: in lower case the letter k. */
  const KELVIN: seq<Byte> := [0xE2, 0x84, 0xAA]

  /** U+0130, a capital i with a dot: in lower case the letter i and a combining dot. */
  const DOTTED_I: seq<Byte> := [0xC4, 0xB0]

  /** The lower case of a character that is not ASCII: of all of these two only have ASCII letters in it. */
  predicate LowerImage(c: seq<Byte>, image: seq<Byte>) {
    if c == KELVIN then image == [0x6B]
    else if c == DOTTED_I then image == [0x69, 0xCC, 0x87]
    else image != [] && Valid(image) && forall b :: b in image ==> b >= 0x80
  }

  /** `lower` may be `s.to_lowercase()`, which maps one character after the other, not always to one of its length. */
  ghost predicate LowerOf(s: seq<Byte>, lower: seq<Byte>)
    decreases |s|
  {
    if s == [] then lower == []
    else if s[0] < 0x80 then lower != [] && lower[0] == Lower(s[0]) && LowerOf(s[1..], lower[1..])
    else exists m :: 0 < m <= |lower| && LowerImage(s[..Next(s).len], lower[..m]) && LowerOf(s[Next(s).len..], lower[m..])
  }

  /** `eq_ignore_ascii_case` */
  predicate EqIgnoreCase(a: seq<Byte>, b: seq<Byte>) {
    |a| == |b| && forall i :: 0 <= i < |a| ==> Lower(a[i]) == Lower(b[i])
  }

  /** Changing the case of ASCII letters cannot break a valid string. */
  lemma {:induction false} ValidUpToCase(a: seq<Byte>, b: seq<Byte>)
    requires Valid(a) && EqIgnoreCase(a, b)
    ensures Valid(b)
    decreases |a|
  {
    if a == [] {
    } else {
      var n := Next(a).len;
      assert forall i :: 0 <= i < |a| && a[i] >= 0x80 ==> b[i] == a[i];
      assert forall i :: 0 <= i < |a| && b[i] >= 0x80 ==> b[i] == a[i];
      assert Next(b) == Next(a);
      assert EqIgnoreCase(a[n..], b[n..]);
      ValidUpToCase(a[n..], b[n..]);
    }
  }
}
