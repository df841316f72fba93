/** UTF-8 by its code points, section 3 of RFC 3629: what the decoder accepts and how it replaces the rest. */
module Utf8Chars {
  import opened Bytes
  import opened Utf8

  /** A Unicode scalar value: a code point that is no surrogate. */
  predicate IsScalar(c: nat) {
    c < 0xD800 || 0xE000 <= c < 0x11_0000
  }

  /** The bytes of a scalar value, from its digits to base 64. */
  function Encode(c: nat): (s: seq<Byte>)
    requires IsScalar(c)
    ensures 0 < |s| <= 4
  {
    if c < 0x80 then [c]
    else if c < 0x800 then [0xC0 + c / 64, 0x80 + c % 64]
    else if c < 0x1_0000 then [0xE0 + c / 4096, 0x80 + c / 64 % 64, 0x80 + c % 64]
    else [0xF0 + c / 262144, 0x80 + c / 4096 % 64, 0x80 + c / 64 % 64, 0x80 + c % 64]
  }

  predicate Scalars(cs: seq<nat>) {
    cs == [] || (IsScalar(cs[0]) && Scalars(cs[1..]))
  }

  function EncodeAll(cs: seq<nat>): seq<Byte>
    requires Scalars(cs)
  {
    if cs == [] then [] else Encode(cs[0]) + EncodeAll(cs[1..])
  }

  lemma EncodedIsGood(c: nat, rest: seq<Byte>)
    requires IsScalar(c)
    ensures Next(Encode(c) + rest) == Good(|Encode(c)|)
  {
    var s := Encode(c) + rest;
    assert forall i :: 0 <= i < |Encode(c)| ==> s[i] == Encode(c)[i];
  }

  lemma LastDigit(q: nat, r: nat)
    requires r < 64
    ensures (64 * q + r) / 64 == q && (64 * q + r) % 64 == r
  {
  }

  lemma ThreeBytes(x: nat, y: nat, z: nat)
    requires x < 16 && y < 64 && z < 64
    ensures var c := 64 * (64 * x + y) + z;
            c >= 0x800 && IsScalar(c) ==> Encode(c) == [0xE0 + x, 0x80 + y, 0x80 + z]
  {
    var c := 64 * (64 * x + y) + z;
    LastDigit(64 * x + y, z);
    LastDigit(x, y);
    assert c / 4096 == x;
  }

  lemma FourBytes(w: nat, x: nat, y: nat, z: nat)
    requires w < 5 && x < 64 && y < 64 && z < 64
    ensures var c := 64 * (64 * (64 * w + x) + y) + z;
            c >= 0x1_0000 && IsScalar(c) ==> Encode(c) == [0xF0 + w, 0x80 + x, 0x80 + y, 0x80 + z]
  {
    var c := 64 * (64 * (64 * w + x) + y) + z;
    LastDigit(64 * (64 * w + x) + y, z);
    LastDigit(64 * w + x, y);
    LastDigit(w, x);
    assert c / 4096 == 64 * w + x && c / 262144 == w;
  }

  /** The last six bits of a byte that continues a character. */
  function Digit(b: Byte): (n: nat)
    requires 0x80 <= b <= 0xBF
    ensures n < 64
  {
    b as int - 0x80
  }

  lemma GoodIsEncoded(b: seq<Byte>) returns (c: nat)
    requires b != [] && Next(b).Good?
    ensures IsScalar(c) && Encode(c) == b[..Next(b).len]
  {
    var lead: int := b[0];
    if lead < 0x80 {
      c := lead;
    } else if lead < 0xE0 {
      c := 64 * (lead - 0xC0) + Digit(b[1]);
      LastDigit(lead - 0xC0, Digit(b[1]));
    } else if lead < 0xF0 {
      c := 64 * (64 * (lead - 0xE0) + Digit(b[1])) + Digit(b[2]);
      ThreeBytes(lead - 0xE0, Digit(b[1]), Digit(b[2]));
    } else {
      c := 64 * (64 * (64 * (lead - 0xF0) + Digit(b[1])) + Digit(b[2])) + Digit(b[3]);
      FourBytes(lead - 0xF0, Digit(b[1]), Digit(b[2]), Digit(b[3]));
    }
  }

  lemma {:induction false} EncodedIsValid(cs: seq<nat>)
    requires Scalars(cs)
    ensures Valid(EncodeAll(cs))
  {
    if cs == [] {
    } else {
      EncodedIsGood(cs[0], EncodeAll(cs[1..]));
      assert EncodeAll(cs)[|Encode(cs[0])|..] == EncodeAll(cs[1..]);
      EncodedIsValid(cs[1..]);
    }
  }

  lemma {:induction false} ValidIsEncoded(b: seq<Byte>) returns (cs: seq<nat>)
    requires Valid(b)
    ensures Scalars(cs) && EncodeAll(cs) == b
    decreases |b|
  {
    if b == [] {
      cs := [];
    } else {
      var n := Next(b).len;
      var c := GoodIsEncoded(b);
      var rest := ValidIsEncoded(b[n..]);
      cs := [c] + rest;
      assert cs[1..] == rest && b == b[..n] + b[n..];
    }
  }

  /** A byte string is text if and only if it is the encoding of scalar values. */
  lemma ValidExactly(b: seq<Byte>)
    ensures Valid(b) <==> exists cs :: Scalars(cs) && EncodeAll(cs) == b
  {
    if Valid(b) {
      var cs := ValidIsEncoded(b);
    }
    if cs :| Scalars(cs) && EncodeAll(cs) == b {
      EncodedIsValid(cs);
    }
  }

  // ---------- What is replaced ----------

  /** The first `k` bytes can be the start of a character. */
  ghost predicate StartsChar(b: seq<Byte>, k: nat) {
    k <= |b| && exists c: nat :: IsScalar(c) && b[..k] <= Encode(c)
  }

  lemma BrokenStarts(b: seq<Byte>)
    requires b != [] && Next(b).Broken? && Next(b).len > 1
    ensures StartsChar(b, Next(b).len)
  {
    var n := Next(b).len;
    var lead: int := b[0];
    if lead < 0xF0 {
      ThreeBytes(lead - 0xE0, Digit(b[1]), 0);
      assert b[..n] <= Encode(64 * (64 * (lead - 0xE0) + Digit(b[1])));
    } else {
      var y := if n == 2 then 0 else Digit(b[2]);
      FourBytes(lead - 0xF0, Digit(b[1]), y, 0);
      assert b[..n] <= Encode(64 * (64 * (64 * (lead - 0xF0) + Digit(b[1])) + y));
    }
  }

  lemma StartIsNoLonger(b: seq<Byte>, k: nat, c: nat)
    requires b != [] && Next(b).Broken? && Next(b).len < k <= |b| && IsScalar(c)
    ensures !(b[..k] <= Encode(c))
  {
    if b[..k] <= Encode(c) {
      assert forall i :: 0 <= i < k ==> b[i] == Encode(c)[i];
      assert false;
    }
  }

  /**
   * What one replacement character stands for: the longest start of a character that is there, and one byte
   * when not even that byte can start a character.
   */
  lemma BrokenIsLongestStart(b: seq<Byte>)
    requires b != [] && Next(b).Broken?
    ensures Next(b).len > 1 ==> StartsChar(b, Next(b).len)
    ensures forall k :: Next(b).len < k <= |b| ==> !StartsChar(b, k)
  {
    if Next(b).len > 1 {
      BrokenStarts(b);
    }
    forall k | Next(b).len < k <= |b| ensures !StartsChar(b, k) {
      if StartsChar(b, k) {
        var c: nat :| IsScalar(c) && b[..k] <= Encode(c);
        StartIsNoLonger(b, k, c);
      }
    }
  }
}
