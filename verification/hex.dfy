/**
  Hexadecimal digits and the byte-level decoder of Go's `encoding/hex`
  (`hex.DecodeString`), together with the per-byte lowercase rendering that
  serves as the reference for every hex string the translator produces.
 */
module Hex {
  import opened Wrappers

  /** One octet. */
  type byte = b: int | 0 <= b < 256

  /** The characters `encoding/hex` accepts: both letter cases. */
  predicate IsHexDigit(c: char) {
    ('0' <= c <= '9') || ('a' <= c <= 'f') || ('A' <= c <= 'F')
  }

  /** The characters `fmt`'s `%x` verb emits. */
  predicate IsLowerHexDigit(c: char) {
    ('0' <= c <= '9') || ('a' <= c <= 'f')
  }

  predicate AllHex(s: string) {
    forall i :: 0 <= i < |s| ==> IsHexDigit(s[i])
  }

  predicate AllLowerHex(s: string) {
    forall i :: 0 <= i < |s| ==> IsLowerHexDigit(s[i])
  }

  /** The value of one hex digit, whatever its case. */
  function DigitValue(c: char): (v: nat)
    requires IsHexDigit(c)
    ensures v < 16
    ensures ('0' <= c <= '9') <==> v < 10
  {
    if '0' <= c <= '9' then c as int - '0' as int
    else if 'a' <= c <= 'f' then c as int - 'a' as int + 10
    else c as int - 'A' as int + 10
  }

  /** The lowercase digit for a nibble; inverse of `DigitValue`. */
  function LowerDigit(v: nat): (c: char)
    requires v < 16
    ensures IsLowerHexDigit(c)
    ensures DigitValue(c) == v
  {
    if v < 10 then ('0' as int + v) as char else ('a' as int + v - 10) as char
  }

  /** A lowercase digit is the rendering of its own value. */
  lemma LowerDigitOfValue(c: char)
    requires IsLowerHexDigit(c)
    ensures LowerDigit(DigitValue(c)) == c
  {
  }

  /** The number a string of hex digits spells, most significant digit first (0 for no digits). */
  function HexValue(s: string): nat
    requires AllHex(s)
  {
    if |s| == 0 then 0 else 16 * HexValue(s[..|s| - 1]) + DigitValue(s[|s| - 1])
  }

  /** One more digit at the end multiplies the value by 16 and adds the digit. */
  lemma HexValueSnoc(d: string, c: char)
    requires AllHex(d) && IsHexDigit(c)
    ensures AllHex(d + [c])
    ensures HexValue(d + [c]) == 16 * HexValue(d) + DigitValue(c)
  {
    assert (d + [c])[..|d|] == d;
  }

  /** A lowercase digit string is determined by its length and the number it spells. */
  lemma {:induction false} HexValueInjective(a: string, b: string)
    requires |a| == |b| && AllLowerHex(a) && AllLowerHex(b)
    requires HexValue(a) == HexValue(b)
    ensures a == b
  {
    if |a| > 0 {
      var a', b' := a[..|a| - 1], b[..|b| - 1];
      var x, y := a[|a| - 1], b[|b| - 1];
      assert 16 * HexValue(a') + DigitValue(x) == 16 * HexValue(b') + DigitValue(y);
      HexValueInjective(a', b');
      LowerDigitOfValue(x);
      LowerDigitOfValue(y);
      assert a == a' + [x] && b == b' + [y];
    }
  }

  /** The byte written by the two digits `hi` `lo`. */
  function PairValue(hi: char, lo: char): (b: byte)
    requires IsHexDigit(hi) && IsHexDigit(lo)
    ensures b / 16 == DigitValue(hi) && b % 16 == DigitValue(lo)
  {
    16 * DigitValue(hi) + DigitValue(lo)
  }

  /** Why `hex.DecodeString` refused its input. */
  datatype HexFault =
    | InvalidByte(bad: char)  // the first byte outside [0-9a-fA-F]
    | OddLength               // every byte is a digit but there is an odd number of them

  /**
    `hex.DecodeString`: consumes the input two digits at a time, left to
    right, and stops at the first byte that is not a digit; an odd trailing
    digit is reported only when every byte is a digit.
   */
  function DecodeString(s: string): (r: Result<seq<byte>, HexFault>)
    ensures r.Success? <==> |s| % 2 == 0 && AllHex(s)
    ensures r.Success? ==> 2 * |r.value| == |s|
    ensures r.Success? ==>
      forall i :: 0 <= i < |r.value| ==> r.value[i] == PairValue(s[2 * i], s[2 * i + 1])
    ensures r == Failure(OddLength) <==> |s| % 2 == 1 && AllHex(s)
    ensures r.Failure? && r.error.InvalidByte? ==>
      exists k :: 0 <= k < |s| && s[k] == r.error.bad && !IsHexDigit(s[k]) && AllHex(s[..k])
    decreases |s|
  {
    if |s| == 0 then Success([])
    else if !IsHexDigit(s[0]) then Failure(InvalidByte(s[0]))
    else if |s| == 1 then Failure(OddLength)
    else if !IsHexDigit(s[1]) then Failure(InvalidByte(s[1]))
    else
      AllHexPair(s);
      match DecodeString(s[2..])
      case Success(rest) =>
        DecodeCons(s, rest);
        Success([PairValue(s[0], s[1])] + rest)
      case Failure(e) =>
        if e.InvalidByte? then
          InvalidAfterPair(s, e.bad);
          Failure(e)
        else
          Failure(e)
  }

  /** A first bad byte in the tail is the first bad byte of the whole, after two digits. */
  lemma InvalidAfterPair(s: string, bad: char)
    requires |s| >= 2 && IsHexDigit(s[0]) && IsHexDigit(s[1])
    requires exists k :: 0 <= k < |s[2..]| && s[2..][k] == bad && !IsHexDigit(s[2..][k]) && AllHex(s[2..][..k])
    ensures exists k :: 0 <= k < |s| && s[k] == bad && !IsHexDigit(s[k]) && AllHex(s[..k])
  {
    var k :| 0 <= k < |s[2..]| && s[2..][k] == bad && !IsHexDigit(s[2..][k]) && AllHex(s[2..][..k]);
    assert s[..k + 2] == s[..2] + s[2..][..k];
    assert s[k + 2] == s[2..][k];
  }

  /** Two leading digits do not change whether the whole string is hex. */
  lemma AllHexPair(s: string)
    requires |s| >= 2 && IsHexDigit(s[0]) && IsHexDigit(s[1])
    ensures AllHex(s) <==> AllHex(s[2..])
  {
    if AllHex(s[2..]) {
      forall i | 2 <= i < |s|
        ensures IsHexDigit(s[i])
      {
        assert s[i] == s[2..][i - 2];
      }
    }
  }

  /** The bytes of the tail, behind the byte of the first two digits, are the bytes of the whole. */
  lemma DecodeCons(s: string, rest: seq<byte>)
    requires |s| >= 2 && IsHexDigit(s[0]) && IsHexDigit(s[1]) && AllHex(s[2..])
    requires 2 * |rest| == |s| - 2
    requires forall i :: 0 <= i < |rest| ==> rest[i] == PairValue(s[2..][2 * i], s[2..][2 * i + 1])
    ensures AllHex(s)
    ensures forall i :: 0 <= i <= |rest| ==>
      ([PairValue(s[0], s[1])] + rest)[i] == PairValue(s[2 * i], s[2 * i + 1])
  {
    AllHexPair(s);
    var r := [PairValue(s[0], s[1])] + rest;
    forall i | 0 < i <= |rest|
      ensures r[i] == PairValue(s[2 * i], s[2 * i + 1])
    {
      assert r[i] == rest[i - 1];
      assert s[2..][2 * (i - 1)] == s[2 * i] && s[2..][2 * (i - 1) + 1] == s[2 * i + 1];
    }
  }

  /** The high (`k` even) or low (`k` odd) nibble of `x`. */
  function Nibble(x: byte, k: nat): (v: nat)
    ensures v < 16
  {
    if k % 2 == 0 then x / 16 else x % 16
  }

  /** Two lowercase digits per byte, most significant nibble first. */
  function Encode(b: seq<byte>): (r: string)
    ensures |r| == 2 * |b|
    ensures AllLowerHex(r)
  {
    seq(2 * |b|, k requires 0 <= k < 2 * |b| => LowerDigit(Nibble(b[k / 2], k)))
  }

  /** Byte `i` is rendered at positions `2 * i` (high nibble) and `2 * i + 1` (low nibble). */
  lemma EncodeByte(b: seq<byte>, i: nat)
    requires i < |b|
    ensures Encode(b)[2 * i] == LowerDigit(b[i] / 16)
    ensures Encode(b)[2 * i + 1] == LowerDigit(b[i] % 16)
  {
    assert (2 * i) / 2 == i && (2 * i) % 2 == 0;
    assert (2 * i + 1) / 2 == i && (2 * i + 1) % 2 == 1;
  }

  /** The two digits of a byte decode back to that byte. */
  lemma PairOfDigits(x: byte)
    ensures PairValue(LowerDigit(x / 16), LowerDigit(x % 16)) == x
  {
  }

  /** Decoding undoes encoding. */
  lemma DecodeEncode(b: seq<byte>)
    ensures DecodeString(Encode(b)) == Success(b)
  {
    var e := Encode(b);
    var r := DecodeString(e);
    assert r.Success?;
    forall i | 0 <= i < |b|
      ensures r.value[i] == b[i]
    {
      EncodeByte(b, i);
      PairOfDigits(b[i]);
    }
    assert r.value == b;
  }

  /** Encoding undoes decoding on lowercase input. */
  lemma EncodeDecode(s: string)
    requires |s| % 2 == 0 && AllLowerHex(s)
    ensures AllHex(s) && DecodeString(s).Success?
    ensures Encode(DecodeString(s).value) == s
  {
    EncodeOfPairs(s, DecodeString(s).value);
  }

  /** Bytes read pairwise off a lowercase string are rendered as that string. */
  lemma EncodeOfPairs(s: string, v: seq<byte>)
    requires AllLowerHex(s) && 2 * |v| == |s|
    requires forall i :: 0 <= i < |v| ==> v[i] == PairValue(s[2 * i], s[2 * i + 1])
    ensures Encode(v) == s
  {
    forall k {:trigger Encode(v)[k]} | 0 <= k < |s|
      ensures Encode(v)[k] == s[k]
    {
      var i := k / 2;
      assert k == 2 * i || k == 2 * i + 1;
      EncodePair(v, i, s[2 * i], s[2 * i + 1]);
    }
  }

  /** A byte read off two lowercase digits is rendered as those digits. */
  lemma EncodePair(v: seq<byte>, i: nat, hi: char, lo: char)
    requires i < |v| && IsLowerHexDigit(hi) && IsLowerHexDigit(lo)
    requires v[i] == PairValue(hi, lo)
    ensures Encode(v)[2 * i] == hi && Encode(v)[2 * i + 1] == lo
  {
    EncodeByte(v, i);
    LowerDigitOfValue(hi);
    LowerDigitOfValue(lo);
  }

  /** Rendering a slice of bytes is the matching slice of the rendering. */
  lemma EncodeSlice(b: seq<byte>, i: nat, j: nat)
    requires i <= j <= |b|
    ensures Encode(b[i..j]) == Encode(b)[2 * i .. 2 * j]
  {
    var lhs := Encode(b[i..j]);
    var rhs := Encode(b)[2 * i .. 2 * j];
    forall k | 0 <= k < |lhs|
      ensures lhs[k] == rhs[k]
    {
      assert (2 * i + k) / 2 == i + k / 2;
      assert (2 * i + k) % 2 == k % 2;
    }
  }

  /** Rendering distributes over concatenation. */
  lemma EncodeAppend(a: seq<byte>, b: seq<byte>)
    ensures Encode(a + b) == Encode(a) + Encode(b)
  {
    var e, n := Encode(a + b), 2 * |a|;
    assert e[..n] == Encode(a) by {
      EncodeSlice(a + b, 0, |a|);
      assert (a + b)[0..|a|] == a;
    }
    assert e[n..] == Encode(b) by {
      EncodeSlice(a + b, |a|, |a + b|);
      assert (a + b)[|a|..|a + b|] == b;
    }
    assert e == e[..n] + e[n..];
  }
}
