/**
  The two pieces of Go the translator's output line relies on: packing bytes
  into a fixed-width unsigned integer with shifts and bitwise or, and the
  `fmt` verb `%0<width>x` that prints such an integer in lowercase hex.
 */
module GoFormat {
  import opened Hex

  function Pow16(k: nat): (p: nat)
    ensures p >= 1
  {
    if k == 0 then 1 else 16 * Pow16(k - 1)
  }

  /** `k` padding zeros. */
  function Zeros(k: nat): (r: string)
    ensures |r| == k
    ensures forall i :: 0 <= i < k ==> r[i] == '0'
  {
    seq(k, _ => '0')
  }

  /** Leading zeros do not change the value a digit string spells. */
  lemma {:induction false} HexValueOfPadded(k: nat, d: string)
    requires AllHex(d)
    ensures AllHex(Zeros(k) + d)
    ensures HexValue(Zeros(k) + d) == HexValue(d)
    decreases |d|, k
  {
    if |d| == 0 {
      assert Zeros(k) + d == Zeros(k);
      if k > 0 {
        HexValueOfPadded(k - 1, d);
        assert Zeros(k) == Zeros(k - 1) + d + ['0'];
        HexValueSnoc(Zeros(k - 1) + d, '0');
      }
    } else {
      var init, c := d[..|d| - 1], d[|d| - 1];
      assert d == init + [c];
      HexValueOfPadded(k, init);
      assert Zeros(k) + d == (Zeros(k) + init) + [c];
      HexValueSnoc(Zeros(k) + init, c);
      HexValueSnoc(init, c);
    }
  }

  lemma MulLess(m: nat, a: nat, b: nat)
    requires m > 0 && m * a < m * b
    ensures a < b
  {
  }

  /** Quotient and remainder are the only `a`, `x` with `n == m * a + x` and `x < m`. */
  lemma ModUnique(n: nat, m: nat, a: nat, x: nat)
    requires m > 0 && x < m && n == m * a + x
    ensures n / m == a && n % m == x
  {
    var a', x' := n / m, n % m;
    assert m * a < m * (a' + 1) by {
      assert m * (a' + 1) == m * a' + m;
    }
    MulLess(m, a, a' + 1);
    assert m * a' < m * (a + 1) by {
      assert m * (a + 1) == m * a + m;
    }
    MulLess(m, a', a + 1);
  }

  /** Splitting off the last hex digit commutes with reducing modulo a power of 16. */
  lemma ModStep(n: nat, p: nat)
    requires p >= 1
    ensures 16 * ((n / 16) % p) + n % 16 == n % (16 * p)
  {
    var q, r := n / 16, n % 16;
    var a, b := q / p, q % p;
    assert n == (16 * p) * a + (16 * b + r) by {
      assert q == p * a + b;
      assert n == 16 * q + r;
    }
    ModUnique(n, 16 * p, a, 16 * b + r);
  }

  /**
    `%x` applied to an unsigned integer: lowercase digits, most significant
    first, without leading zeros ("0" for zero).
   */
  function HexDigits(n: nat): (r: string)
    ensures 1 <= |r|
    ensures AllLowerHex(r)
    ensures HexValue(r) == n
    ensures n < Pow16(|r|)
    ensures |r| == 1 || r[0] != '0'
    decreases n
  {
    if n < 16 then
      HexValueSnoc([], LowerDigit(n));
      [LowerDigit(n)]
    else
      var d, c := HexDigits(n / 16), LowerDigit(n % 16);
      HexValueSnoc(d, c);
      d + [c]
  }

  /** `%0<width>x`: `%x` left-padded with '0' up to `width`; a wider value is never cut. */
  function ZeroPadded(n: nat, width: nat): (r: string)
    ensures AllLowerHex(r)
    ensures HexValue(r) == n
    ensures |r| >= width && |r| >= |HexDigits(n)|
    ensures |r| == width || r == HexDigits(n)
  {
    var d := HexDigits(n);
    if |d| < width then
      HexValueOfPadded(width - |d|, d);
      Zeros(width - |d|) + d
    else
      d
  }

  /** The `width` least significant hex digits of `n`, most significant first. */
  function FixedWidth(n: nat, width: nat): (r: string)
    ensures |r| == width
    ensures AllLowerHex(r)
  {
    if width == 0 then [] else FixedWidth(n / 16, width - 1) + [LowerDigit(n % 16)]
  }

  /** The fixed-width digits spell `n` reduced modulo `16^width`. */
  lemma {:induction false} FixedWidthValue(n: nat, width: nat)
    ensures AllHex(FixedWidth(n, width))
    ensures HexValue(FixedWidth(n, width)) == n % Pow16(width)
  {
    if width > 0 {
      var d, c := FixedWidth(n / 16, width - 1), LowerDigit(n % 16);
      FixedWidthValue(n / 16, width - 1);
      HexValueSnoc(d, c);
      ModStep(n, Pow16(width - 1));
    }
  }

  /** `%x` of a value below `16^width` has at most `width` digits. */
  lemma {:induction false} HexDigitsFit(n: nat, width: nat)
    requires 1 <= width && n < Pow16(width)
    ensures |HexDigits(n)| <= width
  {
    if n >= 16 {
      assert width >= 2;
      assert n / 16 < Pow16(width - 1);
      HexDigitsFit(n / 16, width - 1);
    }
  }

  /** `%0<width>x` of a value that fits in `width` digits prints exactly `width` digits. */
  lemma PaddedIsFixedWidth(n: nat, width: nat)
    requires 1 <= width && n < Pow16(width)
    ensures ZeroPadded(n, width) == FixedWidth(n, width)
  {
    var r, f := ZeroPadded(n, width), FixedWidth(n, width);
    assert |r| == width by {
      HexDigitsFit(n, width);
    }
    assert HexValue(f) == n by {
      FixedWidthValue(n, width);
      ModOfSmall(n, Pow16(width));
    }
    HexValueInjective(r, f);
  }

  /** The unsigned integer whose big-endian bytes are `b`. */
  function BigEndian(b: seq<byte>): nat
  {
    if |b| == 0 then 0 else BigEndian(b[..|b| - 1]) * 256 + b[|b| - 1]
  }

  lemma {:induction false} BigEndianBound(b: seq<byte>)
    ensures BigEndian(b) < Pow16(2 * |b|)
  {
    if |b| > 0 {
      var init := b[..|b| - 1];
      BigEndianBound(init);
      var p := Pow16(2 * |init|);
      assert Pow16(2 * |b|) == 256 * p;
      assert BigEndian(init) <= p - 1;
      assert BigEndian(init) * 256 <= p * 256 - 256;
    }
  }

  /** Appending a byte to a value appends its two digits. */
  lemma FixedWidthStep(hi: nat, x: byte, k: nat)
    ensures FixedWidth(hi * 256 + x, 2 * k + 2)
         == FixedWidth(hi, 2 * k) + [LowerDigit(x / 16), LowerDigit(x % 16)]
  {
    var n := hi * 256 + x;
    assert n / 16 == hi * 16 + x / 16;
    assert n % 16 == x % 16;
    assert (n / 16) / 16 == hi;
    assert (n / 16) % 16 == x / 16;
  }

  /** The rendering of one more byte ends in that byte's two digits. */
  lemma EncodeSnoc(init: seq<byte>, x: byte)
    ensures Encode(init + [x]) == Encode(init) + [LowerDigit(x / 16), LowerDigit(x % 16)]
  {
    EncodeAppend(init, [x]);
    var e := Encode([x]);
    assert DigitValue(e[0]) == x / 16 && DigitValue(e[1]) == x % 16;
    LowerDigitOfValue(e[0]);
    LowerDigitOfValue(e[1]);
  }

  lemma BigEndianSnoc(init: seq<byte>, x: byte)
    ensures BigEndian(init + [x]) == BigEndian(init) * 256 + x
  {
    assert (init + [x])[..|init|] == init;
  }

  /** The `2|b|` low digits of the big-endian value are the per-byte rendering of `b`. */
  lemma {:induction false} FixedWidthOfBytes(b: seq<byte>)
    ensures FixedWidth(BigEndian(b), 2 * |b|) == Encode(b)
  {
    if |b| > 0 {
      var init, x := b[..|b| - 1], b[|b| - 1];
      FixedWidthOfBytes(init);
      FixedWidthStep(BigEndian(init), x, |init|);
      EncodeSnoc(init, x);
      assert b == init + [x];
    }
  }

  /** `%0<2k>x` of `k` packed bytes equals the concatenation of their two-digit renderings. */
  lemma PaddedBytes(b: seq<byte>)
    requires |b| >= 1
    ensures ZeroPadded(BigEndian(b), 2 * |b|) == Encode(b)
  {
    BigEndianBound(b);
    PaddedIsFixedWidth(BigEndian(b), 2 * |b|);
    FixedWidthOfBytes(b);
  }

  function Pow2(k: nat): (p: nat)
    ensures p >= 1
  {
    if k == 0 then 1 else 2 * Pow2(k - 1)
  }

  lemma {:induction false} Pow2Add(a: nat, b: nat)
    ensures Pow2(a + b) == Pow2(a) * Pow2(b)
  {
    if a > 0 {
      Pow2Add(a - 1, b);
    }
  }

  lemma ModOfSmall(v: nat, m: nat)
    requires v < m
    ensures v % m == v
  {
  }

  /** Go's `x << k` on an unsigned integer `width` bits wide: bits pushed past the top are lost. */
  function Shl(x: nat, k: nat, width: nat): (r: nat)
    ensures r < Pow2(width)
    ensures x * Pow2(k) < Pow2(width) ==> r == x * Pow2(k)
  {
    var v, m := x * Pow2(k), Pow2(width);
    assert v < m ==> v % m == v by {
      if v < m {
        ModOfSmall(v, m);
      }
    }
    v % m
  }

  /** Go's bitwise `|` on unsigned integers, one bit at a time from the bottom. */
  function BitOr(a: nat, b: nat): (r: nat)
    decreases a + b
  {
    if a == 0 && b == 0 then 0
    else 2 * BitOr(a / 2, b / 2) + (if a % 2 == 1 || b % 2 == 1 then 1 else 0)
  }

  lemma {:induction false} BitOrZero(a: nat)
    ensures BitOr(a, 0) == a
    decreases a
  {
    if a != 0 {
      BitOrZero(a / 2);
    }
  }

  /** Or-ing a value into bits that are all zero is addition. */
  lemma {:induction false} BitOrDisjoint(a: nat, c: nat, k: nat)
    requires c < Pow2(k)
    ensures BitOr(a * Pow2(k), c) == a * Pow2(k) + c
  {
    var x := a * Pow2(k);
    if k == 0 {
      BitOrZero(x);
    } else if x == 0 && c == 0 {
    } else {
      var q := a * Pow2(k - 1);
      assert x == 2 * q;
      assert x / 2 == q && x % 2 == 0;
      assert c / 2 < Pow2(k - 1);
      BitOrDisjoint(a, c / 2, k - 1);
    }
  }

  lemma MulStrict(a: nat, b: nat, c: nat)
    requires a < b && c >= 1
    ensures a * c < b * c
  {
  }

  lemma MulMono(a: nat, c: nat)
    requires c >= 1
    ensures a <= a * c
  {
  }

  lemma MulAddDistrib(v: nat, b: nat, p: nat, q: nat, c: nat)
    requires q == 256 * p && c == b * p
    ensures v * q + c == (v * 256 + b) * p
  {
  }

  /** Shifting a byte left by `k` inside a `width`-bit word loses nothing when it fits. */
  lemma ShlByte(b: byte, k: nat, width: nat)
    requires k + 8 <= width
    ensures b * Pow2(k) < Pow2(k + 8)
    ensures Shl(b, k, width) == b * Pow2(k)
  {
    var p, q := Pow2(k), Pow2(width - (k + 8));
    Pow2Add(k, 8);
    Pow2Add(k + 8, width - (k + 8));
    assert Pow2(8) == 256;
    MulStrict(b, 256, p);
    assert Pow2(k + 8) == 256 * p;
    MulMono(Pow2(k + 8), q);
    assert Pow2(width) == Pow2(k + 8) * q;
  }

  /** One step of the packing: or-ing the next byte below the bytes already packed. */
  lemma OrNextByte(v: nat, b: byte, k: nat, width: nat)
    requires k + 8 <= width
    ensures BitOr(v * Pow2(k + 8), Shl(b, k, width)) == (v * 256 + b) * Pow2(k)
  {
    var p, q, c := Pow2(k), Pow2(k + 8), Shl(b, k, width);
    var x: nat := v * q;
    assert c == b * p && c < q by {
      ShlByte(b, k, width);
    }
    assert BitOr(x, c) == x + c by {
      BitOrDisjoint(v, c, k + 8);
    }
    assert q == 256 * p by {
      Pow2Add(k, 8);
      assert Pow2(8) == 256;
    }
    MulAddDistrib(v, b, p, q, c);
  }

  /** The last step of the packing: the lowest byte is or-ed in unshifted. */
  lemma OrLastByte(v: nat, b: byte)
    ensures BitOr(v * Pow2(8), b) == v * 256 + b
  {
    assert Pow2(8) == 256;
    BitOrDisjoint(v, b, 8);
  }

  lemma BigEndian2(b0: byte, b1: byte)
    ensures BigEndian([b0, b1]) == b0 * 256 + b1
  {
    BigEndianSnoc([b0], b1);
    assert [b0] + [b1] == [b0, b1];
    assert BigEndian([b0]) == b0;
  }

  /** Two bytes packed into the low 16 bits of a `width`-bit word. */
  lemma PackTwoLowest(hi: byte, lo: byte, width: nat)
    requires 16 <= width
    ensures BitOr(Shl(hi, 8, width), lo) == BigEndian([hi, lo])
  {
    assert Shl(hi, 8, width) == hi * Pow2(8) by {
      ShlByte(hi, 8, width);
    }
    assert BitOr(hi * Pow2(8), lo) == hi * 256 + lo by {
      OrLastByte(hi, lo);
    }
    BigEndian2(hi, lo);
  }

  /** `uint16(hi)<<8 | uint16(lo)`. */
  function Pack16(hi: byte, lo: byte): (r: nat)
    ensures r == BigEndian([hi, lo])
  {
    PackTwoLowest(hi, lo, 16);
    BitOr(Shl(hi, 8, 16), lo)
  }

  lemma BigEndian4(b0: byte, b1: byte, b2: byte, b3: byte)
    ensures BigEndian([b0, b1, b2, b3]) == ((b0 * 256 + b1) * 256 + b2) * 256 + b3
  {
    BigEndianSnoc([b0], b1);
    BigEndianSnoc([b0, b1], b2);
    BigEndianSnoc([b0, b1, b2], b3);
    assert [b0] + [b1] == [b0, b1] && [b0, b1] + [b2] == [b0, b1, b2];
    assert [b0, b1, b2] + [b3] == [b0, b1, b2, b3];
    assert BigEndian([b0]) == b0;
  }

  lemma BigEndian6(b0: byte, b1: byte, b2: byte, b3: byte, b4: byte, b5: byte)
    ensures BigEndian([b0, b1, b2, b3, b4, b5])
         == (BigEndian([b0, b1, b2, b3]) * 256 + b4) * 256 + b5
  {
    BigEndianSnoc([b0, b1, b2, b3], b4);
    BigEndianSnoc([b0, b1, b2, b3, b4], b5);
    assert [b0, b1, b2, b3] + [b4] == [b0, b1, b2, b3, b4];
    assert [b0, b1, b2, b3, b4] + [b5] == [b0, b1, b2, b3, b4, b5];
  }

  /** Four bytes shifted to sit above bit `k` of a `width`-bit word, or-ed together. */
  lemma PackFourAbove(b0: byte, b1: byte, b2: byte, b3: byte, k: nat, width: nat)
    requires k + 32 <= width
    ensures BitOr(BitOr(BitOr(Shl(b0, k + 24, width), Shl(b1, k + 16, width)),
                        Shl(b2, k + 8, width)), Shl(b3, k, width))
         == BigEndian([b0, b1, b2, b3]) * Pow2(k)
  {
    var v2 := b0 * 256 + b1;
    var v3 := v2 * 256 + b2;
    var w2 := BitOr(Shl(b0, k + 24, width), Shl(b1, k + 16, width));
    var w3 := BitOr(w2, Shl(b2, k + 8, width));
    assert w2 == v2 * Pow2(k + 16) by {
      ShlByte(b0, k + 24, width);
      OrNextByte(b0, b1, k + 16, width);
    }
    assert w3 == v3 * Pow2(k + 8) by {
      OrNextByte(v2, b2, k + 8, width);
    }
    assert BitOr(w3, Shl(b3, k, width)) == (v3 * 256 + b3) * Pow2(k) by {
      OrNextByte(v3, b3, k, width);
    }
    assert BigEndian([b0, b1, b2, b3]) == v3 * 256 + b3 by {
      BigEndian4(b0, b1, b2, b3);
    }
  }

  /** Three bytes shifted to sit above bit `k` of a `width`-bit word, or-ed together. */
  lemma PackThreeAbove(b0: byte, b1: byte, b2: byte, k: nat, width: nat)
    requires k + 24 <= width
    ensures BitOr(BitOr(Shl(b0, k + 16, width), Shl(b1, k + 8, width)), Shl(b2, k, width))
         == BigEndian([b0, b1, b2]) * Pow2(k)
  {
    var v2 := BigEndian([b0, b1]);
    var w2 := BitOr(Shl(b0, k + 16, width), Shl(b1, k + 8, width));
    assert w2 == v2 * Pow2(k + 8) by {
      ShlByte(b0, k + 16, width);
      OrNextByte(b0, b1, k + 8, width);
      BigEndian2(b0, b1);
    }
    OrNextByte(v2, b2, k, width);
    BigEndianSnoc([b0, b1], b2);
    assert [b0, b1] + [b2] == [b0, b1, b2];
  }

  /** Four bytes packed into the low 32 bits of a `width`-bit word, the last one unshifted. */
  lemma PackFourLowest(b0: byte, b1: byte, b2: byte, b3: byte, width: nat)
    requires 32 <= width
    ensures BitOr(BitOr(BitOr(Shl(b0, 24, width), Shl(b1, 16, width)), Shl(b2, 8, width)), b3)
         == BigEndian([b0, b1, b2, b3])
  {
    var v3 := BigEndian([b0, b1, b2]);
    var w3 := BitOr(BitOr(Shl(b0, 24, width), Shl(b1, 16, width)), Shl(b2, 8, width));
    assert w3 == v3 * Pow2(8) by {
      PackThreeAbove(b0, b1, b2, 8, width);
    }
    assert BitOr(w3, b3) == v3 * 256 + b3 by {
      OrLastByte(v3, b3);
    }
    BigEndianSnoc([b0, b1, b2], b3);
    assert [b0, b1, b2] + [b3] == [b0, b1, b2, b3];
  }

  /** `uint32(b0)<<24 | uint32(b1)<<16 | uint32(b2)<<8 | uint32(b3)`. */
  function Pack32(b0: byte, b1: byte, b2: byte, b3: byte): (r: nat)
    ensures r == BigEndian([b0, b1, b2, b3])
  {
    PackFourLowest(b0, b1, b2, b3, 32);
    BitOr(BitOr(BitOr(Shl(b0, 24, 32), Shl(b1, 16, 32)), Shl(b2, 8, 32)), b3)
  }

  /** Six bytes packed into the low 48 bits of a `width`-bit word, the last one unshifted. */
  lemma PackSixLowest(b0: byte, b1: byte, b2: byte, b3: byte, b4: byte, b5: byte, width: nat)
    requires 48 <= width
    ensures BitOr(BitOr(BitOr(BitOr(BitOr(Shl(b0, 40, width), Shl(b1, 32, width)), Shl(b2, 24, width)),
                              Shl(b3, 16, width)), Shl(b4, 8, width)), b5)
         == BigEndian([b0, b1, b2, b3, b4, b5])
  {
    var v4 := BigEndian([b0, b1, b2, b3]);
    var w4 := BitOr(BitOr(BitOr(Shl(b0, 40, width), Shl(b1, 32, width)), Shl(b2, 24, width)), Shl(b3, 16, width));
    var w5 := BitOr(w4, Shl(b4, 8, width));
    assert w4 == v4 * Pow2(16) by {
      PackFourAbove(b0, b1, b2, b3, 16, width);
    }
    assert w5 == (v4 * 256 + b4) * Pow2(8) by {
      OrNextByte(v4, b4, 8, width);
    }
    assert BitOr(w5, b5) == (v4 * 256 + b4) * 256 + b5 by {
      OrLastByte(v4 * 256 + b4, b5);
    }
    BigEndian6(b0, b1, b2, b3, b4, b5);
  }

  /** `uint64(b0)<<40 | uint64(b1)<<32 | ... | uint64(b4)<<8 | uint64(b5)`. */
  function Pack48(b0: byte, b1: byte, b2: byte, b3: byte, b4: byte, b5: byte): (r: nat)
    ensures r == BigEndian([b0, b1, b2, b3, b4, b5])
  {
    PackSixLowest(b0, b1, b2, b3, b4, b5, 64);
    BitOr(BitOr(BitOr(BitOr(BitOr(Shl(b0, 40, 64), Shl(b1, 32, 64)), Shl(b2, 24, 64)), Shl(b3, 16, 64)), Shl(b4, 8, 64)), b5)
  }
}
