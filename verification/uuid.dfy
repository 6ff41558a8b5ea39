/**
  `convertVSphereUUIDToTalosFormat`: the hardware UUID vSphere reports for a
  VM, rewritten into the form the booted Talos node reports for itself.

  vSphere prints the 16 bytes of the UUID in order; the SMBIOS System UUID
  that Talos reads stores the first three fields of section 4.1.2 of
  RFC 4122 (time_low, time_mid, time_hi_and_version) little-endian. The
  translator strips the hyphens, checks there are 32 characters left,
  decodes them to 16 bytes, reverses bytes 0-3, 4-5 and 6-7 in place, and
  prints the result as the lowercase 8-4-4-4-12 string of section 3 of
  RFC 4122.

  A Go string is a sequence of bytes and `len` counts bytes; here each
  `char` of the input stands for one byte of the Go string.
 */
module Uuid {
  import opened Wrappers
  import opened Hex
  import opened GoFormat

  /* ---------- Hyphens and the 8-4-4-4-12 layout ---------- */

  /** `strings.ReplaceAll(s, "-", "")`: every hyphen goes, wherever it is. */
  function StripHyphens(s: string): (r: string)
    ensures '-' !in r
    ensures forall c :: c != '-' ==> multiset(r)[c] == multiset(s)[c]
  {
    if |s| == 0 then []
    else
      assert s == [s[0]] + s[1..];
      if s[0] == '-' then StripHyphens(s[1..]) else [s[0]] + StripHyphens(s[1..])
  }

  /** Stripping works piecewise, so it keeps the order of what it keeps. */
  lemma {:induction false} StripAppend(a: string, b: string)
    ensures StripHyphens(a + b) == StripHyphens(a) + StripHyphens(b)
  {
    if |a| > 0 {
      assert (a + b)[0] == a[0];
      assert (a + b)[1..] == a[1..] + b;
      StripAppend(a[1..], b);
    } else {
      assert a + b == b;
    }
  }

  /** Stripping leaves a hyphen-free string alone. */
  lemma {:induction false} StripNoHyphens(s: string)
    requires '-' !in s
    ensures StripHyphens(s) == s
  {
    if |s| > 0 {
      StripNoHyphens(s[1..]);
    }
  }

  /** Indices of the four hyphens of a canonical UUID string. */
  predicate IsHyphenPosition(i: int) {
    i == 8 || i == 13 || i == 18 || i == 23
  }

  /** 36 characters, hyphens at 8, 13, 18 and 23, a hex digit (either case) everywhere else. */
  predicate IsCanonical(s: string) {
    |s| == 36 &&
    forall i :: 0 <= i < |s| ==> if IsHyphenPosition(i) then s[i] == '-' else IsHexDigit(s[i])
  }

  /** The form `fmt` prints: canonical, with lowercase digits. */
  predicate IsLowerCanonical(s: string) {
    |s| == 36 &&
    forall i :: 0 <= i < |s| ==> if IsHyphenPosition(i) then s[i] == '-' else IsLowerHexDigit(s[i])
  }

  /** Groups 32 digits as 8-4-4-4-12. */
  function Hyphenate(t: string): (r: string)
    requires |t| == 32
    ensures |r| == 36
    ensures AllHex(t) ==> IsCanonical(r)
    ensures AllLowerHex(t) ==> IsLowerCanonical(r)
  {
    t[..8] + "-" + t[8..12] + "-" + t[12..16] + "-" + t[16..20] + "-" + t[20..]
  }

  /** A hyphen and a hyphen-free group appended to `x` leave just the group behind. */
  lemma StripJoin(x: string, y: string)
    requires '-' !in y
    ensures StripHyphens(x + "-" + y) == StripHyphens(x) + y
  {
    assert StripHyphens(x + "-") == StripHyphens(x) by {
      StripAppend(x, "-");
      assert StripHyphens("-") == [];
    }
    assert StripHyphens(y) == y by {
      StripNoHyphens(y);
    }
    StripAppend(x + "-", y);
  }

  /** Five hyphen-free groups joined by hyphens strip to their concatenation. */
  lemma StripGroups(g1: string, g2: string, g3: string, g4: string, g5: string)
    requires '-' !in g1 && '-' !in g2 && '-' !in g3 && '-' !in g4 && '-' !in g5
    ensures StripHyphens(g1 + "-" + g2 + "-" + g3 + "-" + g4 + "-" + g5) == g1 + g2 + g3 + g4 + g5
  {
    StripNoHyphens(g1);
    StripJoin(g1, g2);
    StripJoin(g1 + "-" + g2, g3);
    StripJoin(g1 + "-" + g2 + "-" + g3, g4);
    StripJoin(g1 + "-" + g2 + "-" + g3 + "-" + g4, g5);
  }

  /** Putting the hyphens in and taking them out again gives back the digits. */
  lemma StripHyphenate(t: string)
    requires |t| == 32 && '-' !in t
    ensures StripHyphens(Hyphenate(t)) == t
  {
    var g1, g2, g3, g4, g5 := t[..8], t[8..12], t[12..16], t[16..20], t[20..];
    StripGroups(g1, g2, g3, g4, g5);
    assert t == g1 + g2 + g3 + g4 + g5;
  }

  /** A canonical string is its own digits regrouped. */
  lemma CanonicalIsHyphenated(s: string)
    requires IsCanonical(s)
    ensures |StripHyphens(s)| == 32 && AllHex(StripHyphens(s))
    ensures Hyphenate(StripHyphens(s)) == s
  {
    var g1, g2, g3, g4, g5 := s[..8], s[9..13], s[14..18], s[19..23], s[24..];
    assert s[8] == '-' && s[13] == '-' && s[18] == '-' && s[23] == '-' by {
      assert IsHyphenPosition(8) && IsHyphenPosition(13) && IsHyphenPosition(18) && IsHyphenPosition(23);
    }
    assert s == g1 + "-" + g2 + "-" + g3 + "-" + g4 + "-" + g5 by {
      assert s == s[..8] + [s[8]] + s[9..13] + [s[13]] + s[14..18] + [s[18]] + s[19..23] + [s[23]] + s[24..];
    }
    var t := g1 + g2 + g3 + g4 + g5;
    assert |t| == 32;
    assert forall i :: 0 <= i < 32 ==> IsHexDigit(t[i]);
    assert '-' !in t;
    assert t[..8] == g1 && t[8..12] == g2 && t[12..16] == g3 && t[16..20] == g4 && t[20..] == g5;
    assert Hyphenate(t) == s;
    StripHyphenate(t);
  }

  /* ---------- Bytes ---------- */

  /** The input passes both checks of the translator. */
  predicate Valid(s: string) {
    var digits := StripHyphens(s);
    |digits| == 32 && AllHex(digits)
  }

  /** The 16 bytes a valid UUID string spells. */
  function Bytes(s: string): (b: seq<byte>)
    requires Valid(s)
    ensures |b| == 16
  {
    DecodeString(StripHyphens(s)).value
  }

  /** The reference rendering: two lowercase digits per byte, grouped 8-4-4-4-12. */
  function Canonical(b: seq<byte>): (r: string)
    requires |b| == 16
    ensures IsLowerCanonical(r)
    ensures Valid(r) && Bytes(r) == b
  {
    var t := Encode(b);
    assert '-' !in t by {
      assert forall i :: 0 <= i < |t| ==> IsLowerHexDigit(t[i]);
    }
    StripHyphenate(t);
    DecodeEncode(b);
    Hyphenate(t)
  }

  /** A lowercase canonical string is the rendering of its own bytes. */
  lemma CanonicalOfBytes(s: string)
    requires IsLowerCanonical(s)
    ensures IsCanonical(s) && Valid(s)
    ensures Canonical(Bytes(s)) == s
  {
    assert IsCanonical(s);
    CanonicalIsHyphenated(s);
    var t := StripHyphens(s);
    assert AllLowerHex(t) by {
      assert forall c :: c in t ==> c in s by {
        forall c | c in t
          ensures c in s
        {
          assert multiset(t)[c] > 0;
        }
      }
      forall i | 0 <= i < |t|
        ensures IsLowerHexDigit(t[i])
      {
        assert t[i] in s;
      }
    }
    EncodeDecode(t);
  }

  /* ---------- The field swap ---------- */

  function Reverse(s: seq<byte>): (r: seq<byte>)
    ensures |r| == |s|
    ensures forall i :: 0 <= i < |s| ==> r[i] == s[|s| - 1 - i]
  {
    seq(|s|, i requires 0 <= i < |s| => s[|s| - 1 - i])
  }

  /** The input byte that lands at output byte `j`: 3,2,1,0 then 5,4 then 7,6 then 8..15 in order. */
  function SwapIndex(j: nat): (k: nat)
    requires j < 16
    ensures k < 16
  {
    if j < 4 then 3 - j else if j < 6 then 9 - j else if j < 8 then 13 - j else j
  }

  /**
    The in-place swaps: time_low (bytes 0-3), time_mid (4-5) and
    time_hi_and_version (6-7) each reversed in place; clock_seq and node
    (8-15) kept.
   */
  function ToTalosOrder(b: seq<byte>): (r: seq<byte>)
    requires |b| == 16
    ensures |r| == 16
    ensures forall j :: 0 <= j < 16 ==> r[j] == b[SwapIndex(j)]
    ensures r[0..4] == Reverse(b[0..4])
    ensures r[4..6] == Reverse(b[4..6])
    ensures r[6..8] == Reverse(b[6..8])
    ensures r[8..] == b[8..]
  {
    [b[3], b[2], b[1], b[0], b[5], b[4], b[7], b[6]] + b[8..]
  }

  /** Each reversal undoes itself, so the swap is an involution. */
  lemma ToTalosOrderInvolution(b: seq<byte>)
    requires |b| == 16
    ensures ToTalosOrder(ToTalosOrder(b)) == b
  {
    var r := ToTalosOrder(ToTalosOrder(b));
    assert r[..8] == b[..8];
    assert r[8..] == b[8..];
    assert r == r[..8] + r[8..] && b == b[..8] + b[8..];
  }

  /** None of the three swapped fields changes when its bytes read the same both ways. */
  predicate FieldsPalindromic(b: seq<byte>)
    requires |b| == 16
  {
    b[0] == b[3] && b[1] == b[2] && b[4] == b[5] && b[6] == b[7]
  }

  /** The swap changes the bytes exactly when some swapped field is not a palindrome. */
  lemma ToTalosOrderFixedPoints(b: seq<byte>)
    requires |b| == 16
    ensures ToTalosOrder(b) == b <==> FieldsPalindromic(b)
  {
    var r := ToTalosOrder(b);
    if FieldsPalindromic(b) {
      assert r[..8] == b[..8];
      assert r == r[..8] + r[8..] && b == b[..8] + b[8..];
    } else {
      assert r[0] == b[3] && r[1] == b[2] && r[4] == b[5] && r[6] == b[7];
    }
  }

  /* ---------- Rendering ---------- */

  /** One field printed with `%0Nx`, N twice its byte count, is that slice of the per-byte rendering. */
  lemma FieldRendering(b: seq<byte>, i: nat, j: nat)
    requires i < j <= |b|
    ensures ZeroPadded(BigEndian(b[i..j]), 2 * (j - i)) == Encode(b)[2 * i .. 2 * j]
  {
    PaddedBytes(b[i..j]);
    EncodeSlice(b, i, j);
  }

  /** The `%08x` of the packed `time_low` bytes. */
  lemma FirstField(b: seq<byte>)
    requires |b| == 16
    ensures ZeroPadded(Pack32(b[0], b[1], b[2], b[3]), 8) == Encode(b)[..8]
  {
    assert b[0..4] == [b[0], b[1], b[2], b[3]];
    FieldRendering(b, 0, 4);
  }

  /** The `%04x` of a packed two-byte field starting at byte `i`. */
  lemma ShortField(b: seq<byte>, i: nat)
    requires i + 2 <= |b|
    ensures ZeroPadded(Pack16(b[i], b[i + 1]), 4) == Encode(b)[2 * i .. 2 * i + 4]
  {
    assert b[i .. i + 2] == [b[i], b[i + 1]];
    FieldRendering(b, i, i + 2);
  }

  /** The `%012x` of the packed six node bytes. */
  lemma NodeField(b: seq<byte>)
    requires |b| == 16
    ensures ZeroPadded(Pack48(b[10], b[11], b[12], b[13], b[14], b[15]), 12) == Encode(b)[20..]
  {
    assert b[10..16] == [b[10], b[11], b[12], b[13], b[14], b[15]];
    FieldRendering(b, 10, 16);
  }

  /**
    The result line: `fmt.Sprintf("%08x-%04x-%04x-%04x-%012x", ...)` over the
    five fields, each packed big-endian into one unsigned integer. The
    result is the per-byte rendering: every packed field fits its width, so
    `%0Nx` prints exactly the two digits of each of its bytes.
   */
  function Format(b: seq<byte>): (r: string)
    requires |b| == 16
    ensures IsLowerCanonical(r)
    ensures r == Canonical(b)
  {
    var f1 := ZeroPadded(Pack32(b[0], b[1], b[2], b[3]), 8);
    var f2 := ZeroPadded(Pack16(b[4], b[5]), 4);
    var f3 := ZeroPadded(Pack16(b[6], b[7]), 4);
    var f4 := ZeroPadded(Pack16(b[8], b[9]), 4);
    var f5 := ZeroPadded(Pack48(b[10], b[11], b[12], b[13], b[14], b[15]), 12);
    var t := Encode(b);
    assert f1 == t[..8] by { FirstField(b); }
    assert f2 == t[8..12] by { ShortField(b, 4); }
    assert f3 == t[12..16] by { ShortField(b, 6); }
    assert f4 == t[16..20] by { ShortField(b, 8); }
    assert f5 == t[20..] by { NodeField(b); }
    assert Canonical(b) == Hyphenate(t);
    f1 + "-" + f2 + "-" + f3 + "-" + f4 + "-" + f5
  }

  /* ---------- The translator ---------- */

  /** The two failures: the length check's `fmt.Errorf` and the wrapped decode error. */
  datatype ConvertError =
    | LengthError(length: nat)    // characters left after stripping hyphens
    | HexError(cause: HexFault)   // what `hex.DecodeString` reported

  /** Go's `(string, error)` pair; `err == None` is a nil error. */
  datatype Converted = Converted(uuid: string, err: Option<ConvertError>)

  /** Thirty-two stripped characters can only fail to decode on a byte of the input that is not a digit. */
  lemma FaultInInput(s: string, e: HexFault)
    requires |StripHyphens(s)| == 32 && DecodeString(StripHyphens(s)) == Failure(e)
    ensures e.InvalidByte? && !IsHexDigit(e.bad) && e.bad in s
  {
    var digits := StripHyphens(s);
    var k :| 0 <= k < |digits| && digits[k] == e.bad && !IsHexDigit(digits[k]) && AllHex(digits[..k]);
    assert multiset(digits)[e.bad] > 0;
  }

  /** `convertVSphereUUIDToTalosFormat`. */
  function ConvertVSphereUUIDToTalosFormat(s: string): (r: Converted)
    ensures r.err.Some? ==> r.uuid == ""
    ensures r.err.None? <==> Valid(s)
    ensures r.err.Some? && r.err.value.LengthError? <==> |StripHyphens(s)| != 32
    ensures r.err.Some? && r.err.value.LengthError? ==> r.err.value.length == |StripHyphens(s)|
    ensures r.err.Some? && r.err.value.HexError? ==>
      r.err.value.cause.InvalidByte? && !IsHexDigit(r.err.value.cause.bad)
      && r.err.value.cause.bad in s
    ensures r.err.None? ==> IsLowerCanonical(r.uuid) && Valid(r.uuid)
    ensures r.err.None? ==> Bytes(r.uuid) == ToTalosOrder(Bytes(s))
  {
    var digits := StripHyphens(s);
    if |digits| != 32 then Converted("", Some(LengthError(|digits|)))
    else
      match DecodeString(digits)
      case Failure(e) =>
        FaultInInput(s, e);
        Converted("", Some(HexError(e)))
      case Success(bytes) => Converted(Format(ToTalosOrder(bytes)), None)
  }
}
