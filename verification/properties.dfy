/**
  What the translator promises across calls: applying it twice, what it
  keeps, and when it changes its input.
 */
module UuidProperties {
  import opened Wrappers
  import opened Hex
  import opened Uuid

  /** On success the output is the reference rendering of the swapped bytes. */
  lemma ConvertIsCanonical(s: string)
    requires Valid(s)
    ensures ConvertVSphereUUIDToTalosFormat(s).err.None?
    ensures ConvertVSphereUUIDToTalosFormat(s).uuid == Canonical(ToTalosOrder(Bytes(s)))
  {
    var out := ConvertVSphereUUIDToTalosFormat(s).uuid;
    CanonicalOfBytes(out);
  }

  /** Where each group of digits lands in the 8-4-4-4-12 layout. */
  lemma HyphenateFields(t: string)
    requires |t| == 32
    ensures Hyphenate(t)[..8] == t[..8]
    ensures Hyphenate(t)[9..13] == t[8..12]
    ensures Hyphenate(t)[14..18] == t[12..16]
    ensures Hyphenate(t)[19..] == t[16..20] + "-" + t[20..]
  {
    var h := Hyphenate(t);
    assert forall i :: 0 <= i < 8 ==> h[i] == t[i];
    assert forall i :: 9 <= i < 13 ==> h[i] == t[i - 1];
    assert forall i :: 14 <= i < 18 ==> h[i] == t[i - 2];
    assert forall i :: 19 <= i < 23 ==> h[i] == t[i - 3];
    assert forall i :: 24 <= i < 36 ==> h[i] == t[i - 4];
  }

  /** The five fields of the reference rendering, each the per-byte digits of its bytes. */
  lemma CanonicalFields(b: seq<byte>)
    requires |b| == 16
    ensures Canonical(b)[..8] == Encode(b[0..4])
    ensures Canonical(b)[9..13] == Encode(b[4..6])
    ensures Canonical(b)[14..18] == Encode(b[6..8])
    ensures Canonical(b)[19..] == Encode(b[8..10]) + "-" + Encode(b[10..16])
  {
    var t := Encode(b);
    assert Canonical(b) == Hyphenate(t);
    HyphenateFields(t);
    EncodeSlice(b, 0, 4);
    EncodeSlice(b, 4, 6);
    EncodeSlice(b, 6, 8);
    EncodeSlice(b, 8, 10);
    EncodeSlice(b, 10, 16);
  }

  /**
    Converting twice gives the lowercase canonical rendering of the
    original bytes, whatever the case and hyphenation of the input.
   */
  lemma ConvertTwice(s: string)
    requires Valid(s)
    ensures ConvertVSphereUUIDToTalosFormat(ConvertVSphereUUIDToTalosFormat(s).uuid)
         == Converted(Canonical(Bytes(s)), None)
  {
    var once := ConvertVSphereUUIDToTalosFormat(s).uuid;
    var twice := ConvertVSphereUUIDToTalosFormat(once);
    ToTalosOrderInvolution(Bytes(s));
    ConvertIsCanonical(once);
  }

  /** On a lowercase canonical UUID the translator is an involution. */
  lemma ConvertInvolution(s: string)
    requires IsLowerCanonical(s)
    ensures ConvertVSphereUUIDToTalosFormat(ConvertVSphereUUIDToTalosFormat(s).uuid)
         == Converted(s, None)
  {
    CanonicalOfBytes(s);
    ConvertTwice(s);
  }

  /** clock_seq and node (the last 17 characters) come out as the input's bytes printed. */
  lemma ConvertKeepsTail(s: string)
    requires Valid(s)
    ensures ConvertVSphereUUIDToTalosFormat(s).uuid[19..] == Canonical(Bytes(s))[19..]
  {
    var b := Bytes(s);
    var t := ToTalosOrder(b);
    assert t[8..10] == b[8..10] && t[10..16] == b[10..16] by {
      assert t[8..] == b[8..];
      assert t[8..10] == t[8..][..2] && b[8..10] == b[8..][..2];
      assert t[10..16] == t[8..][2..] && b[10..16] == b[8..][2..];
    }
    assert Canonical(t)[19..] == Canonical(b)[19..] by {
      CanonicalFields(b);
      CanonicalFields(t);
    }
    ConvertIsCanonical(s);
  }

  /** For a lowercase canonical input the last two groups are copied verbatim. */
  lemma ConvertKeepsCanonicalTail(s: string)
    requires IsLowerCanonical(s)
    ensures ConvertVSphereUUIDToTalosFormat(s).err.None?
    ensures ConvertVSphereUUIDToTalosFormat(s).uuid[19..] == s[19..]
  {
    CanonicalOfBytes(s);
    ConvertKeepsTail(s);
  }

  /** Any accepted input whose swapped fields are not all palindromes comes out changed. */
  lemma ConvertChanges(s: string)
    requires Valid(s) && !FieldsPalindromic(Bytes(s))
    ensures ConvertVSphereUUIDToTalosFormat(s).uuid != s
  {
    var out := ConvertVSphereUUIDToTalosFormat(s).uuid;
    if out == s {
      ToTalosOrderFixedPoints(Bytes(s));
      assert false;
    }
  }

  /** A lowercase canonical UUID is left unchanged exactly when all three swapped fields are palindromes. */
  lemma ConvertFixedPoints(s: string)
    requires IsLowerCanonical(s)
    ensures Valid(s)
    ensures ConvertVSphereUUIDToTalosFormat(s).uuid == s <==> FieldsPalindromic(Bytes(s))
  {
    CanonicalOfBytes(s);
    ConvertIsCanonical(s);
    ToTalosOrderFixedPoints(Bytes(s));
    var b := Bytes(s);
    if ConvertVSphereUUIDToTalosFormat(s).uuid == s {
      assert Bytes(Canonical(ToTalosOrder(b))) == Bytes(Canonical(b));
    }
  }

  /** Position in the canonical layout of digit `k` of the 32. */
  function DigitIndex(k: nat): (i: nat)
    requires k < 32
    ensures i < 36 && !IsHyphenPosition(i)
  {
    if k < 8 then k else if k < 12 then k + 1 else if k < 16 then k + 2 else if k < 20 then k + 3 else k + 4
  }

  /** Each digit of the reference rendering is the matching nibble of its byte. */
  lemma CanonicalAt(b: seq<byte>, k: nat)
    requires |b| == 16 && k < 32
    ensures Canonical(b)[DigitIndex(k)] == LowerDigit(Nibble(b[k / 2], k))
  {
    var t := Encode(b);
    HyphenateFields(t);
    assert Canonical(b) == Hyphenate(t);
    var c := Canonical(b);
    if k < 8 {
      assert c[..8][k] == t[..8][k];
    } else if k < 12 {
      assert c[9..13][k - 8] == t[8..12][k - 8];
    } else if k < 16 {
      assert c[14..18][k - 12] == t[12..16][k - 12];
    } else if k < 20 {
      assert c[19..][k - 16] == (t[16..20] + "-" + t[20..])[k - 16];
    } else {
      assert c[19..][k - 15] == (t[16..20] + "-" + t[20..])[k - 15];
    }
    LowerDigitOfValue(t[k]);
  }

  /**
    Where output character `i` comes from in the input: the two digits of
    each byte of the first three groups move together to the mirrored byte
    of their group; hyphens and the last two groups stay put.
   */
  function SourceIndex(i: nat): (j: nat)
    requires i < 36
    ensures j < 36
    ensures IsHyphenPosition(j) <==> IsHyphenPosition(i)
  {
    if i < 2 then i + 6           // time_low: digits of byte 0 come from byte 3,
    else if i < 4 then i + 2      //           byte 1 from byte 2,
    else if i < 6 then i - 2      //           byte 2 from byte 1,
    else if i < 8 then i - 6      //           byte 3 from byte 0
    else if 9 <= i < 11 then i + 2   // time_mid: the two bytes trade places
    else if 11 <= i < 13 then i - 2
    else if 14 <= i < 16 then i + 2  // time_hi_and_version: likewise
    else if 16 <= i < 18 then i - 2
    else i                        // hyphens, clock_seq and node stay
  }

  /** Input digit that lands at output digit `k`: its byte moves by `SwapIndex`, its nibble stays. */
  function SourceDigit(k: nat): (m: nat)
    requires k < 32
    ensures m < 32
  {
    2 * SwapIndex(k / 2) + k % 2
  }

  /** One digit of the swapped rendering. */
  lemma MovedDigit(b: seq<byte>, k: nat)
    requires |b| == 16 && k < 32
    ensures Canonical(ToTalosOrder(b))[DigitIndex(k)] == Canonical(b)[DigitIndex(SourceDigit(k))]
  {
    var m := SourceDigit(k);
    assert m / 2 == SwapIndex(k / 2) && m % 2 == k % 2;
    CanonicalAt(ToTalosOrder(b), k);
    CanonicalAt(b, m);
  }

  /** `SourceIndex` is `SourceDigit` seen through the layout. */
  lemma SourceIndexOfDigit(k: nat)
    requires k < 32
    ensures DigitIndex(SourceDigit(k)) == SourceIndex(DigitIndex(k))
  {
    var j := k / 2;
    if k < 8 {
      assert SwapIndex(j) == 3 - j;
    } else if k < 12 {
      assert SwapIndex(j) == 9 - j;
      assert (k + 1 - 9) / 2 == j - 4 && (k + 1 - 9) % 2 == k % 2;
    } else if k < 16 {
      assert SwapIndex(j) == 13 - j;
      assert (k + 2 - 14) / 2 == j - 6 && (k + 2 - 14) % 2 == k % 2;
    }
  }

  /** Character `i` of the rendering of the swapped bytes is character `SourceIndex(i)` of the original rendering. */
  lemma MovedCharacter(b: seq<byte>, i: nat)
    requires |b| == 16 && i < 36
    ensures Canonical(ToTalosOrder(b))[i] == Canonical(b)[SourceIndex(i)]
  {
    if !IsHyphenPosition(i) {
      var k := if i < 8 then i else if i < 13 then i - 1 else if i < 18 then i - 2 else if i < 23 then i - 3 else i - 4;
      assert DigitIndex(k) == i;
      SourceIndexOfDigit(k);
      MovedDigit(b, k);
    }
  }

  /** The swap at the byte level, read as a permutation of the input's characters. */
  lemma ConvertMovesCharacters(s: string)
    requires IsLowerCanonical(s)
    ensures ConvertVSphereUUIDToTalosFormat(s).err.None?
    ensures |ConvertVSphereUUIDToTalosFormat(s).uuid| == 36
    ensures forall i :: 0 <= i < 36 ==> ConvertVSphereUUIDToTalosFormat(s).uuid[i] == s[SourceIndex(i)]
  {
    CanonicalOfBytes(s);
    ConvertIsCanonical(s);
    var b := Bytes(s);
    var out := ConvertVSphereUUIDToTalosFormat(s).uuid;
    assert out == Canonical(ToTalosOrder(b));
    forall i | 0 <= i < 36
      ensures out[i] == s[SourceIndex(i)]
    {
      MovedCharacter(b, i);
    }
  }

  /**
    The conversion of a lowercase canonical UUID written out character by
    character: the digit pairs of `time_low` in reverse order, the two pairs
    of `time_mid` and of `time_hi_and_version` exchanged, the rest as is.
   */
  function SwapText(s: string): (r: string)
    requires |s| == 36
    ensures |r| == 36
  {
    [s[6], s[7], s[4], s[5], s[2], s[3], s[0], s[1], s[8],
     s[11], s[12], s[9], s[10], s[13],
     s[16], s[17], s[14], s[15]] + s[18..]
  }

  /** `SwapText` and `SourceIndex` describe the same rearrangement. */
  lemma SwapTextMoves(s: string)
    requires |s| == 36
    ensures forall i :: 0 <= i < 36 ==> SwapText(s)[i] == s[SourceIndex(i)]
  {
  }

  /** Two 36-character strings that both take character `i` from `SourceIndex(i)` of `s` are equal. */
  lemma SameMoves(a: string, b: string, s: string)
    requires |a| == 36 && |b| == 36 && |s| == 36
    requires forall i :: 0 <= i < 36 ==> a[i] == s[SourceIndex(i)]
    requires forall i :: 0 <= i < 36 ==> b[i] == s[SourceIndex(i)]
    ensures a == b
  {
    assert forall i :: 0 <= i < 36 ==> a[i] == b[i];
  }

  /** On a lowercase canonical UUID the conversion succeeds and is exactly `SwapText`. */
  lemma ConvertSwapsText(s: string)
    requires IsLowerCanonical(s)
    ensures ConvertVSphereUUIDToTalosFormat(s) == Converted(SwapText(s), None)
  {
    var r := ConvertVSphereUUIDToTalosFormat(s);
    assert r.err.None? && |r.uuid| == 36 && forall i :: 0 <= i < 36 ==> r.uuid[i] == s[SourceIndex(i)] by {
      ConvertMovesCharacters(s);
    }
    assert r.uuid == SwapText(s) by {
      SwapTextMoves(s);
      SameMoves(r.uuid, SwapText(s), s);
    }
  }
}
