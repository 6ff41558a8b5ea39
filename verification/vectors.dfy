/**
  The literal cases of the repository's tests. Each valid vector is checked
  through `CheckVector`: one lemma shows the input is lowercase canonical, and
  three more compare the expected literal with the input in the stretches
  0-8, 9-17 and 18-35, which keeps each comparison of literals small.
 */
module UuidVectors {
  import opened Wrappers
  import opened Hex
  import opened Uuid
  import opened UuidProperties

  /** A lowercase canonical vector comes out as the characters `SourceIndex` picks, checked in three stretches. */
  lemma CheckVector(input: string, expected: string)
    requires IsLowerCanonical(input) && |expected| == 36
    requires forall i :: 0 <= i < 9 ==> expected[i] == input[SourceIndex(i)]
    requires forall i :: 9 <= i < 18 ==> expected[i] == input[SourceIndex(i)]
    requires forall i :: 18 <= i < 36 ==> expected[i] == input[i]
    ensures ConvertVSphereUUIDToTalosFormat(input) == Converted(expected, None)
  {
    var r := ConvertVSphereUUIDToTalosFormat(input);
    assert r.err.None? && |r.uuid| == 36 && forall i :: 0 <= i < 36 ==> r.uuid[i] == input[SourceIndex(i)] by {
      ConvertMovesCharacters(input);
    }
    assert forall i :: 0 <= i < 36 ==> expected[i] == input[SourceIndex(i)] by {
      forall i | 0 <= i < 36
        ensures expected[i] == input[SourceIndex(i)]
      {
        if 18 <= i {
          assert SourceIndex(i) == i;
        }
      }
    }
    SameMoves(r.uuid, expected, input);
  }

  lemma RealExampleFromLogsShape()
    ensures IsLowerCanonical("422413c3-57c8-96d1-c481-c58dbb837d2d")
  {
  }

  lemma RealExampleFromLogsHead()
    ensures forall i :: 0 <= i < 9 ==>
      "c3132442-c857-d196-c481-c58dbb837d2d"[i] == "422413c3-57c8-96d1-c481-c58dbb837d2d"[SourceIndex(i)]
  {
  }

  lemma RealExampleFromLogsMiddle()
    ensures forall i :: 9 <= i < 18 ==>
      "c3132442-c857-d196-c481-c58dbb837d2d"[i] == "422413c3-57c8-96d1-c481-c58dbb837d2d"[SourceIndex(i)]
  {
  }

  lemma RealExampleFromLogsTail()
    ensures forall i :: 18 <= i < 36 ==>
      "c3132442-c857-d196-c481-c58dbb837d2d"[i] == "422413c3-57c8-96d1-c481-c58dbb837d2d"[i]
  {
  }

  lemma RealExampleFromLogs()
    ensures ConvertVSphereUUIDToTalosFormat("422413c3-57c8-96d1-c481-c58dbb837d2d")
         == Converted("c3132442-c857-d196-c481-c58dbb837d2d", None)
  {
    RealExampleFromLogsShape();
    RealExampleFromLogsHead();
    RealExampleFromLogsMiddle();
    RealExampleFromLogsTail();
    CheckVector("422413c3-57c8-96d1-c481-c58dbb837d2d", "c3132442-c857-d196-c481-c58dbb837d2d");
  }

  lemma AnotherRealExampleShape()
    ensures IsLowerCanonical("42248383-124d-4f71-06fa-6b6d74a978c1")
  {
  }

  lemma AnotherRealExampleHead()
    ensures forall i :: 0 <= i < 9 ==>
      "83832442-4d12-714f-06fa-6b6d74a978c1"[i] == "42248383-124d-4f71-06fa-6b6d74a978c1"[SourceIndex(i)]
  {
  }

  lemma AnotherRealExampleMiddle()
    ensures forall i :: 9 <= i < 18 ==>
      "83832442-4d12-714f-06fa-6b6d74a978c1"[i] == "42248383-124d-4f71-06fa-6b6d74a978c1"[SourceIndex(i)]
  {
  }

  lemma AnotherRealExampleTail()
    ensures forall i :: 18 <= i < 36 ==>
      "83832442-4d12-714f-06fa-6b6d74a978c1"[i] == "42248383-124d-4f71-06fa-6b6d74a978c1"[i]
  {
  }

  lemma AnotherRealExample()
    ensures ConvertVSphereUUIDToTalosFormat("42248383-124d-4f71-06fa-6b6d74a978c1")
         == Converted("83832442-4d12-714f-06fa-6b6d74a978c1", None)
  {
    AnotherRealExampleShape();
    AnotherRealExampleHead();
    AnotherRealExampleMiddle();
    AnotherRealExampleTail();
    CheckVector("42248383-124d-4f71-06fa-6b6d74a978c1", "83832442-4d12-714f-06fa-6b6d74a978c1");
  }

  lemma ProvisioningExampleShape()
    ensures IsLowerCanonical("42241622-655a-890a-761d-7b177e9de0db")
  {
  }

  lemma ProvisioningExampleHead()
    ensures forall i :: 0 <= i < 9 ==>
      "22162442-5a65-0a89-761d-7b177e9de0db"[i] == "42241622-655a-890a-761d-7b177e9de0db"[SourceIndex(i)]
  {
  }

  lemma ProvisioningExampleMiddle()
    ensures forall i :: 9 <= i < 18 ==>
      "22162442-5a65-0a89-761d-7b177e9de0db"[i] == "42241622-655a-890a-761d-7b177e9de0db"[SourceIndex(i)]
  {
  }

  lemma ProvisioningExampleTail()
    ensures forall i :: 18 <= i < 36 ==>
      "22162442-5a65-0a89-761d-7b177e9de0db"[i] == "42241622-655a-890a-761d-7b177e9de0db"[i]
  {
  }

  lemma ProvisioningExample()
    ensures ConvertVSphereUUIDToTalosFormat("42241622-655a-890a-761d-7b177e9de0db")
         == Converted("22162442-5a65-0a89-761d-7b177e9de0db", None)
  {
    ProvisioningExampleShape();
    ProvisioningExampleHead();
    ProvisioningExampleMiddle();
    ProvisioningExampleTail();
    CheckVector("42241622-655a-890a-761d-7b177e9de0db", "22162442-5a65-0a89-761d-7b177e9de0db");
  }

  /** Two groups leave 12 characters: a length error, and an empty string. */
  lemma InvalidLength()
    ensures ConvertVSphereUUIDToTalosFormat("422413c3-57c8") == Converted("", Some(LengthError(12)))
  {
    var a, b := "422413c3", "57c8";
    assert "422413c3-57c8" == a + "-" + b;
    StripNoHyphens(a);
    StripJoin(a, b);
  }

  /** Thirty-six characters with hyphens exactly at 8, 13, 18 and 23. */
  predicate HyphenLayout(s: string) {
    |s| == 36 && forall i :: 0 <= i < 36 ==> (s[i] == '-' <==> IsHyphenPosition(i))
  }

  /** The right layout but a first character that is not a hex digit: the decoder names that character. */
  lemma RejectsFirstNonHex(s: string)
    requires HyphenLayout(s) && !IsHexDigit(s[0])
    ensures ConvertVSphereUUIDToTalosFormat(s) == Converted("", Some(HexError(InvalidByte(s[0]))))
  {
    var g1, g2, g3, g4, g5 := s[..8], s[9..13], s[14..18], s[19..23], s[24..];
    assert s[8] == '-' && s[13] == '-' && s[18] == '-' && s[23] == '-' by {
      assert IsHyphenPosition(8) && IsHyphenPosition(13) && IsHyphenPosition(18) && IsHyphenPosition(23);
    }
    assert s == g1 + "-" + g2 + "-" + g3 + "-" + g4 + "-" + g5 by {
      assert s == s[..8] + [s[8]] + s[9..13] + [s[13]] + s[14..18] + [s[18]] + s[19..23] + [s[23]] + s[24..];
    }
    StripGroups(g1, g2, g3, g4, g5);
    assert (g1 + g2 + g3 + g4 + g5)[0] == s[0];
  }

  /** The right shape but no hex digit: the decoder rejects the first `x`. */
  lemma InvalidHex()
    ensures ConvertVSphereUUIDToTalosFormat("xxxxxxxx-xxxx-xxxx-xxxx-xxxxxxxxxxxx")
         == Converted("", Some(HexError(InvalidByte('x'))))
  {
    RejectsFirstNonHex("xxxxxxxx-xxxx-xxxx-xxxx-xxxxxxxxxxxx");
  }

  /** The tests' observation that the two forms differ, for each real vector. */
  lemma RealVectorsChange()
    ensures ConvertVSphereUUIDToTalosFormat("422413c3-57c8-96d1-c481-c58dbb837d2d").uuid
         != "422413c3-57c8-96d1-c481-c58dbb837d2d"
    ensures ConvertVSphereUUIDToTalosFormat("42241622-655a-890a-761d-7b177e9de0db").uuid
         != "42241622-655a-890a-761d-7b177e9de0db"
  {
    RealExampleFromLogs();
    ProvisioningExample();
    assert "c3132442-c857-d196-c481-c58dbb837d2d"[0] != "422413c3-57c8-96d1-c481-c58dbb837d2d"[0];
    assert "22162442-5a65-0a89-761d-7b177e9de0db"[0] != "42241622-655a-890a-761d-7b177e9de0db"[0];
  }
}
