/** The comparison table of the self-test at jira_versions.py:255-267, each pair checked
    against the model: first the tokens of every sample name, then the sign the comparator
    gives. */
module Samples {
  import opened Wrappers
  import opened Text
  import opened Tokens
  import opened Ordering

  // ------------------------------------------------------------ general shapes

  lemma DottedThree(x: string, y: string, z: string)
    requires IsDigitString(x) && IsDigitString(y) && IsDigitString(z)
    ensures VersionTokens(Join([x, y, z], '.')) == Success([DecimalValue(x), DecimalValue(y), DecimalValue(z)])
  {
    var parts := [x, y, z];
    assert AllDigitStrings(parts);
    DigitStringsFree(parts, '.');
    DigitStringsFree(parts, '-');
    DottedNameTokens(parts);
    var r := VersionTokens(Join(parts, '.')).value;
    assert r == [r[0], r[1], r[2]];
  }

  lemma HyphenThree(x: string, y: string, z: string, suffix: string)
    requires IsDigitString(x) && IsDigitString(y) && IsDigitString(z) && '-' !in suffix
    ensures VersionTokens(Join([x, y, z], '.') + "-" + suffix) ==
      Success([DecimalValue(x), DecimalValue(y), DecimalValue(z), SuffixNumber(suffix)])
  {
    var parts := [x, y, z];
    assert AllDigitStrings(parts);
    var name := Join(parts, '.') + "-" + suffix;
    ParseNameOfHyphenName(parts, suffix);
    var p := ParseName(name).value;
    var n := SuffixNumber(suffix);
    assert VersionTokens(name) == Success(p + [n]);
    assert p + [n] == [p[0], p[1], p[2], n];
  }

  lemma SlashOfRelease(s: string, k: int)
    ensures ReleaseAt(s, k) ==> s[k + 7] == '/'
  {
    if ReleaseAt(s, k) {
      assert s[k..k + 8][7] == RELEASE_PREFIX[7];
    }
  }

  lemma UnderscoreOf(s: string, k: int)
    ensures UnderscoredAt(s, k) ==> s[k] == '_'
  {
  }

  /** No `release/<digit>` starts inside a prefix that has no `/`. */
  lemma NoReleaseBefore(name: string, pre: string)
    requires |pre| + 8 <= |name| && name[..|pre|] == pre && name[|pre|..|pre| + 8] == RELEASE_PREFIX && '/' !in pre
    ensures forall k :: 0 <= k < |pre| ==> !ReleaseAt(name, k)
  {
    var i := |pre|;
    forall k | 0 <= k < i ensures !ReleaseAt(name, k) {
      SlashOfRelease(name, k);
      if k + 7 < i {
        assert name[k + 7] == name[..i][k + 7];
      } else {
        assert name[k + 7] == name[i..i + 8][k + 7 - i];
      }
    }
  }

  /** No `_` occurs before the one that follows `<pre>release/<major>` when `pre` has no `_`
      and `major` is all digits. */
  lemma NoUnderscoreBefore(name: string, pre: string, major: string)
    requires |pre| + 8 + |major| <= |name| && name[..|pre| + 8 + |major|] == pre + RELEASE_PREFIX + major
    requires '_' !in pre && IsDigitString(major)
    ensures forall k :: 0 <= k < |pre| + 8 + |major| ==> !UnderscoredAt(name, k)
  {
    var head := pre + RELEASE_PREFIX + major;
    forall k | 0 <= k < |head| ensures !UnderscoredAt(name, k) {
      UnderscoreOf(name, k);
      assert name[k] == head[k];
      if k < |pre| {
        assert head[k] == pre[k];
      } else if k < |pre| + 8 {
        assert head[k] == RELEASE_PREFIX[k - |pre|];
      } else {
        assert head[k] == major[k - |pre| - 8];
      }
    }
  }

  /** In `<pre>release/<major><rest>`, with no `/` in `pre` and `rest` starting with `_`,
      the first `release/<digit>` is at `|pre|` and its digit run is `major`. */
  lemma ReleaseLayout(name: string, pre: string, major: string, rest: string) returns (i: nat)
    requires name == pre + RELEASE_PREFIX + major + rest
    requires '/' !in pre && IsDigitString(major) && rest != [] && rest[0] == '_'
    ensures FirstReleaseAt(name, i) && LeadingDigits(name[i + |RELEASE_PREFIX|..]) == major
  {
    i := |pre|;
    assert name[..i] == pre;
    assert name[i..i + 8] == RELEASE_PREFIX;
    assert name[i + 8..] == major + rest;
    LeadingDigitsOf(major, rest);
    NoReleaseBefore(name, pre);
  }

  /** In `<pre>release/<major>_<minor>_<post>`, with no `_` in `pre`, the first `_<digits>_`
      is the one right after the major, and its digit run is `minor`. */
  lemma UnderscoreLayout(name: string, pre: string, major: string, minor: string, post: string) returns (j: nat)
    requires name == pre + RELEASE_PREFIX + major + "_" + minor + "_" + post
    requires '_' !in pre && IsDigitString(major) && IsDigitString(minor)
    ensures FirstUnderscoredAt(name, j) && LeadingDigits(name[j + 1..]) == minor
  {
    var head := pre + RELEASE_PREFIX + major;
    j := |head|;
    assert name == head + "_" + minor + "_" + post;
    assert UnderscoredAt(name, j) && LeadingDigits(name[j + 1..]) == minor by {
      assert name[j + 1..] == minor + ("_" + post);
      LeadingDigitsOf(minor, "_" + post);
      assert name[j] == '_' && name[j + 1] == minor[0] && name[j + 1 + |minor|] == '_';
    }
    assert forall k :: 0 <= k < j ==> !UnderscoredAt(name, k) by {
      assert name[..j] == head;
      NoUnderscoreBefore(name, pre, major);
    }
  }

  /** A branch name has a `-` or a `.` only where `pre` or `post` has one. */
  lemma BranchChars(name: string, pre: string, major: string, minor: string, post: string)
    requires name == pre + RELEASE_PREFIX + major + "_" + minor + "_" + post
    requires '-' !in pre && '.' !in pre && '-' !in post && '.' !in post
    requires IsDigitString(major) && IsDigitString(minor)
    ensures '-' !in name && '.' !in name
  {
    assert '-' !in major && '-' !in minor && '.' !in major && '.' !in minor;
  }

  /** The tokens of a branch name whose first `release/<digit>` is at `i` and whose first
      `_<digits>_` is at `j`. */
  lemma BranchTokensOf(name: string, i: int, j: int, major: string, minor: string)
    requires '-' !in name && '.' !in name
    requires FirstReleaseAt(name, i) && LeadingDigits(name[i + |RELEASE_PREFIX|..]) == major
    requires FirstUnderscoredAt(name, j) && LeadingDigits(name[j + 1..]) == minor
    ensures VersionTokens(name) == Success([DecimalValue(major), DecimalValue(minor), SUFFIX_DEFAULT])
  {
    ReleaseBranchTokens(name, i);
    var r := VersionTokens(name).value;
    assert r[0] == DecimalValue(major);
    assert r[1] == DecimalValue(minor);
    assert r == [r[0], r[1], r[2]];
  }

  /** A branch name `<pre>release/<major>_<minor>_<post>` in which `pre` has neither `/`
      nor `_`: the major and minor numbers are the ones written there. */
  lemma Branch(name: string, pre: string, major: string, minor: string, post: string)
    requires name == pre + RELEASE_PREFIX + major + "_" + minor + "_" + post
    requires '/' !in pre && '_' !in pre && IsDigitString(major) && IsDigitString(minor)
    requires '-' !in pre && '.' !in pre && '-' !in post && '.' !in post
    ensures VersionTokens(name) == Success([DecimalValue(major), DecimalValue(minor), SUFFIX_DEFAULT])
  {
    assert name == pre + RELEASE_PREFIX + major + ("_" + minor + "_" + post);
    var i := ReleaseLayout(name, pre, major, "_" + minor + "_" + post);
    var j := UnderscoreLayout(name, pre, major, minor, post);
    BranchChars(name, pre, major, minor, post);
    BranchTokensOf(name, i, j, major, minor);
  }

  // ------------------------------------------------------------ literal facts

  lemma SmallDecimals()
    ensures DecimalValue("0") == 0 && DecimalValue("1") == 1 && DecimalValue("3") == 3
    ensures DecimalValue("4") == 4 && DecimalValue("8") == 8 && DecimalValue("140") == 140
    ensures IsDigitString("0") && IsDigitString("1") && IsDigitString("3")
    ensures IsDigitString("4") && IsDigitString("8") && IsDigitString("140")
  {
    assert "140"[..2] == "14" && "14"[..1] == "1" && "1"[..0] == "";
    assert "0"[..0] == "" && "3"[..0] == "" && "4"[..0] == "" && "8"[..0] == "";
  }

  lemma YearDecimals()
    ensures DecimalValue("1969") == 1969 && DecimalValue("1970") == 1970
    ensures IsDigitString("1969") && IsDigitString("1970")
  {
    assert "1969"[..3] == "196" && "196"[..2] == "19" && "19"[..1] == "1" && "1"[..0] == "";
    assert "1970"[..3] == "197" && "197"[..2] == "19";
  }

  lemma JoinThree(x: string, y: string, z: string)
    ensures Join([x, y, z], '.') == x + "." + y + "." + z
  {
    assert [x, y, z][1..] == [y, z] && [y, z][1..] == [z];
    assert Join([y, z], '.') == y + "." + z;
    assert Join([x, y, z], '.') == x + "." + (y + "." + z);
  }

  lemma NightlySuffix()
    ensures SuffixNumber("nightly0") == 0 && '-' !in "nightly0"
  {
    var s := "nightly0";
    assert NoDigit(s[..7]);
    FirstDigitRunSkip(s, 7);
    assert s[7..] == "0";
    assert LeadingDigits("0"[1..]) == [];
    SmallDecimals();
  }

  // ------------------------------------------------------------ the sample names
  // Each name: how it is spelled from its parts, what the parts parse to, and the two
  // combined.

  lemma Spelled_140_0_4()
    ensures Join(["140", "0", "4"], '.') == "140.0.4"
  {
    JoinThree("140", "0", "4");
  }

  lemma Parsed_140_0_4()
    ensures VersionTokens(Join(["140", "0", "4"], '.')) == Success([140, 0, 4])
  {
    SmallDecimals();
    DottedThree("140", "0", "4");
  }

  lemma Tokens_140_0_4()
    ensures VersionTokens("140.0.4") == Success([140, 0, 4])
  {
    Spelled_140_0_4();
    Parsed_140_0_4();
  }

  lemma Spelled_140_0_3()
    ensures Join(["140", "0", "3"], '.') == "140.0.3"
  {
    JoinThree("140", "0", "3");
  }

  lemma Parsed_140_0_3()
    ensures VersionTokens(Join(["140", "0", "3"], '.')) == Success([140, 0, 3])
  {
    SmallDecimals();
    DottedThree("140", "0", "3");
  }

  lemma Tokens_140_0_3()
    ensures VersionTokens("140.0.3") == Success([140, 0, 3])
  {
    Spelled_140_0_3();
    Parsed_140_0_3();
  }

  lemma Spelled_140_0_0()
    ensures Join(["140", "0", "0"], '.') == "140.0.0"
  {
    JoinThree("140", "0", "0");
  }

  lemma Parsed_140_0_0()
    ensures VersionTokens(Join(["140", "0", "0"], '.')) == Success([140, 0, 0])
  {
    SmallDecimals();
    DottedThree("140", "0", "0");
  }

  lemma Tokens_140_0_0()
    ensures VersionTokens("140.0.0") == Success([140, 0, 0])
  {
    Spelled_140_0_0();
    Parsed_140_0_0();
  }

  lemma Spelled_140_1_0()
    ensures Join(["140", "1", "0"], '.') == "140.1.0"
  {
    JoinThree("140", "1", "0");
  }

  lemma Parsed_140_1_0()
    ensures VersionTokens(Join(["140", "1", "0"], '.')) == Success([140, 1, 0])
  {
    SmallDecimals();
    DottedThree("140", "1", "0");
  }

  lemma Tokens_140_1_0()
    ensures VersionTokens("140.1.0") == Success([140, 1, 0])
  {
    Spelled_140_1_0();
    Parsed_140_1_0();
  }

  lemma Spelled_1970_0_8()
    ensures Join(["1970", "0", "8"], '.') == "1970.0.8"
  {
    JoinThree("1970", "0", "8");
  }

  lemma Parsed_1970_0_8()
    ensures VersionTokens(Join(["1970", "0", "8"], '.')) == Success([1970, 0, 8])
  {
    SmallDecimals();
    YearDecimals();
    DottedThree("1970", "0", "8");
  }

  lemma Tokens_1970_0_8()
    ensures VersionTokens("1970.0.8") == Success([1970, 0, 8])
  {
    Spelled_1970_0_8();
    Parsed_1970_0_8();
  }

  lemma Spelled_1969_1_0()
    ensures Join(["1969", "1", "0"], '.') == "1969.1.0"
  {
    JoinThree("1969", "1", "0");
  }

  lemma Parsed_1969_1_0()
    ensures VersionTokens(Join(["1969", "1", "0"], '.')) == Success([1969, 1, 0])
  {
    SmallDecimals();
    YearDecimals();
    DottedThree("1969", "1", "0");
  }

  lemma Tokens_1969_1_0()
    ensures VersionTokens("1969.1.0") == Success([1969, 1, 0])
  {
    Spelled_1969_1_0();
    Parsed_1969_1_0();
  }

  lemma Spelled_140_0_0_nightly0()
    ensures Join(["140", "0", "0"], '.') + "-" + "nightly0" == "140.0.0-nightly0"
  {
    Spelled_140_0_0();
  }

  lemma Parsed_140_0_0_nightly0()
    ensures VersionTokens(Join(["140", "0", "0"], '.') + "-" + "nightly0") == Success([140, 0, 0, 0])
  {
    SmallDecimals();
    NightlySuffix();
    HyphenThree("140", "0", "0", "nightly0");
  }

  lemma Tokens_140_0_0_nightly0()
    ensures VersionTokens("140.0.0-nightly0") == Success([140, 0, 0, 0])
  {
    Spelled_140_0_0_nightly0();
    Parsed_140_0_0_nightly0();
  }

  lemma Spelled_140_1_0_nightly0()
    ensures Join(["140", "1", "0"], '.') + "-" + "nightly0" == "140.1.0-nightly0"
  {
    Spelled_140_1_0();
  }

  lemma Parsed_140_1_0_nightly0()
    ensures VersionTokens(Join(["140", "1", "0"], '.') + "-" + "nightly0") == Success([140, 1, 0, 0])
  {
    SmallDecimals();
    NightlySuffix();
    HyphenThree("140", "1", "0", "nightly0");
  }

  lemma Tokens_140_1_0_nightly0()
    ensures VersionTokens("140.1.0-nightly0") == Success([140, 1, 0, 0])
  {
    Spelled_140_1_0_nightly0();
    Parsed_140_1_0_nightly0();
  }

  lemma Spelled_Release_140_0()
    ensures "Release (" + RELEASE_PREFIX + "140" + "_" + "0" + "_" + "asdf)" == "Release (release/140_0_asdf)"
  {
  }

  lemma Parsed_Release_140_0()
    ensures VersionTokens("Release (" + RELEASE_PREFIX + "140" + "_" + "0" + "_" + "asdf)") == Success([140, 0, 9000])
  {
    SmallDecimals();
    Branch("Release (" + RELEASE_PREFIX + "140" + "_" + "0" + "_" + "asdf)", "Release (", "140", "0", "asdf)");
  }

  lemma Tokens_Release_140_0()
    ensures VersionTokens("Release (release/140_0_asdf)") == Success([140, 0, 9000])
  {
    Spelled_Release_140_0();
    Parsed_Release_140_0();
  }

  lemma Spelled_Patch_140_1()
    ensures "Patch (" + RELEASE_PREFIX + "140" + "_" + "1" + "_" + "asdf)" == "Patch (release/140_1_asdf)"
  {
  }

  lemma Parsed_Patch_140_1()
    ensures VersionTokens("Patch (" + RELEASE_PREFIX + "140" + "_" + "1" + "_" + "asdf)") == Success([140, 1, 9000])
  {
    SmallDecimals();
    Branch("Patch (" + RELEASE_PREFIX + "140" + "_" + "1" + "_" + "asdf)", "Patch (", "140", "1", "asdf)");
  }

  lemma Tokens_Patch_140_1()
    ensures VersionTokens("Patch (release/140_1_asdf)") == Success([140, 1, 9000])
  {
    Spelled_Patch_140_1();
    Parsed_Patch_140_1();
  }

  lemma Spelled_Sunflower_1969_1()
    ensures "Sunflower (" + RELEASE_PREFIX + "1969" + "_" + "1" + "_" + "sunflower)" == "Sunflower (release/1969_1_sunflower)"
  {
  }

  lemma Parsed_Sunflower_1969_1()
    ensures VersionTokens("Sunflower (" + RELEASE_PREFIX + "1969" + "_" + "1" + "_" + "sunflower)") == Success([1969, 1, 9000])
  {
    SmallDecimals();
    YearDecimals();
    Branch("Sunflower (" + RELEASE_PREFIX + "1969" + "_" + "1" + "_" + "sunflower)", "Sunflower (", "1969", "1", "sunflower)");
  }

  lemma Tokens_Sunflower_1969_1()
    ensures VersionTokens("Sunflower (release/1969_1_sunflower)") == Success([1969, 1, 9000])
  {
    Spelled_Sunflower_1969_1();
    Parsed_Sunflower_1969_1();
  }

  lemma Spelled_Sunflower_1969_0()
    ensures "Sunflower (" + RELEASE_PREFIX + "1969" + "_" + "0" + "_" + "sunflower)" == "Sunflower (release/1969_0_sunflower)"
  {
  }

  lemma Parsed_Sunflower_1969_0()
    ensures VersionTokens("Sunflower (" + RELEASE_PREFIX + "1969" + "_" + "0" + "_" + "sunflower)") == Success([1969, 0, 9000])
  {
    SmallDecimals();
    YearDecimals();
    Branch("Sunflower (" + RELEASE_PREFIX + "1969" + "_" + "0" + "_" + "sunflower)", "Sunflower (", "1969", "0", "sunflower)");
  }

  lemma Tokens_Sunflower_1969_0()
    ensures VersionTokens("Sunflower (release/1969_0_sunflower)") == Success([1969, 0, 9000])
  {
    Spelled_Sunflower_1969_0();
    Parsed_Sunflower_1969_0();
  }

  // ------------------------------------------------------------ the table
  // One lemma per row of the self-test table; the table lists `a > b` for 1 and `a < b`
  // for -1.

  lemma Row1()
    ensures ComparatorDefault("140.0.4", "140.0.3") == Success(1)
  {
    Tokens_140_0_4();
    Tokens_140_0_3();
    CompareIsPrecedes([140, 0, 4], [140, 0, 3]);
  }

  lemma Row2()
    ensures ComparatorDefault("140.0.3", "140.0.4") == Success(-1)
  {
    Tokens_140_0_3();
    Tokens_140_0_4();
    CompareIsPrecedes([140, 0, 3], [140, 0, 4]);
  }

  lemma Row3()
    ensures ComparatorDefault("140.0.0", "140.1.0") == Success(-1)
  {
    Tokens_140_0_0();
    Tokens_140_1_0();
    CompareIsPrecedes([140, 0, 0], [140, 1, 0]);
  }

  lemma Row4()
    ensures ComparatorDefault("140.0.0-nightly0", "140.0.0") == Success(-1)
  {
    Tokens_140_0_0_nightly0();
    Tokens_140_0_0();
    CompareIsPrecedes([140, 0, 0, 0], [140, 0, 0]);
  }

  lemma Row5()
    ensures ComparatorDefault("140.1.0-nightly0", "140.0.0") == Success(1)
  {
    Tokens_140_1_0_nightly0();
    Tokens_140_0_0();
    CompareIsPrecedes([140, 1, 0, 0], [140, 0, 0]);
  }

  lemma Row6()
    ensures ComparatorDefault("140.0.0-nightly0", "Release (release/140_0_asdf)") == Success(-1)
  {
    Tokens_140_0_0_nightly0();
    Tokens_Release_140_0();
    CompareIsPrecedes([140, 0, 0, 0], [140, 0, 9000]);
  }

  lemma Row7()
    ensures ComparatorDefault("140.0.0", "Release (release/140_0_asdf)") == Success(-1)
  {
    Tokens_140_0_0();
    Tokens_Release_140_0();
    CompareIsPrecedes([140, 0, 0], [140, 0, 9000]);
  }

  lemma Row8()
    ensures ComparatorDefault("140.1.0", "Release (release/140_0_asdf)") == Success(1)
  {
    Tokens_140_1_0();
    Tokens_Release_140_0();
    CompareIsPrecedes([140, 1, 0], [140, 0, 9000]);
  }

  lemma Row9()
    ensures ComparatorDefault("Patch (release/140_1_asdf)", "Release (release/140_0_asdf)") == Success(1)
  {
    Tokens_Patch_140_1();
    Tokens_Release_140_0();
    CompareIsPrecedes([140, 1, 9000], [140, 0, 9000]);
  }

  lemma Row10()
    ensures ComparatorDefault("Sunflower (release/1969_1_sunflower)", "1970.0.8") == Success(-1)
  {
    Tokens_Sunflower_1969_1();
    Tokens_1970_0_8();
    CompareIsPrecedes([1969, 1, 9000], [1970, 0, 8]);
  }

  lemma Row11()
    ensures ComparatorDefault("Sunflower (release/1969_0_sunflower)", "1969.1.0") == Success(-1)
  {
    Tokens_Sunflower_1969_0();
    Tokens_1969_1_0();
    CompareIsPrecedes([1969, 0, 9000], [1969, 1, 0]);
  }

  /** All rows of the self-test table together. */
  lemma SelfTestTable()
    ensures ComparatorDefault("140.0.4", "140.0.3") == Success(1)
    ensures ComparatorDefault("140.0.3", "140.0.4") == Success(-1)
    ensures ComparatorDefault("140.0.0", "140.1.0") == Success(-1)
    ensures ComparatorDefault("140.0.0-nightly0", "140.0.0") == Success(-1)
    ensures ComparatorDefault("140.1.0-nightly0", "140.0.0") == Success(1)
    ensures ComparatorDefault("140.0.0-nightly0", "Release (release/140_0_asdf)") == Success(-1)
    ensures ComparatorDefault("140.0.0", "Release (release/140_0_asdf)") == Success(-1)
    ensures ComparatorDefault("140.1.0", "Release (release/140_0_asdf)") == Success(1)
    ensures ComparatorDefault("Patch (release/140_1_asdf)", "Release (release/140_0_asdf)") == Success(1)
    ensures ComparatorDefault("Sunflower (release/1969_1_sunflower)", "1970.0.8") == Success(-1)
    ensures ComparatorDefault("Sunflower (release/1969_0_sunflower)", "1969.1.0") == Success(-1)
  {
    Row1();
    Row2();
    Row3();
    Row4();
    Row5();
    Row6();
    Row7();
    Row8();
    Row9();
    Row10();
    Row11();
  }
}
