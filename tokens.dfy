/** The version-name parser: `version_tokens`, `parse_name` and `get_shoud_prev`
    (jira_versions.py:124-151, 205-233). A name becomes a sequence of integers; three
    naming conventions are recognised, a hyphenated or dotted name with a non-numeric
    part or a second hyphen is rejected, and every other name becomes the sentinel. */
module Tokens {
  import opened Wrappers
  import opened Text

  /** What a step of the engine can raise instead of returning. */
  datatype Error =
    | MalformedName(name: string)  // ValueError: two hyphens or a non-numeric dotted part
    | MissingKey(key: string)      // KeyError: a lookup of a name that is not a key
    | NoVersionList                // TypeError: the download returned None

  /** A value no real version component has (all of them are non-negative). */
  const NON_NUMBER: int := -100

  /** The tokens of a name that follows none of the conventions. */
  const FAKE_VERSION: seq<int> := [NON_NUMBER, NON_NUMBER, NON_NUMBER, NON_NUMBER]

  /** The token appended when a suffix carries no number, and after every branch name. */
  const SUFFIX_DEFAULT: int := 9000

  const RELEASE_PREFIX: string := "release/"

  /** `list(map(int, parts))`: every piece must convert. */
  function ParseInts(parts: seq<string>): (r: Option<seq<int>>)
    ensures r.Some? <==> forall k :: 0 <= k < |parts| ==> IsDigitString(parts[k])
    ensures r.Some? ==> |r.value| == |parts|
    ensures r.Some? ==> forall k :: 0 <= k < |parts| ==> r.value[k] == DecimalValue(parts[k])
  {
    if parts == [] then Some([])
    else
      match ParseInt(parts[0])
      case None => None
      case Some(x) =>
        match ParseInts(parts[1..])
        case None => None
        case Some(xs) => Some([x] + xs)
  }

  /** `list(map(int, s.split('.')))`. */
  function DottedInts(s: string): (r: Option<seq<int>>)
    ensures r.Some? ==> |r.value| >= 1
  {
    ParseInts(Split(s, '.'))
  }

  // ------------------------------------------------------------ branch names

  /** `release/` followed by a digit starts at position `i`. */
  predicate ReleaseAt(s: string, i: int) {
    OccursAt(s, RELEASE_PREFIX, i) && i + |RELEASE_PREFIX| < |s| && IsDigit(s[i + |RELEASE_PREFIX|])
  }

  /** `_`, a run of digits and `_` start at position `i`. */
  predicate UnderscoredAt(s: string, i: int) {
    0 <= i && i + 1 < |s| && s[i] == '_' && IsDigit(s[i + 1]) &&
    i + 1 + |LeadingDigits(s[i + 1..])| < |s| && s[i + 1 + |LeadingDigits(s[i + 1..])|] == '_'
  }

  /** `re.search("release/(\d+)", s).group(1)`. */
  function ReleaseMajor(s: string): (r: Option<string>)
    ensures r.Some? ==> IsDigitString(r.value)
  {
    if |s| <= |RELEASE_PREFIX| then None
    else if ReleaseAt(s, 0) then Some(LeadingDigits(s[|RELEASE_PREFIX|..]))
    else ReleaseMajor(s[1..])
  }

  /** `re.search("_(\d+)_", s).group(1)`. */
  function UnderscoredNumber(s: string): (r: Option<string>)
    ensures r.Some? ==> IsDigitString(r.value)
  {
    if |s| < 3 then None
    else if UnderscoredAt(s, 0) then Some(LeadingDigits(s[1..]))
    else UnderscoredNumber(s[1..])
  }

  /** The minor number of a branch name, 0 when there is no `_<digits>_`. */
  function ReleaseMinor(name: string): nat
  {
    match UnderscoredNumber(name)
    case Some(d) => DecimalValue(d)
    case None => 0
  }

  /** The tokens of a name without `-` or `.` (jira_versions.py:222-233). */
  function BranchTokens(name: string): seq<int>
  {
    if !Contains(name, RELEASE_PREFIX) then FAKE_VERSION
    else
      match ReleaseMajor(name)
      case None => FAKE_VERSION
      case Some(major) =>
        [DecimalValue(major), ReleaseMinor(name), SUFFIX_DEFAULT]
  }

  /** The number a pre-release suffix contributes (jira_versions.py:214-218). */
  function SuffixNumber(suffix: string): int
  {
    match FirstDigitRun(suffix)
    case Some(d) => DecimalValue(d)
    case None => SUFFIX_DEFAULT
  }

  /** `version_tokens(name)`, with the exceptions it raises as `Failure`. */
  function VersionTokens(name: string): Result<seq<int>, Error>
  {
    if '-' in name then
      var pieces := Split(name, '-');
      if |pieces| != 2 then Failure(MalformedName(name))
      else
        match DottedInts(pieces[0])
        case None => Failure(MalformedName(name))
        case Some(ts) => Success(ts + [SuffixNumber(pieces[1])])
    else if '.' in name then
      match DottedInts(name)
      case None => Failure(MalformedName(name))
      case Some(ts) => Success(ts)
    else
      Success(BranchTokens(name))
  }

  // ------------------------------------------------------------ the search functions

  /** The leftmost `release/<digit>` of `s` is at `i`. */
  predicate FirstReleaseAt(s: string, i: int) {
    ReleaseAt(s, i) && forall k :: 0 <= k < i ==> !ReleaseAt(s, k)
  }

  /** The leftmost `_<digits>_` of `s` is at `j`. */
  predicate FirstUnderscoredAt(s: string, j: int) {
    UnderscoredAt(s, j) && forall k :: 0 <= k < j ==> !UnderscoredAt(s, k)
  }

  /** `release/<digit>` at `k` in `s` is the same as at `k - 1` in `s[1..]`. */
  lemma ReleaseAtShift(s: string, k: int)
    requires 0 < k && s != []
    ensures ReleaseAt(s, k) <==> ReleaseAt(s[1..], k - 1)
    ensures k + |RELEASE_PREFIX| <= |s| ==> s[1..][k - 1 + |RELEASE_PREFIX|..] == s[k + |RELEASE_PREFIX|..]
  {
    if k + |RELEASE_PREFIX| <= |s| {
      assert s[1..][k - 1..k - 1 + |RELEASE_PREFIX|] == s[k..k + |RELEASE_PREFIX|];
    }
  }

  /** `_<digits>_` at `k` in `s` is the same as at `k - 1` in `s[1..]`. */
  lemma UnderscoredAtShift(s: string, k: int)
    requires 0 < k && s != []
    ensures UnderscoredAt(s, k) <==> UnderscoredAt(s[1..], k - 1)
    ensures k + 1 <= |s| ==> s[1..][k..] == s[k + 1..]
  {
    if k + 1 <= |s| {
      assert s[1..][k..] == s[k + 1..];
    }
  }

  lemma {:induction false} ReleaseMajorNone(s: string)
    ensures ReleaseMajor(s).None? <==> forall i :: !ReleaseAt(s, i)
  {
    if |s| <= |RELEASE_PREFIX| {
    } else if !ReleaseAt(s, 0) {
      ReleaseMajorNone(s[1..]);
      forall i | ReleaseAt(s, i) ensures ReleaseAt(s[1..], i - 1) {
        ReleaseAtShift(s, i);
      }
      forall i | ReleaseAt(s[1..], i) ensures ReleaseAt(s, i + 1) {
        ReleaseAtShift(s, i + 1);
      }
    }
  }

  /** A found major number is the digit run after the leftmost `release/<digit>`. */
  lemma {:induction false} ReleaseMajorAt(s: string) returns (i: nat)
    requires ReleaseMajor(s).Some?
    ensures FirstReleaseAt(s, i)
    ensures ReleaseMajor(s).value == LeadingDigits(s[i + |RELEASE_PREFIX|..])
  {
    if ReleaseAt(s, 0) {
      i := 0;
    } else {
      var j := ReleaseMajorAt(s[1..]);
      i := j + 1;
      ReleaseAtShift(s, i);
      forall k | 0 < k < i ensures !ReleaseAt(s, k) {
        ReleaseAtShift(s, k);
      }
    }
  }

  lemma {:induction false} UnderscoredNumberNone(s: string)
    ensures UnderscoredNumber(s).None? <==> forall i :: !UnderscoredAt(s, i)
  {
    if |s| < 3 {
    } else if !UnderscoredAt(s, 0) {
      UnderscoredNumberNone(s[1..]);
      forall i | UnderscoredAt(s, i) ensures UnderscoredAt(s[1..], i - 1) {
        UnderscoredAtShift(s, i);
      }
      forall i | UnderscoredAt(s[1..], i) ensures UnderscoredAt(s, i + 1) {
        UnderscoredAtShift(s, i + 1);
      }
    }
  }

  /** A found minor number is the digit run of the leftmost `_<digits>_`. */
  lemma {:induction false} UnderscoredNumberAt(s: string) returns (i: nat)
    requires UnderscoredNumber(s).Some?
    ensures FirstUnderscoredAt(s, i)
    ensures UnderscoredNumber(s).value == LeadingDigits(s[i + 1..])
  {
    if UnderscoredAt(s, 0) {
      i := 0;
    } else {
      var j := UnderscoredNumberAt(s[1..]);
      i := j + 1;
      UnderscoredAtShift(s, i);
      forall k | 0 < k < i ensures !UnderscoredAt(s, k) {
        UnderscoredAtShift(s, k);
      }
    }
  }

  // ------------------------------------------------------------ parse_name, get_shoud_prev

  /** `parse_name(n)`: the dotted integers before the first hyphen (jira_versions.py:141-144). */
  function ParseName(n: string): Result<seq<int>, Error>
  {
    var head := if '-' in n then Split(n, '-')[0] else n;
    match DottedInts(head)
    case None => Failure(MalformedName(n))
    case Some(ts) => Success(ts)
  }

  /** `get_shoud_prev(n, format_version)`: the name formatted from `n`'s integers with the
      last one decremented (jira_versions.py:148-151). */
  function GetShouldPrev(n: string, format: seq<int> -> string): Result<string, Error>
  {
    match ParseName(n)
    case Failure(e) => Failure(e)
    case Success(p) => Success(format(p[|p| - 1 := p[|p| - 1] - 1]))
  }

  /** A formatter for `get_shoud_prev`: the integers joined with dots. */
  function FormatDotted(ts: seq<int>): string
  {
    if ts == [] then "" else Join(seq(|ts|, k requires 0 <= k < |ts| => IntToString(ts[k])), '.')
  }

  // ------------------------------------------------------------ what version_tokens computes

  predicate AllDigitStrings(parts: seq<string>) {
    forall k :: 0 <= k < |parts| ==> IsDigitString(parts[k])
  }

  lemma DigitStringsFree(parts: seq<string>, c: char)
    requires AllDigitStrings(parts) && !IsDigit(c)
    ensures forall k :: 0 <= k < |parts| ==> Free(parts[k], c)
  {
    forall k, i | 0 <= k < |parts| && 0 <= i < |parts[k]| ensures parts[k][i] != c {
      assert IsDigit(parts[k][i]);
    }
  }

  /** A join of digit strings with dots contains no hyphen. */
  lemma DottedHasNoHyphen(parts: seq<string>)
    requires |parts| >= 1 && AllDigitStrings(parts)
    ensures Free(Join(parts, '.'), '-')
  {
    DigitStringsFree(parts, '-');
    JoinChars(parts, '.', '-');
  }

  /** The dotted prefix of a hyphenated name parses to its parts' values. */
  lemma DottedPrefix(parts: seq<string>, suffix: string)
    requires |parts| >= 1 && AllDigitStrings(parts)
    ensures var name := Join(parts, '.') + "-" + suffix;
      '-' in name && Split(name, '-') == [Join(parts, '.')] + Split(suffix, '-') &&
      DottedInts(Join(parts, '.')) == ParseInts(parts)
  {
    var name := Join(parts, '.') + "-" + suffix;
    assert name[|Join(parts, '.')|] == '-';
    DottedHasNoHyphen(parts);
    SplitConcat(Join(parts, '.'), suffix, '-');
    DigitStringsFree(parts, '.');
    JoinSplit(parts, '.');
  }

  /** A name `<digits>.<digits>...-<suffix>` with exactly one hyphen gives the dotted
      values followed by the first digit run of the suffix, or 9000 when the suffix has
      no digit; one token more than there are dotted parts. */
  lemma HyphenNameTokens(parts: seq<string>, suffix: string)
    requires |parts| >= 1 && AllDigitStrings(parts)
    requires '-' !in suffix
    ensures var r := VersionTokens(Join(parts, '.') + "-" + suffix);
      && r.Success?
      && |r.value| == |parts| + 1
      && (forall k :: 0 <= k < |parts| ==> r.value[k] == DecimalValue(parts[k]))
      && (NoDigit(suffix) ==> r.value[|parts|] == SUFFIX_DEFAULT)
      && (!NoDigit(suffix) ==>
            exists i, j :: && 0 <= i < j <= |suffix| && NoDigit(suffix[..i])
                           && IsDigitString(suffix[i..j]) && (j == |suffix| || !IsDigit(suffix[j]))
                           && r.value[|parts|] == DecimalValue(suffix[i..j]))
  {
    DottedPrefix(parts, suffix);
    SplitFree(suffix, '-');
    FirstDigitRunNone(suffix);
    if !NoDigit(suffix) {
      var i := FirstDigitRunAt(suffix);
      var d := FirstDigitRun(suffix).value;
      assert IsDigitString(suffix[i..i + |d|]);
    }
  }

  /** Joining two hyphen-free pieces with a hyphen gives a name that splits back into them. */
  lemma HyphenSplit(dotted: string, suffix: string)
    requires Free(dotted, '-') && Free(suffix, '-')
    ensures '-' in dotted + "-" + suffix && Split(dotted + "-" + suffix, '-') == [dotted, suffix]
  {
    assert (dotted + "-" + suffix)[|dotted|] == '-';
    SplitConcat(dotted, suffix, '-');
    SplitFree(suffix, '-');
  }

  /** `version_tokens` of a name with one hyphen, in terms of its two pieces. */
  lemma OneHyphenTokens(name: string, dotted: string, suffix: string)
    requires '-' in name && Split(name, '-') == [dotted, suffix]
    ensures DottedInts(dotted).None? ==> VersionTokens(name) == Failure(MalformedName(name))
    ensures DottedInts(dotted).Some? ==> VersionTokens(name) == Success(DottedInts(dotted).value + [SuffixNumber(suffix)])
  {
  }

  /** A name with one hyphen whose dotted prefix has a part that is not a digit string is
      rejected, whatever the suffix (jira_versions.py:213). */
  lemma HyphenNameRejected(parts: seq<string>, suffix: string)
    requires |parts| >= 1 && !AllDigitStrings(parts)
    requires forall k :: 0 <= k < |parts| ==> Free(parts[k], '.') && Free(parts[k], '-')
    requires '-' !in suffix
    ensures VersionTokens(Join(parts, '.') + "-" + suffix) == Failure(MalformedName(Join(parts, '.') + "-" + suffix))
  {
    var dotted := Join(parts, '.');
    JoinChars(parts, '.', '-');
    HyphenSplit(dotted, suffix);
    JoinSplit(parts, '.');
    assert DottedInts(dotted).None?;
    OneHyphenTokens(dotted + "-" + suffix, dotted, suffix);
  }

  /** A name with two or more hyphens is rejected (jira_versions.py:212). */
  lemma TwoHyphensRejected(name: string)
    requires multiset(name)['-'] >= 2
    ensures VersionTokens(name) == Failure(MalformedName(name))
  {
    SplitCount(name, '-');
  }

  /** A plain dotted name parses iff every part is a digit string, and then gives exactly
      the parts' values (jira_versions.py:220-221). */
  lemma DottedNameTokens(parts: seq<string>)
    requires |parts| >= 2
    requires forall k :: 0 <= k < |parts| ==> Free(parts[k], '.') && Free(parts[k], '-')
    ensures var r := VersionTokens(Join(parts, '.'));
      && (r.Success? <==> AllDigitStrings(parts))
      && (r.Failure? ==> r.error == MalformedName(Join(parts, '.')))
      && (r.Success? ==> |r.value| == |parts|)
      && (r.Success? ==> forall k :: 0 <= k < |parts| ==> r.value[k] == DecimalValue(parts[k]))
  {
    JoinChars(parts, '.', '-');
    JoinSplit(parts, '.');
  }

  /** A name without `-` or `.` that has `release/` followed by a digit gives
      (major, minor, 9000): major from the leftmost such occurrence, minor from the
      leftmost `_<digits>_` or 0 when there is none (jira_versions.py:222-229). */
  lemma ReleaseBranchTokens(name: string, i: int)
    requires '-' !in name && '.' !in name
    requires ReleaseAt(name, i) && forall j :: 0 <= j < i ==> !ReleaseAt(name, j)
    ensures var r := VersionTokens(name);
      && r.Success? && |r.value| == 3 && r.value[2] == SUFFIX_DEFAULT
      && r.value[0] == DecimalValue(LeadingDigits(name[i + |RELEASE_PREFIX|..]))
      && ((forall j :: !UnderscoredAt(name, j)) ==> r.value[1] == 0)
      && (forall j :: UnderscoredAt(name, j) && (forall l :: 0 <= l < j ==> !UnderscoredAt(name, l)) ==>
            r.value[1] == DecimalValue(LeadingDigits(name[j + 1..])))
  {
    assert VersionTokens(name) == Success(BranchTokens(name));
    ContainsIff(name, RELEASE_PREFIX);
    assert OccursAt(name, RELEASE_PREFIX, i);
    ReleaseMajorNone(name);
    var i' := ReleaseMajorAt(name);
    assert i' == i;
    assert BranchTokens(name) == [DecimalValue(ReleaseMajor(name).value), ReleaseMinor(name), SUFFIX_DEFAULT];
    ReleaseMinorSpec(name);
  }

  /** The minor number comes from the leftmost `_<digits>_`, and is 0 without one. */
  lemma ReleaseMinorSpec(name: string)
    ensures (forall j :: !UnderscoredAt(name, j)) ==> ReleaseMinor(name) == 0
    ensures forall j :: UnderscoredAt(name, j) && (forall l :: 0 <= l < j ==> !UnderscoredAt(name, l)) ==>
      ReleaseMinor(name) == DecimalValue(LeadingDigits(name[j + 1..]))
  {
    UnderscoredNumberNone(name);
    if UnderscoredNumber(name).Some? {
      var j' := UnderscoredNumberAt(name);
      assert forall j :: UnderscoredAt(name, j) && (forall l :: 0 <= l < j ==> !UnderscoredAt(name, l)) ==> j == j';
    }
  }

  /** A name without `-` or `.` and without `release/<digit>` anywhere (no `release/` at
      all, or one not followed by digits) is the sentinel (jira_versions.py:222-233). */
  lemma SentinelTokens(name: string)
    requires '-' !in name && '.' !in name
    requires forall i :: !ReleaseAt(name, i)
    ensures VersionTokens(name) == Success(FAKE_VERSION)
  {
    ReleaseMajorNone(name);
  }

  /** `parse_name` keeps the dotted integers of a hyphenated name whatever its suffix, and
      they are `version_tokens` without the suffix number when there is one hyphen. */
  lemma ParseNameOfHyphenName(parts: seq<string>, suffix: string)
    requires |parts| >= 1 && AllDigitStrings(parts)
    ensures var name := Join(parts, '.') + "-" + suffix;
      && ParseName(name).Success?
      && |ParseName(name).value| == |parts|
      && (forall k :: 0 <= k < |parts| ==> ParseName(name).value[k] == DecimalValue(parts[k]))
      && ('-' !in suffix ==> VersionTokens(name) == Success(ParseName(name).value + [SuffixNumber(suffix)]))
  {
    DottedPrefix(parts, suffix);
    if '-' !in suffix {
      SplitFree(suffix, '-');
    }
  }

  /** For a dotted name `parse_name` and `version_tokens` agree. */
  lemma ParseNameOfDottedName(parts: seq<string>)
    requires |parts| >= 2
    requires forall k :: 0 <= k < |parts| ==> Free(parts[k], '.') && Free(parts[k], '-')
    ensures ParseName(Join(parts, '.')) == VersionTokens(Join(parts, '.'))
  {
    JoinChars(parts, '.', '-');
    JoinChars(parts, '.', '.');
  }

  /** Parsing non-negative integers formatted with dots gives them back. */
  lemma FormatDottedTokens(q: seq<int>)
    requires |q| >= 2 && forall k :: 0 <= k < |q| ==> q[k] >= 0
    ensures VersionTokens(FormatDotted(q)) == Success(q)
  {
    var strs := seq(|q|, k requires 0 <= k < |q| => IntToString(q[k]));
    assert FormatDotted(q) == Join(strs, '.');
    forall k | 0 <= k < |strs| ensures IsDigitString(strs[k]) && DecimalValue(strs[k]) == q[k] {
      DecimalRoundTrip(q[k]);
    }
    assert AllDigitStrings(strs);
    DigitStringsFree(strs, '.');
    DigitStringsFree(strs, '-');
    DottedNameTokens(strs);
    assert VersionTokens(Join(strs, '.')).Success?;
    var r := VersionTokens(Join(strs, '.')).value;
    assert |r| == |q|;
    assert forall k :: 0 <= k < |q| ==> r[k] == q[k];
    assert r == q;
  }

  /** The predecessor `get_shoud_prev` forms for a dotted name: its integers with the last
      one decremented, handed to the formatter. A name ending in 0, such as a first build,
      hands -1 to the formatter. */
  lemma ShouldPrevOfDotted(parts: seq<string>, format: seq<int> -> string) returns (q: seq<int>)
    requires |parts| >= 2 && AllDigitStrings(parts)
    ensures GetShouldPrev(Join(parts, '.'), format) == Success(format(q))
    ensures |q| == |parts| && q[|q| - 1] == DecimalValue(parts[|parts| - 1]) - 1
    ensures forall k :: 0 <= k < |q| - 1 ==> q[k] == DecimalValue(parts[k])
    ensures DecimalValue(parts[|parts| - 1]) >= 1 ==> forall k :: 0 <= k < |q| ==> q[k] >= 0
  {
    DigitStringsFree(parts, '.');
    DigitStringsFree(parts, '-');
    ParseNameOfDottedName(parts);
    DottedNameTokens(parts);
    var p := ParseName(Join(parts, '.')).value;
    q := p[|p| - 1 := p[|p| - 1] - 1];
  }

  /** For a formatter whose output `version_tokens` reads back (as `FormatDotted`'s, by
      `FormatDottedTokens`), the predecessor of a dotted name parses to `q`: the name's
      integers with the last one decremented. */
  lemma ShouldPrevRoundTrip(parts: seq<string>, format: seq<int> -> string) returns (q: seq<int>)
    requires |parts| >= 2 && AllDigitStrings(parts)
    requires DecimalValue(parts[|parts| - 1]) >= 1
    requires forall ts :: |ts| >= 2 && (forall k :: 0 <= k < |ts| ==> ts[k] >= 0) ==>
      VersionTokens(format(ts)) == Success(ts)
    ensures GetShouldPrev(Join(parts, '.'), format) == Success(format(q))
    ensures VersionTokens(format(q)) == Success(q)
    ensures |q| == |parts| && q[|q| - 1] == DecimalValue(parts[|parts| - 1]) - 1
    ensures forall k :: 0 <= k < |q| - 1 ==> q[k] == DecimalValue(parts[k])
  {
    q := ShouldPrevOfDotted(parts, format);
  }
}
