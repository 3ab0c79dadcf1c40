# JIRA version sorter: a Dafny model of its ordering engine

`jira_versions.py` keeps the versions of a JIRA project in release order. Each version
name is read as a tuple of integers. Three naming conventions are recognised:

- `140.0.0` is a plain dotted name.
- `140.0.0-nightly0` is a dotted name with a pre-release suffix.
- `Release (release/140_0_asdf)` is a release branch.

A name with a hyphen or a dot is read as a dotted name. It raises instead when it has two
hyphens, or a part before the suffix that is not a number. A name with neither gives
`(major, minor, 9000)` when it contains `release/` followed by a digit. Otherwise it gives
the sentinel `(-100, -100, -100, -100)`. The tuples are ordered by `comparator_default`. In that order a longer tuple sorts before its prefixes, so a
nightly build comes before the release it leads up to.

`clean_up_release` works through the project's list of versions one major version at a
time:

1. It picks the major's lineage with a predicate.
2. It sorts the lineage.
3. It compares consecutive pairs of the sorted lineage with their positions in the list.

At the first pair that is out of place, it moves every version of that lineage right
behind its predecessor in sorted order, and returns the number of moves.

The model has six modules:

- `Wrappers`: `Option` and `Result`.
- `Text`: the Python string operations the engine uses. These are `split`, `join`,
  `strip`, `in` and `startswith`, `int()` on digit strings, and the first digit run that
  `re.search("\d+", …)` finds.
- `Tokens`: `version_tokens`, `parse_name` and `get_shoud_prev`, with the constants
  `NON_NUMBER` and `FAKE_VERSION`.
- `Ordering`: `comparator_default`, and the strict total order `Precedes` behind it.
- `Lineage`: the three predicates, the filter, and `sorted` with
  `cmp_to_key(comparator_default)`.
- `Reconcile`: the lookup tables `order_of_jira_versions` and `dict_versions`,
  `find_version`, and `clean_up_release`.

A separate module, `Samples`, checks the source's own self-test table against the model.

Python exceptions become `Failure` results in the model:

- `MalformedName` is the `ValueError` from a name with two hyphens, or from a dotted part
  that is not a number.
- `MissingKey` is the `KeyError` from looking up, with its unstripped name, a name that
  the tables keep under its stripped form.
- `NoVersionList` is the `TypeError` from iterating a download that returned `None`.

The imperative parts of the source are loops with invariants, each proved against a
function that states its result: `order_of_jira_versions`, `dict_versions`,
`find_version` and the loops of `clean_up_release`. What the engine promises is then
proved about those functions as lemmas.

Python's `sorted` is timsort, a stable sort. Through `cmp_to_key` it asks only whether
`comparator_default(a, b) < 0`. That question is a strict weak order on names: names with
equal tokens tie. Every stable sort gives the same list for such an order, so the model
uses a stable insertion sort.

The model follows the code as written:

- A pair is out of place only when the position of `prev` is greater than the position of
  `curr`. There is no requirement that the two be adjacent.
- No `.0` first build is skipped.
- A name missing from the tables raises an error instead of being skipped.
- A failed download makes the pass raise rather than skip the project.

## Model

| member | source | states |
|---|---|---|
| Text.StripSpec | jira_versions.py:129-130 | `strip()` returns a contiguous middle part of the name. It cuts only whitespace, and no whitespace is left at either end. |
| Text.StripIdempotent | jira_versions.py:136-137 | A stripped name is its own stripped form, so a key of the tables strips to itself. |
| Text.ParseInt | jira_versions.py:213 | `int()` of a part succeeds exactly on a non-empty ASCII digit string, and its value is then non-negative. |
| Text.FirstDigitRunAt | jira_versions.py:214 | The digit run found in a suffix starts at the suffix's first digit and is non-empty. It cannot be extended to the right. |
| Text.FirstDigitRunNone | jira_versions.py:214-218 | No digit run is found exactly when the suffix has no digit. |
| Tokens.ParseInts | jira_versions.py:213 | Converting the dotted parts succeeds iff every part is a digit string. Then it gives one integer per part, each the part's decimal value. |
| Tokens.HyphenNameTokens | jira_versions.py:211-219 | A name `<digits>.…-<suffix>` with one hyphen gives the dotted values followed by the value of the suffix's first maximal digit run, or 9000 when the suffix has no digit. That is one token more than there are dotted parts. |
| Tokens.HyphenNameRejected | jira_versions.py:211-213 | A name with one hyphen whose dotted prefix has a non-numeric part raises `MalformedName` instead of falling back to the sentinel. |
| Tokens.TwoHyphensRejected | jira_versions.py:211-212 | A name with two or more hyphens raises `MalformedName`. |
| Tokens.DottedNameTokens | jira_versions.py:220-221 | A dotted name without a hyphen parses iff every part is a digit string. Success gives exactly the parts' values; otherwise it raises `MalformedName`. |
| Tokens.ReleaseMajorAt | jira_versions.py:224 | A major number that is found is the digit run after the leftmost `release/<digit>`. |
| Tokens.ReleaseMajorNone | jira_versions.py:224 | No major number is found exactly when `release/` followed by a digit occurs nowhere. |
| Tokens.UnderscoredNumberAt | jira_versions.py:226 | A minor number that is found is the digit run of the leftmost `_<digits>_`. |
| Tokens.UnderscoredNumberNone | jira_versions.py:226-228 | No minor number is found exactly when `_<digits>_` occurs nowhere. |
| Tokens.ReleaseMinorSpec | jira_versions.py:225-228 | The minor number is the one of the leftmost `_<digits>_`, or 0 when there is none. |
| Tokens.ReleaseBranchTokens | jira_versions.py:222-229 | A name without `-` or `.` that has `release/<digit>` gives `(major, minor, 9000)`. The major comes from the leftmost `release/<digits>`. The minor comes from the leftmost `_<digits>_`, or is 0. |
| Tokens.SentinelTokens | jira_versions.py:205-233 | A name without `-` or `.` that has no `release/` followed by a digit gives `FAKE_VERSION = (-100, -100, -100, -100)`. This includes names with no `release/` at all. |
| Tokens.ParseNameOfHyphenName | jira_versions.py:141-144 | `parse_name` of a hyphenated name gives the dotted values, whatever the suffix. With one hyphen, these are `version_tokens` without the suffix number. |
| Tokens.ParseNameOfDottedName | jira_versions.py:141-144 | On a dotted name `parse_name` and `version_tokens` agree, in success and in failure. |
| Tokens.ShouldPrevOfDotted | jira_versions.py:148-151 | `get_shoud_prev` of a dotted name formats the name's integers with the last one decremented. All other integers are unchanged. A last part of 0, as in a first build, hands -1 to the formatter; every integer handed over is non-negative when the last part is at least 1. |
| Tokens.ShouldPrevRoundTrip | jira_versions.py:148-151 | Take a formatter whose output `version_tokens` reads back. The predecessor name then parses to the original integers with the last one decremented. |
| Tokens.FormatDottedTokens | jira_versions.py:148-151 | Joining non-negative integers with dots is a formatter that `version_tokens` reads back exactly. |
| Ordering.CompareTokens | jira_versions.py:236-251 | The comparator never answers 0: the result is always -1 or 1. |
| Ordering.CompareIsPrecedes | jira_versions.py:236-251 | The comparator answers -1 exactly when the first token sequence precedes the second in `Precedes`. `Precedes` is lexicographic order in which the end of a sequence ranks above every number. |
| Ordering.PrecedesAsLexLess | jira_versions.py:241-247 | When the left side is not longer, `Precedes` is Python's tuple `<` against the right side cut to the same length. |
| Ordering.PrecedesIrreflexive | jira_versions.py:248-251 | No token sequence precedes itself. |
| Ordering.PrecedesAsymmetric | jira_versions.py:239-251 | Two sequences never precede each other. |
| Ordering.PrecedesTransitive | jira_versions.py:239-251 | `Precedes` is transitive. |
| Ordering.PrecedesConnected | jira_versions.py:239-251 | Of two distinct sequences, one precedes the other. |
| Ordering.CompareSelf | jira_versions.py:248-251 | Equal token sequences compare as 1. |
| Ordering.CompareAntisymmetric | jira_versions.py:239-251 | For distinct token sequences, the comparator in one direction is the negation of the other direction. |
| Ordering.CompareTransitive | jira_versions.py:239-251 | "Compares as -1" is transitive, so it is a strict total order on distinct sequences. |
| Ordering.PrefixSortsAfter | jira_versions.py:239-247 | A sequence that properly extends another compares as -1 against it. The other way round the answer is 1. |
| Ordering.ComparatorDefaultSpec | jira_versions.py:236-251 | On names, the comparator fails exactly when one of the names is rejected, and otherwise answers -1 or 1. It answers 1 both ways for equal tokens, and is antisymmetric for distinct tokens. |
| Samples.Branch | jira_versions.py:222-229 | A name `<pre>release/<major>_<minor>_<post>` gives `(major, minor, 9000)` when `pre` has none of `/`, `_`, `-`, `.` and `post` has neither `-` nor `.`. |
| Samples.Row1 | jira_versions.py:256 | `140.0.4 > 140.0.3`. |
| Samples.Row2 | jira_versions.py:257 | `140.0.3 < 140.0.4`. |
| Samples.Row3 | jira_versions.py:258 | `140.0.0 < 140.1.0`. |
| Samples.Row4 | jira_versions.py:259 | `140.0.0-nightly0 < 140.0.0`. |
| Samples.Row5 | jira_versions.py:260 | `140.1.0-nightly0 > 140.0.0`. |
| Samples.Row6 | jira_versions.py:261 | `140.0.0-nightly0 < Release (release/140_0_asdf)`. |
| Samples.Row7 | jira_versions.py:262 | `140.0.0 < Release (release/140_0_asdf)`. |
| Samples.Row8 | jira_versions.py:263 | `140.1.0 > Release (release/140_0_asdf)`. |
| Samples.Row9 | jira_versions.py:264 | `Patch (release/140_1_asdf) > Release (release/140_0_asdf)`. |
| Samples.Row10 | jira_versions.py:265 | `Sunflower (release/1969_1_sunflower) < 1970.0.8`. |
| Samples.Row11 | jira_versions.py:266 | `Sunflower (release/1969_0_sunflower) < 1969.1.0`. |
| Samples.SelfTestTable | jira_versions.py:255-274 | Every row of the self-test table gets the sign the table prints for it. |
| Lineage.PredicateDefaultIff | jira_versions.py:193-202 | A name is in a major's default lineage iff it begins with the major and a dot, or has `release/<major>_` somewhere in it. |
| Lineage.Filter | jira_versions.py:166 | Every name kept by the filter satisfies the predicate for the major. |
| Lineage.FilterMultiset | jira_versions.py:166 | The filtered list holds each name that satisfies the predicate as often as the list does, and no other name. |
| Lineage.FilterConcat | jira_versions.py:166 | Filtering keeps list order: it distributes over concatenation. |
| Lineage.Insert | jira_versions.py:170 | Inserting one name adds exactly that name to the multiset of names. |
| Lineage.InsertionSort | jira_versions.py:170 | The sort is a permutation of its input. |
| Lineage.InsertionSortSpec | jira_versions.py:170 | The sort never leaves a name after one that it sorts before. Names with equal tokens stay in list order, which makes the sort stable. |
| Lineage.FirstMalformed | jira_versions.py:170 | A rejected name is found iff some name of the lineage is rejected, and the one found is such a name. |
| Lineage.ProperOrderSpec | jira_versions.py:170 | Sorting fails iff there are at least two names and one of them is rejected, reporting such a name. On success the result is a permutation of the lineage. For every earlier/later pair the comparator answers 1 when asked whether the later sorts before the earlier. Names with equal tokens keep their list order. |
| Lineage.LineageMembers | jira_versions.py:166-170 | The sorted lineage holds each name that satisfies the predicate as often as the version list does, and no other name. |
| Reconcile.IndexMapKeys | jira_versions.py:133-138 | The keys of `order_of_jira_versions` are exactly the stripped names of the list. |
| Reconcile.IndexMapLast | jira_versions.py:133-138 | A key maps to a position in `[0, len(vs))`. The record there has that stripped name, and no later record does: the last occurrence wins. |
| Reconcile.RecordMapSpec | jira_versions.py:128-130 | `dict_versions` has the same keys as `order_of_jira_versions`, and maps each key to the record at the position the index table gives. |
| Reconcile.OrderOfJiraVersions | jira_versions.py:133-138 | The loop builds the index table. |
| Reconcile.DictVersions | jira_versions.py:128-130 | The comprehension builds the record table. |
| Reconcile.FindVersion | jira_versions.py:117-121 | The result is None iff no record has exactly the name `s`. Otherwise it is the first record that does. |
| Reconcile.FirstInversion | jira_versions.py:175-178 | The scan gives the first pair whose positions are inverted, all earlier pairs being in order. It gives None when every pair is in order, and otherwise the `KeyError` of a lineage name missing from the index table. |
| Reconcile.FirstInversionFailure | jira_versions.py:175-178 | A `KeyError` from the scan comes from the first pair with a name missing from the index table, every earlier pair being present and in order. It names `prev` when `prev` is missing, and `curr` otherwise. |
| Reconcile.FirstInversionNone | jira_versions.py:175-178 | The scan finds nothing exactly when every consecutive pair is in order. |
| Reconcile.FindInversion | jira_versions.py:175-178 | The `(prev, curr)` loop computes the scan, with early return. |
| Reconcile.MovesFrom | jira_versions.py:182-184 | The inner loop issues, in order, one move of `m[c]` after `m[p]` per consecutive pair. It issues `len - 1` of them unless a name is missing from the record table. Then it stops with a `KeyError` at the first pair with a missing name, and the moves of the earlier pairs stay issued. |
| Reconcile.RepairLineage | jira_versions.py:181-187 | The moves of a lineage that is out of order follow its sorted pairs. The returned count is the number of moves, one fewer than there are names. A failure is a `KeyError` at the first sorted pair one of whose names the record table lacks, after the moves of the pairs before it. |
| Reconcile.MoveLineage | jira_versions.py:181-187 | The inner loop with `moved_counter` issues exactly the moves and the count that `RepairLineage` gives. |
| Reconcile.CleanUpRelease | jira_versions.py:154-190 | The whole pass issues exactly the moves and returns or raises exactly what `Reconcile` gives, for the fetched list, the majors in order and the predicate. |
| Reconcile.NoMoveIff | jira_versions.py:163-190 | The pass issues no move and returns 0 iff, for every listed major, the lineage sorts and each consecutive pair `(prev, curr)` has `o[prev] <= o[curr]`. |
| Reconcile.MoveCase | jira_versions.py:163-187 | When the pass moves anything, it stopped at the first major whose lineage is out of order, every earlier one being in order, and that lineage has an inverted sorted pair. Its moves are, in order, `m[c]` after `m[p]` for that lineage's consecutive sorted pairs. It returns `len(proper_order) - 1`, the number of moves, unless a lookup failed. |
| Reconcile.InversionMoves | jira_versions.py:163-187 | When every earlier major's lineage sorts and is in order, and the lineage of the next major has an inverted pair, the pass repairs that lineage. It issues at least one move, and its moves and result are exactly `RepairLineage` of that lineage. |
| Reconcile.MovedRecordsBelong | jira_versions.py:159-187 | Both records of every move are records of the fetched list. Their stripped names are names of the list that the predicate assigns to one and the same major. |
| Reconcile.ResultCountsMoves | jira_versions.py:181-190 | A returned count is always the number of moves issued. |
| Reconcile.LaterMajorsIgnored | jira_versions.py:163-190 | The pass returns at the first major that needs moves or fails, and never examines the majors after it. After majors that are all in order, it is the pass over the rest. |
| Reconcile.MissingKeyOnlyUnstripped | jira_versions.py:159-183 | A `KeyError` names a name of the list that no record's stripped name equals, that is, a name with surrounding whitespace. |
| Reconcile.StrippedNamesNoMissingKey | jira_versions.py:159-183 | When no name carries surrounding whitespace, the pass raises no `KeyError`. |

## Left out

- REST and authentication (`get_auth`, `reset_auth`, `init_session`, jira_versions.py:17-43) are left out: they are network, password-prompt and global-session plumbing.
- `download_versions` (jira_versions.py:67-95) becomes the input `fetched`, and its retry loop and sleep are not modelled. `None`, the failed download, makes the pass raise `NoVersionList`.
- `move_version` (jira_versions.py:99-106) becomes an entry `Move(toMove, after)` appended to the move log. The HTTP request and its response are not modelled.
- The model does not simulate how the remote list changes after the moves. So it states nothing about repeated passes converging.
- JSON printing and saving (jira_versions.py:47-54, 109-114) and the URL builders (jira_versions.py:57-63) are output and configuration only, and are left out.
- The typo `WARNING` loop (jira_versions.py:156-158) and the `DEBUG` prints are diagnostic output only, and are left out.
- The self-test harness (jira_versions.py:254-275) appears only as the `Samples` lemmas. The top-level loop (jira_versions.py:278-285) is left out, because it calls nothing.
- Text.ParseInt: accepts only non-empty ASCII digit strings. Python's `int()` also accepts surrounding whitespace, a sign, underscores and non-ASCII digits, and `\d` matches non-ASCII digits. The model differs in two ways.
  - Where `int()` converts a dotted part (jira_versions.py:213, 221), the model rejects the name. A lineage of two or more names holding it fails to sort with `MalformedName`, and the pass stops with no moves. A one-name lineage sorts without a comparison and is scanned as usual. Python reads the part instead and goes on. For `"140.0.3 "` it then raises `KeyError` at jira_versions.py:178, or at jira_versions.py:183 after issuing moves, because the tables hold only stripped names. It sorts `"140.+1.0"` as `(140, 1, 0)` and may move it.
  - Where `\d` is searched (jira_versions.py:214, 224, 226), the model reads different tokens, without an error. A suffix `rc١` gives 9000 where Python gives 1. `release/١` gives the sentinel where Python gives major 1. `_١_` gives minor 0 where Python gives 1.
- Text.IsSpace: the characters `str.strip()` removes are listed explicitly from Python's `str.isspace()`. Unicode database updates are not tracked.
- Reconcile.CleanUpRelease: the `comparator` argument is fixed to `comparator_default`, the only comparator the source defines. The `key` argument is not modelled, because it only names the project to download and labels messages.
- Lineage.ProperOrder: when a lineage has a rejected name, the model reports the first one in list order. Timsort may meet a different rejected name first. Either way the error is `MalformedName`, and it comes from a name of the lineage.
- Tokens.ShouldPrevRoundTrip: covers dotted names whose last part is at least 1. For a last part of 0, `GetShouldPrev` still follows the source and hands -1 to the formatter (`Tokens.ShouldPrevOfDotted` states this), but no round trip is stated, because a formatter need not write negative numbers so that `version_tokens` reads them back.
- `get_shoud_prev` has no caller in the source, so `format_version` is a parameter. `FormatDotted` is one formatter that satisfies the round trip.
