/** Lineages: the names of one major version, chosen by a predicate
    (jira_versions.py:193-202), and their desired order, `sorted` with
    `cmp_to_key(comparator_default)` (jira_versions.py:166-170). */
module Lineage {
  import opened Wrappers
  import opened Text
  import opened Tokens
  import opened Ordering

  // ------------------------------------------------------------ predicates

  /** `predicate_starts_with`. */
  predicate PredicateStartsWith(major: string, name: string) {
    StartsWith(name, major + ".")
  }

  /** `predicate_release_branch`. */
  predicate PredicateReleaseBranch(major: string, name: string) {
    Contains(name, RELEASE_PREFIX + major + "_")
  }

  /** `predicate_default`. */
  predicate PredicateDefault(major: string, name: string) {
    PredicateStartsWith(major, name) || PredicateReleaseBranch(major, name)
  }

  /** A name is in a major's default lineage iff it begins with the major and a dot, or
      has `release/<major>_` somewhere in it. */
  lemma PredicateDefaultIff(major: string, name: string)
    ensures PredicateDefault(major, name) <==>
      || (|major| < |name| && name[..|major|] == major && name[|major|] == '.')
      || exists i :: OccursAt(name, RELEASE_PREFIX + major + "_", i)
  {
    ContainsIff(name, RELEASE_PREFIX + major + "_");
    if |major| < |name| {
      assert name[..|major| + 1] == name[..|major|] + [name[|major|]];
      assert (major + ".")[..|major|] == major;
    }
  }

  // ------------------------------------------------------------ filtering

  /** `list(filter(lambda v: predicate(major, v), names))`. */
  function Filter(names: seq<string>, major: string, pred: (string, string) -> bool): (r: seq<string>)
    ensures forall k :: 0 <= k < |r| ==> pred(major, r[k])
  {
    if names == [] then []
    else (if pred(major, names[0]) then [names[0]] else []) + Filter(names[1..], major, pred)
  }

  /** The filtered list holds each name that satisfies the predicate as many times as the
      list does, and no other name. */
  lemma {:induction false} FilterMultiset(names: seq<string>, major: string, pred: (string, string) -> bool)
    ensures forall x :: multiset(Filter(names, major, pred))[x] == if pred(major, x) then multiset(names)[x] else 0
  {
    if names != [] {
      FilterMultiset(names[1..], major, pred);
      assert names == [names[0]] + names[1..];
      assert multiset(names) == multiset{names[0]} + multiset(names[1..]);
    }
  }

  /** Filtering keeps list order: it distributes over concatenation. */
  lemma {:induction false} FilterConcat(a: seq<string>, b: seq<string>, major: string, pred: (string, string) -> bool)
    ensures Filter(a + b, major, pred) == Filter(a, major, pred) + Filter(b, major, pred)
  {
    if a == [] {
      assert a + b == b;
    } else {
      assert (a + b)[0] == a[0];
      assert (a + b)[1..] == a[1..] + b;
      FilterConcat(a[1..], b, major, pred);
      var h := if pred(major, a[0]) then [a[0]] else [];
      assert Filter(a + b, major, pred) == h + Filter(a[1..] + b, major, pred);
      assert h + (Filter(a[1..], major, pred) + Filter(b, major, pred)) ==
             (h + Filter(a[1..], major, pred)) + Filter(b, major, pred);
    }
  }

  // ------------------------------------------------------------ sorting

  /** The tokens a name sorts by; only consulted once every name is known to parse. */
  function SortKey(name: string): seq<int>
  {
    match VersionTokens(name)
    case Success(t) => t
    case Failure(_) => FAKE_VERSION
  }

  /** `comparator_default(a, b) < 0`, the only question `sorted` asks, for names whose
      tokens are given by `key`. */
  predicate Before(key: string -> seq<int>, a: string, b: string) {
    Precedes(key(a), key(b))
  }

  /** No later name sorts before an earlier one. */
  predicate Sorted(key: string -> seq<int>, s: seq<string>) {
    forall i, j :: 0 <= i < j < |s| ==> !Before(key, s[j], s[i])
  }

  /** The names whose tokens are `t`, in their order in `s`. */
  function WithKey(key: string -> seq<int>, s: seq<string>, t: seq<int>): seq<string>
  {
    if s == [] then [] else (if key(s[0]) == t then [s[0]] else []) + WithKey(key, s[1..], t)
  }

  lemma NotBeforeTransitive(key: string -> seq<int>, a: string, b: string, c: string)
    requires !Before(key, b, a) && !Before(key, c, b)
    ensures !Before(key, c, a)
  {
    if Before(key, c, a) {
      if key(a) != key(b) {
        PrecedesConnected(key(a), key(b));
        PrecedesTransitive(key(c), key(a), key(b));
      }
    }
  }

  /** Inserts `x` in front of the first name that does not sort before it. */
  function Insert(key: string -> seq<int>, x: string, s: seq<string>): (r: seq<string>)
    ensures multiset(r) == multiset(s) + multiset{x}
  {
    if s == [] then [x]
    else if Before(key, s[0], x) then
      assert s == [s[0]] + s[1..];
      [s[0]] + Insert(key, x, s[1..])
    else [x] + s
  }

  /** A name that no later one sorts before can go in front of a sorted list. */
  lemma ConsSorted(key: string -> seq<int>, y: string, rest: seq<string>)
    requires Sorted(key, rest) && forall k :: 0 <= k < |rest| ==> !Before(key, rest[k], y)
    ensures Sorted(key, [y] + rest)
  {
    var r := [y] + rest;
    forall i, j | 0 <= i < j < |r| ensures !Before(key, r[j], r[i]) {
      assert r[j] == rest[j - 1];
      if i > 0 {
        assert r[i] == rest[i - 1];
      }
    }
  }

  /** Nothing that inserting into the tail of a sorted list produces sorts before its head,
      when the inserted name does not either. */
  lemma InsertAfterHead(key: string -> seq<int>, x: string, s: seq<string>)
    requires s != [] && Sorted(key, s) && Before(key, s[0], x)
    ensures forall k :: 0 <= k < |Insert(key, x, s[1..])| ==> !Before(key, Insert(key, x, s[1..])[k], s[0])
  {
    var rest := Insert(key, x, s[1..]);
    forall k | 0 <= k < |rest| ensures !Before(key, rest[k], s[0]) {
      assert rest[k] in multiset(rest);
      if rest[k] == x {
        PrecedesAsymmetric(key(s[0]), key(x));
      } else {
        assert rest[k] in multiset(s[1..]);
        var m :| 0 <= m < |s[1..]| && s[1..][m] == rest[k];
        assert s[m + 1] == rest[k];
      }
    }
  }

  lemma {:induction false} InsertSorted(key: string -> seq<int>, x: string, s: seq<string>)
    requires Sorted(key, s)
    ensures Sorted(key, Insert(key, x, s))
  {
    if s == [] {
    } else if Before(key, s[0], x) {
      assert Sorted(key, s[1..]) by {
        forall i, j | 0 <= i < j < |s[1..]| ensures !Before(key, s[1..][j], s[1..][i]) {
          assert s[1..][j] == s[j + 1] && s[1..][i] == s[i + 1];
        }
      }
      InsertSorted(key, x, s[1..]);
      InsertAfterHead(key, x, s);
      ConsSorted(key, s[0], Insert(key, x, s[1..]));
    } else {
      forall k | 0 <= k < |s| ensures !Before(key, s[k], x) {
        if k > 0 {
          NotBeforeTransitive(key, x, s[0], s[k]);
        }
      }
      ConsSorted(key, x, s);
    }
  }

  /** `WithKey` of a list with a name in front. */
  lemma WithKeyCons(key: string -> seq<int>, y: string, s: seq<string>, t: seq<int>)
    ensures WithKey(key, [y] + s, t) == (if key(y) == t then [y] else []) + WithKey(key, s, t)
  {
    assert ([y] + s)[1..] == s;
  }

  /** Two pieces of which one is empty can be swapped in front of a third. */
  lemma SwapEmpty(a: seq<string>, b: seq<string>, w: seq<string>)
    requires a == [] || b == []
    ensures a + (b + w) == b + (a + w)
  {
    if a == [] {
      assert a + (b + w) == b + w && a + w == w;
    } else {
      assert b + w == w && b + (a + w) == a + w;
    }
  }

  /** The step of `InsertWithKey` when `x` goes past the head of `s`. */
  lemma InsertWithKeyStep(key: string -> seq<int>, x: string, s: seq<string>, t: seq<int>)
    requires s != [] && Before(key, s[0], x)
    requires WithKey(key, Insert(key, x, s[1..]), t) ==
      (if key(x) == t then [x] else []) + WithKey(key, s[1..], t)
    ensures WithKey(key, Insert(key, x, s), t) == (if key(x) == t then [x] else []) + WithKey(key, s, t)
  {
    var ins := Insert(key, x, s[1..]);
    var head := if key(s[0]) == t then [s[0]] else [];
    var mine := if key(x) == t then [x] else [];
    assert Insert(key, x, s) == [s[0]] + ins;
    assert WithKey(key, [s[0]] + ins, t) == head + WithKey(key, ins, t) by {
      WithKeyCons(key, s[0], ins, t);
    }
    assert WithKey(key, s, t) == head + WithKey(key, s[1..], t);
    assert head == [] || mine == [] by {
      if key(x) == t && key(s[0]) == t {
        PrecedesIrreflexive(key(x));
      }
    }
    SwapEmpty(head, mine, WithKey(key, s[1..], t));
  }

  /** Inserting `x` puts it in front of the names with its own tokens. */
  lemma {:induction false} InsertWithKey(key: string -> seq<int>, x: string, s: seq<string>, t: seq<int>)
    ensures WithKey(key, Insert(key, x, s), t) == (if key(x) == t then [x] else []) + WithKey(key, s, t)
  {
    if s != [] && Before(key, s[0], x) {
      InsertWithKey(key, x, s[1..], t);
      InsertWithKeyStep(key, x, s, t);
    } else {
      WithKeyCons(key, x, s, t);
    }
  }

  /** A stable insertion sort: the same result as Python's `sorted`, which only asks
      `comparator_default(a, b) < 0` and keeps names with equal tokens in list order. */
  function InsertionSort(key: string -> seq<int>, s: seq<string>): (r: seq<string>)
    ensures multiset(r) == multiset(s)
  {
    if s == [] then []
    else
      assert s == [s[0]] + s[1..];
      Insert(key, s[0], InsertionSort(key, s[1..]))
  }

  /** The sort leaves no name before one that sorts ahead of it, and keeps names with
      equal tokens in their list order. */
  lemma {:induction false} InsertionSortSpec(key: string -> seq<int>, s: seq<string>)
    ensures Sorted(key, InsertionSort(key, s))
    ensures forall t :: WithKey(key, InsertionSort(key, s), t) == WithKey(key, s, t)
  {
    if s != [] {
      InsertionSortSpec(key, s[1..]);
      InsertSorted(key, s[0], InsertionSort(key, s[1..]));
      forall t ensures WithKey(key, InsertionSort(key, s), t) == WithKey(key, s, t) {
        InsertWithKey(key, s[0], InsertionSort(key, s[1..]), t);
      }
    }
  }

  // ------------------------------------------------------------ the desired order

  /** The first name of `names` that `version_tokens` rejects. */
  function FirstMalformed(names: seq<string>): (r: Option<string>)
    ensures r.None? <==> forall k :: 0 <= k < |names| ==> VersionTokens(names[k]).Success?
    ensures r.Some? ==> r.value in names && VersionTokens(r.value).Failure?
  {
    if names == [] then None
    else if VersionTokens(names[0]).Failure? then Some(names[0])
    else
      var r := FirstMalformed(names[1..]);
      assert forall k :: 1 <= k < |names| ==> names[k] == names[1..][k - 1];
      r
  }

  /** `sorted(to_sort, key=cmp_to_key(comparator_default))`: with fewer than two names no
      comparison is made; otherwise every name is parsed and a rejected one raises. */
  function ProperOrder(toSort: seq<string>): Result<seq<string>, Error>
  {
    if |toSort| < 2 then Success(toSort)
    else
      match FirstMalformed(toSort)
      case Some(n) => Failure(MalformedName(n))
      case None => Success(InsertionSort(SortKey, toSort))
  }

  /** The desired order is a permutation of the lineage, never has a later name that
      `comparator_default` puts before an earlier one, and keeps names with equal tokens in
      list order; it fails only when two or more names are present and one is rejected. */
  lemma ProperOrderSpec(toSort: seq<string>)
    ensures ProperOrder(toSort).Success? <==>
      |toSort| < 2 || forall k :: 0 <= k < |toSort| ==> VersionTokens(toSort[k]).Success?
    ensures ProperOrder(toSort).Failure? ==>
      exists n :: n in toSort && VersionTokens(n).Failure? && ProperOrder(toSort).error == MalformedName(n)
    ensures ProperOrder(toSort).Success? ==> multiset(ProperOrder(toSort).value) == multiset(toSort)
    ensures ProperOrder(toSort).Success? ==>
      var po := ProperOrder(toSort).value;
      forall i, j :: 0 <= i < j < |po| ==> ComparatorDefault(po[j], po[i]) == Success(1)
    ensures ProperOrder(toSort).Success? ==>
      forall t :: WithKey(SortKey, ProperOrder(toSort).value, t) == WithKey(SortKey, toSort, t)
  {
    if |toSort| >= 2 && FirstMalformed(toSort).None? {
      var po := InsertionSort(SortKey, toSort);
      InsertionSortSpec(SortKey, toSort);
      forall i, j | 0 <= i < j < |po| ensures ComparatorDefault(po[j], po[i]) == Success(1) {
        assert po[i] in multiset(toSort) && po[j] in multiset(toSort);
        var a :| 0 <= a < |toSort| && toSort[a] == po[i];
        var b :| 0 <= b < |toSort| && toSort[b] == po[j];
        CompareIsPrecedes(SortKey(po[j]), SortKey(po[i]));
      }
    }
  }

  /** The desired order of a lineage holds each name that satisfies the predicate as many
      times as the list does, and no other name. */
  lemma LineageMembers(names: seq<string>, major: string, pred: (string, string) -> bool)
    ensures var po := ProperOrder(Filter(names, major, pred));
      po.Success? ==> forall x :: multiset(po.value)[x] == if pred(major, x) then multiset(names)[x] else 0
  {
    ProperOrderSpec(Filter(names, major, pred));
    FilterMultiset(names, major, pred);
  }
}
