/** `comparator_default` (jira_versions.py:236-251): a three-way comparison of two names by
    their tokens that never answers 0. Equal-length token sequences compare by Python's
    tuple order; when one is a prefix of the other the longer one sorts first. */
module Ordering {
  import opened Wrappers
  import opened Text
  import opened Tokens

  /** Python's `<` on tuples of integers: lexicographic, a proper prefix is smaller. */
  predicate LexLess(a: seq<int>, b: seq<int>)
  {
    if a == [] then b != []
    else if b == [] then false
    else a[0] < b[0] || (a[0] == b[0] && LexLess(a[1..], b[1..]))
  }

  /** The comparison of two token sequences (the body of `comparator_default` once the
      tokens are known). */
  function CompareTokens(a: seq<int>, b: seq<int>): (r: int)
    ensures r == -1 || r == 1
    decreases if |a| > |b| then 1 else 0
  {
    if |a| > |b| then -CompareTokens(b, a)
    else if |b| > |a| then (if LexLess(a, b[..|a|]) then -1 else 1)
    else if LexLess(a, b) then -1 else 1
  }

  /** The order `sorted` sees through `cmp_to_key`: lexicographic order in which the end
      of a sequence ranks above every number, so a longer sequence precedes its prefixes. */
  predicate Precedes(a: seq<int>, b: seq<int>)
  {
    if b == [] then a != []
    else if a == [] then false
    else a[0] < b[0] || (a[0] == b[0] && Precedes(a[1..], b[1..]))
  }

  /** `comparator_default(a, b)`, raising whatever `version_tokens` raises for `a`, then
      for `b`. */
  function ComparatorDefault(a: string, b: string): Result<int, Error>
  {
    match VersionTokens(a)
    case Failure(e) => Failure(e)
    case Success(ta) =>
      match VersionTokens(b)
      case Failure(e) => Failure(e)
      case Success(tb) => Success(CompareTokens(ta, tb))
  }

  // ------------------------------------------------------------ the order behind the comparator

  lemma {:induction false} PrecedesIrreflexive(a: seq<int>)
    ensures !Precedes(a, a)
  {
    if a != [] { PrecedesIrreflexive(a[1..]); }
  }

  lemma {:induction false} PrecedesTransitive(a: seq<int>, b: seq<int>, c: seq<int>)
    requires Precedes(a, b) && Precedes(b, c)
    ensures Precedes(a, c)
  {
    if c != [] && a != [] && b != [] && a[0] == b[0] == c[0] {
      PrecedesTransitive(a[1..], b[1..], c[1..]);
    }
  }

  /** Any two distinct sequences are ordered one way. */
  lemma {:induction false} PrecedesConnected(a: seq<int>, b: seq<int>)
    requires a != b
    ensures Precedes(a, b) || Precedes(b, a)
  {
    if a != [] && b != [] && a[0] == b[0] {
      assert a == [a[0]] + a[1..] && b == [b[0]] + b[1..];
      PrecedesConnected(a[1..], b[1..]);
    }
  }

  lemma {:induction false} PrecedesAsymmetric(a: seq<int>, b: seq<int>)
    requires Precedes(a, b)
    ensures !Precedes(b, a)
  {
    if a != [] && b != [] && a[0] == b[0] {
      PrecedesAsymmetric(a[1..], b[1..]);
    }
  }

  /** On a shorter-or-equal left side, the order is Python's tuple `<` against the
      right side cut to the same length. */
  lemma {:induction false} PrecedesAsLexLess(a: seq<int>, b: seq<int>)
    requires |a| <= |b|
    ensures Precedes(a, b) <==> LexLess(a, b[..|a|])
  {
    if a != [] {
      assert b[..|a|][1..] == b[1..][..|a| - 1];
      PrecedesAsLexLess(a[1..], b[1..]);
    }
  }

  /** `comparator_default` answers -1 exactly when the first sequence precedes the second. */
  lemma CompareIsPrecedes(a: seq<int>, b: seq<int>)
    ensures CompareTokens(a, b) == -1 <==> Precedes(a, b)
  {
    if |a| <= |b| {
      PrecedesAsLexLess(a, b);
      assert b[..|b|] == b;
    } else {
      PrecedesAsLexLess(b, a);
      assert a != b;
      PrecedesConnected(a, b);
      if Precedes(a, b) { PrecedesAsymmetric(a, b); }
    }
  }

  /** Two equal sequences compare as 1, whichever is first (jira_versions.py:248-251). */
  lemma CompareSelf(a: seq<int>)
    ensures CompareTokens(a, a) == 1
  {
    CompareIsPrecedes(a, a);
    PrecedesIrreflexive(a);
  }

  /** For distinct sequences the comparator is antisymmetric. */
  lemma CompareAntisymmetric(a: seq<int>, b: seq<int>)
    requires a != b
    ensures CompareTokens(a, b) == -CompareTokens(b, a)
  {
    CompareIsPrecedes(a, b);
    CompareIsPrecedes(b, a);
    PrecedesConnected(a, b);
    if Precedes(a, b) { PrecedesAsymmetric(a, b); }
  }

  /** "Compares below zero" is transitive, so it is a strict total order on distinct
      sequences. */
  lemma CompareTransitive(a: seq<int>, b: seq<int>, c: seq<int>)
    requires CompareTokens(a, b) == -1 && CompareTokens(b, c) == -1
    ensures CompareTokens(a, c) == -1
  {
    CompareIsPrecedes(a, b);
    CompareIsPrecedes(b, c);
    CompareIsPrecedes(a, c);
    PrecedesTransitive(a, b, c);
  }

  /** A sequence that extends another sorts before it (jira_versions.py:239-247). */
  lemma {:induction false} PrefixSortsAfter(a: seq<int>, b: seq<int>)
    requires |a| < |b| && b[..|a|] == a
    ensures CompareTokens(b, a) == -1 && CompareTokens(a, b) == 1
  {
    PrecedesAsLexLess(a, b);
    LexLessIrreflexive(a);
  }

  lemma {:induction false} LexLessIrreflexive(a: seq<int>)
    ensures !LexLess(a, a)
  {
    if a != [] { LexLessIrreflexive(a[1..]); }
  }

  // ------------------------------------------------------------ on names

  /** `comparator_default` never answers 0, answers 1 for two names with equal tokens, is
      antisymmetric on names with distinct tokens, and fails exactly when a name does. */
  lemma ComparatorDefaultSpec(a: string, b: string)
    ensures ComparatorDefault(a, b).Success? <==> VersionTokens(a).Success? && VersionTokens(b).Success?
    ensures ComparatorDefault(a, b).Success? ==> ComparatorDefault(a, b).value in {-1, 1}
    ensures ComparatorDefault(a, b).Success? && VersionTokens(a) == VersionTokens(b) ==>
      ComparatorDefault(a, b) == Success(1) && ComparatorDefault(b, a) == Success(1)
    ensures ComparatorDefault(a, b).Success? && VersionTokens(a) != VersionTokens(b) ==>
      ComparatorDefault(b, a) == Success(-ComparatorDefault(a, b).value)
  {
    if VersionTokens(a).Success? && VersionTokens(b).Success? {
      var ta, tb := VersionTokens(a).value, VersionTokens(b).value;
      if ta == tb {
        CompareSelf(ta);
      } else {
        CompareAntisymmetric(ta, tb);
      }
    }
  }
}
