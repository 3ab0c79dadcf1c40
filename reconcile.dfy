/** The reconciliation pass `clean_up_release` (jira_versions.py:154-190) with its lookup
    tables (jira_versions.py:117-138). The fetched version list is an input and every
    `move_version` call is an entry appended to a log. */
module Reconcile {
  import opened Wrappers
  import opened Text
  import opened Tokens
  import opened Ordering
  import opened Lineage

  /** A version record as the REST API returns it: the fields the engine reads. */
  datatype Version = Version(id: string, name: string, selfRef: string)

  /** One `move_version(to_move, prev)` call: `toMove` is to be placed right after `after`. */
  datatype Move = Move(toMove: Version, after: Version)

  /** What a pass leaves behind: the moves it issued, in order, and what it returned or
      raised. Moves issued before an exception stay issued. */
  datatype Outcome = Outcome(moves: seq<Move>, result: Result<nat, Error>)

  /** `[v['name'] for v in vs]`. */
  function Names(vs: seq<Version>): seq<string>
  {
    seq(|vs|, k requires 0 <= k < |vs| => vs[k].name)
  }

  // ------------------------------------------------------------ lookup tables

  /** The dict `order_of_jira_versions(vs)` builds: stripped name to list position, a later
      record overwriting an earlier one. */
  function IndexMap(vs: seq<Version>): map<string, nat>
  {
    if vs == [] then map[]
    else IndexMap(vs[..|vs| - 1])[Strip(vs[|vs| - 1].name) := |vs| - 1]
  }

  /** The dict `dict_versions(vs)` builds: stripped name to record, the last one winning. */
  function RecordMap(vs: seq<Version>): map<string, Version>
  {
    if vs == [] then map[]
    else RecordMap(vs[..|vs| - 1])[Strip(vs[|vs| - 1].name) := vs[|vs| - 1]]
  }

  /** The index table has one key per stripped name. */
  lemma {:induction false} IndexMapKeys(vs: seq<Version>)
    ensures IndexMap(vs).Keys == set k | 0 <= k < |vs| :: Strip(vs[k].name)
  {
    if vs != [] {
      var init := vs[..|vs| - 1];
      IndexMapKeys(init);
      var last := Strip(vs[|vs| - 1].name);
      var ks := set k | 0 <= k < |vs| :: Strip(vs[k].name);
      var ks' := set k | 0 <= k < |init| :: Strip(init[k].name);
      assert ks' + {last} <= ks by {
        forall x | x in ks' ensures x in ks {
          var k :| 0 <= k < |init| && Strip(init[k].name) == x;
          assert vs[k] == init[k];
        }
      }
      assert ks <= ks' + {last} by {
        forall x | x in ks ensures x in ks' + {last} {
          var k :| 0 <= k < |vs| && Strip(vs[k].name) == x;
          if k < |vs| - 1 {
            assert init[k] == vs[k];
          }
        }
      }
    }
  }

  /** A key of the index table maps to the last position whose stripped name it is. */
  lemma {:induction false} IndexMapLast(vs: seq<Version>, key: string)
    requires key in IndexMap(vs)
    ensures IndexMap(vs)[key] < |vs|
    ensures Strip(vs[IndexMap(vs)[key]].name) == key
    ensures forall j :: IndexMap(vs)[key] < j < |vs| ==> Strip(vs[j].name) != key
  {
    var init := vs[..|vs| - 1];
    if key != Strip(vs[|vs| - 1].name) {
      IndexMapLast(init, key);
      assert vs[IndexMap(vs)[key]] == init[IndexMap(init)[key]];
    }
  }

  /** The record table has the same keys as the index table, and maps each to the record
      at the position the index table gives. */
  lemma {:induction false} RecordMapSpec(vs: seq<Version>, key: string)
    ensures key in RecordMap(vs) <==> key in IndexMap(vs)
    ensures key in RecordMap(vs) ==> IndexMap(vs)[key] < |vs| && RecordMap(vs)[key] == vs[IndexMap(vs)[key]]
  {
    if vs != [] {
      var init := vs[..|vs| - 1];
      RecordMapSpec(init, key);
      if key != Strip(vs[|vs| - 1].name) && key in RecordMap(vs) {
        IndexMapLast(init, key);
        assert init[IndexMap(init)[key]] == vs[IndexMap(init)[key]];
      }
    }
  }

  /** `order_of_jira_versions(vs)`. */
  method OrderOfJiraVersions(vs: seq<Version>) returns (res: map<string, nat>)
    ensures res == IndexMap(vs)
  {
    res := map[];
    var i := 0;
    while i < |vs|
      invariant 0 <= i <= |vs|
      invariant res == IndexMap(vs[..i])
    {
      assert vs[..i + 1][..i] == vs[..i];
      res := res[Strip(vs[i].name) := i];
      i := i + 1;
    }
    assert vs[..|vs|] == vs;
  }

  /** `dict_versions(vs)`. */
  method DictVersions(vs: seq<Version>) returns (res: map<string, Version>)
    ensures res == RecordMap(vs)
  {
    res := map[];
    var i := 0;
    while i < |vs|
      invariant 0 <= i <= |vs|
      invariant res == RecordMap(vs[..i])
    {
      assert vs[..i + 1][..i] == vs[..i];
      res := res[Strip(vs[i].name) := vs[i]];
      i := i + 1;
    }
    assert vs[..|vs|] == vs;
  }

  /** `find_version(s, vs)`: the first record whose name is exactly `s`, or None. */
  method FindVersion(s: string, vs: seq<Version>) returns (r: Option<Version>)
    ensures r.None? <==> forall k :: 0 <= k < |vs| ==> vs[k].name != s
    ensures r.Some? ==> exists k :: 0 <= k < |vs| && vs[k] == r.value && r.value.name == s &&
                                   forall j :: 0 <= j < k ==> vs[j].name != s
  {
    var i := 0;
    while i < |vs|
      invariant 0 <= i <= |vs|
      invariant forall j :: 0 <= j < i ==> vs[j].name != s
    {
      if vs[i].name == s {
        return Some(vs[i]);
      }
      i := i + 1;
    }
    return None;
  }

  // ------------------------------------------------------------ one lineage

  /** Pair `i` of the desired order is at positions that are not inverted. */
  predicate PairInOrder(po: seq<string>, o: map<string, nat>, i: int)
    requires 0 <= i && i + 1 < |po|
  {
    po[i] in o && po[i + 1] in o && o[po[i]] <= o[po[i + 1]]
  }

  /** The `for (prev, curr)` scan from pair `k` on: the first inverted pair, None when
      there is none, or the KeyError of a name missing from `o`. */
  function FirstInversion(po: seq<string>, o: map<string, nat>, k: nat): (r: Result<Option<nat>, Error>)
    ensures r.Success? && r.value.Some? ==>
      var i := r.value.value;
      && k <= i && i + 1 < |po| && po[i] in o && po[i + 1] in o && o[po[i]] > o[po[i + 1]]
      && forall q :: k <= q < i ==> PairInOrder(po, o, q)
    ensures r == Success(None) ==> forall q :: k <= q && q + 1 < |po| ==> PairInOrder(po, o, q)
    ensures r.Failure? ==> r.error.MissingKey? && r.error.key in po && r.error.key !in o
    decreases |po| - k
  {
    if k + 1 >= |po| then Success(None)
    else if po[k] !in o then Failure(MissingKey(po[k]))
    else if po[k + 1] !in o then Failure(MissingKey(po[k + 1]))
    else if o[po[k]] > o[po[k + 1]] then Success(Some(k))
    else FirstInversion(po, o, k + 1)
  }

  /** The move for pair `i` of `po`: `m[c]` after `m[p]`, or None when a name is not in `m`. */
  function PairMove(po: seq<string>, m: map<string, Version>, i: int): Option<Move>
  {
    if 0 <= i && i + 1 < |po| && po[i] in m && po[i + 1] in m then Some(Move(m[po[i + 1]], m[po[i]])) else None
  }

  /** The inner `for (p, c)` loop from pair `k` on: one move of `m[c]` after `m[p]` per
      consecutive pair, stopping at the KeyError of the first pair with a name missing
      from `m`; the moves issued before it stay issued. */
  function MovesFrom(po: seq<string>, m: map<string, Version>, k: nat): (r: (seq<Move>, Option<Error>))
    ensures |r.0| <= if k + 1 < |po| then |po| - 1 - k else 0
    ensures r.1.None? ==> |r.0| == if k + 1 < |po| then |po| - 1 - k else 0
    ensures forall q :: 0 <= q < |r.0| ==> PairMove(po, m, k + q) == Some(r.0[q])
    ensures r.1.Some? ==> r.1.value.MissingKey? && r.1.value.key in po && r.1.value.key !in m
    ensures r.1.Some? ==> k + |r.0| + 1 < |po| && (po[k + |r.0|] !in m || po[k + |r.0| + 1] !in m)
    decreases |po| - k
  {
    if k + 1 >= |po| then ([], None)
    else if po[k + 1] !in m then ([], Some(MissingKey(po[k + 1])))
    else if po[k] !in m then ([], Some(MissingKey(po[k])))
    else
      var rest := MovesFrom(po, m, k + 1);
      var r := ([Move(m[po[k + 1]], m[po[k]])] + rest.0, rest.1);
      assert forall q :: 1 <= q < |r.0| ==> r.0[q] == rest.0[q - 1];
      r
  }

  /** The moves and result of a lineage found out of order: one move per consecutive pair,
      in order, and the move count; or the moves issued before the first pair with a name
      missing from `m`. */
  function RepairLineage(po: seq<string>, m: map<string, Version>): (r: Outcome)
    ensures |r.moves| < |po| || r.moves == []
    ensures forall q :: 0 <= q < |r.moves| ==> PairMove(po, m, q) == Some(r.moves[q])
    ensures r.result.Success? ==> r.result.value == |r.moves| && (|po| >= 1 ==> |r.moves| == |po| - 1)
    ensures r.result.Failure? ==> r.result.error.MissingKey? && r.result.error.key in po && r.result.error.key !in m
    ensures r.result.Failure? ==> |r.moves| + 1 < |po| && (po[|r.moves|] !in m || po[|r.moves| + 1] !in m)
  {
    var (mv, err) := MovesFrom(po, m, 0);
    if err.Some? then Outcome(mv, Failure(err.value)) else Outcome(mv, Success(|mv|))
  }

  // ------------------------------------------------------------ the pass

  /** The lineage of major `major`: the names the predicate selects, in desired order. */
  function LineageOrder(names: seq<string>, major: int, pred: (string, string) -> bool): Result<seq<string>, Error>
  {
    ProperOrder(Filter(names, IntToString(major), pred))
  }

  /** Each major's lineage in desired order, as a function of the major. */
  function Lineages(names: seq<string>, pred: (string, string) -> bool): int -> Result<seq<string>, Error>
  {
    major => LineageOrder(names, major, pred)
  }

  /** The `for major in major_versions` loop from major `i` on, `lineage(major)` giving
      the desired order of that major's lineage. */
  function ScanMajors(majors: seq<int>, lineage: int -> Result<seq<string>, Error>,
                      o: map<string, nat>, m: map<string, Version>, i: nat): Outcome
    decreases |majors| - i
  {
    if i >= |majors| then Outcome([], Success(0))
    else
      match lineage(majors[i])
      case Failure(e) => Outcome([], Failure(e))
      case Success(po) =>
        match FirstInversion(po, o, 0)
        case Failure(e) => Outcome([], Failure(e))
        case Success(None) => ScanMajors(majors, lineage, o, m, i + 1)
        case Success(Some(_)) => RepairLineage(po, m)
  }

  /** One reconciliation pass over the fetched list (None when the download failed). */
  function Reconcile(fetched: Option<seq<Version>>, majors: seq<int>, pred: (string, string) -> bool): Outcome
  {
    match fetched
    case None => Outcome([], Failure(NoVersionList))
    case Some(vs) => ScanMajors(majors, Lineages(Names(vs), pred), IndexMap(vs), RecordMap(vs), 0)
  }

  /** The `for (prev, curr)` loop of `clean_up_release`: looks up `o[prev]`, then
      `o[curr]`, and stops at the first pair whose positions are inverted. */
  method FindInversion(po: seq<string>, o: map<string, nat>) returns (r: Result<Option<nat>, Error>)
    ensures r == FirstInversion(po, o, 0)
  {
    var k := 0;
    while k + 1 < |po|
      invariant 0 <= k <= |po|
      invariant FirstInversion(po, o, 0) == FirstInversion(po, o, k)
    {
      var prev, curr := po[k], po[k + 1];
      if prev !in o {
        return Failure(MissingKey(prev));
      }
      if curr !in o {
        return Failure(MissingKey(curr));
      }
      if o[prev] > o[curr] {
        return Success(Some(k));
      }
      k := k + 1;
    }
    return Success(None);
  }

  lemma AppendAssoc<T>(a: seq<T>, b: seq<T>, c: seq<T>)
    ensures a + (b + c) == (a + b) + c
  {
  }

  /** One step of the inner loop: a pair whose names are both in `m` issues its move and
      the loop goes on with the next pair. */
  lemma MovesFromStep(po: seq<string>, m: map<string, Version>, j: nat)
    requires j + 1 < |po| && po[j] in m && po[j + 1] in m
    ensures MovesFrom(po, m, j).0 == [Move(m[po[j + 1]], m[po[j]])] + MovesFrom(po, m, j + 1).0
    ensures MovesFrom(po, m, j).1 == MovesFrom(po, m, j + 1).1
  {
  }

  /** The inner loop of `clean_up_release` over a lineage found out of order: moves
      `m[c]` right after `m[p]` for each consecutive pair and returns the move count. */
  method MoveLineage(po: seq<string>, m: map<string, Version>) returns (moves: seq<Move>, result: Result<nat, Error>)
    ensures Outcome(moves, result) == RepairLineage(po, m)
  {
    moves := [];
    var movedCounter := 0;
    var j := 0;
    while j + 1 < |po|
      invariant 0 <= j <= |po|
      invariant movedCounter == j == |moves|
      invariant MovesFrom(po, m, 0).0 == moves + MovesFrom(po, m, j).0
      invariant MovesFrom(po, m, 0).1 == MovesFrom(po, m, j).1
    {
      var p, c := po[j], po[j + 1];
      if c !in m {
        result := Failure(MissingKey(c));
        return;
      }
      if p !in m {
        result := Failure(MissingKey(p));
        return;
      }
      MovesFromStep(po, m, j);
      AppendAssoc(moves, [Move(m[c], m[p])], MovesFrom(po, m, j + 1).0);
      moves := moves + [Move(m[c], m[p])];
      movedCounter := movedCounter + 1;
      j := j + 1;
    }
    result := Success(movedCounter);
  }

  /** `clean_up_release(key, major_versions, predicate, comparator_default)`, with the
      download replaced by `fetched` and each `move_version` call appended to `moves`. */
  method CleanUpRelease(fetched: Option<seq<Version>>, majorVersions: seq<int>, pred: (string, string) -> bool)
    returns (moves: seq<Move>, result: Result<nat, Error>)
    ensures Outcome(moves, result) == Reconcile(fetched, majorVersions, pred)
  {
    moves := [];
    if fetched.None? {
      result := Failure(NoVersionList);
      return;
    }
    var vs := fetched.value;
    var m := DictVersions(vs);
    var o := OrderOfJiraVersions(vs);
    var names := Names(vs);
    ghost var lineage := Lineages(names, pred);
    ghost var pass := ScanMajors(majorVersions, lineage, o, m, 0);
    var i := 0;
    while i < |majorVersions|
      invariant 0 <= i <= |majorVersions|
      invariant moves == []
      invariant pass == ScanMajors(majorVersions, lineage, o, m, i)
    {
      var toSort := Filter(names, IntToString(majorVersions[i]), pred);
      var sorted := ProperOrder(toSort);
      if sorted.Failure? {
        result := Failure(sorted.error);
        return;
      }
      var po := sorted.value;
      assert lineage(majorVersions[i]) == sorted;
      var inversion := FindInversion(po, o);
      if inversion.Failure? {
        result := Failure(inversion.error);
        return;
      }
      if inversion.value.Some? {
        moves, result := MoveLineage(po, m);
        return;
      }
      i := i + 1;
    }
    result := Success(0);
  }

  // ------------------------------------------------------------ properties of the pass

  /** The lineage `lo` sorts without error and its names already sit in desired order in
      `o`: the pass goes on to the next major. */
  predicate InOrder(lo: Result<seq<string>, Error>, o: map<string, nat>)
  {
    lo.Success? && forall q :: 0 <= q && q + 1 < |lo.value| ==> PairInOrder(lo.value, o, q)
  }

  lemma {:induction false} FirstInversionNone(po: seq<string>, o: map<string, nat>, k: nat)
    ensures FirstInversion(po, o, k) == Success(None) <==>
      forall q :: k <= q && q + 1 < |po| ==> PairInOrder(po, o, q)
    decreases |po| - k
  {
    if k + 1 < |po| {
      FirstInversionNone(po, o, k + 1);
      assert PairInOrder(po, o, k) ==> FirstInversion(po, o, k) == FirstInversion(po, o, k + 1);
    }
  }

  /** A `KeyError` from the scan comes from the first pair with a name missing from `o`,
      every earlier pair being present and in order; `o[prev]` is looked up first. */
  lemma {:induction false} FirstInversionFailure(po: seq<string>, o: map<string, nat>, k: nat) returns (i: nat)
    requires FirstInversion(po, o, k).Failure?
    ensures k <= i && i + 1 < |po| && (po[i] !in o || po[i + 1] !in o)
    ensures forall q :: k <= q < i ==> PairInOrder(po, o, q)
    ensures FirstInversion(po, o, k).error == if po[i] !in o then MissingKey(po[i]) else MissingKey(po[i + 1])
    decreases |po| - k
  {
    if po[k] !in o || po[k + 1] !in o {
      i := k;
    } else {
      i := FirstInversionFailure(po, o, k + 1);
    }
  }

  lemma {:induction false} ScanMajorsClean(majors: seq<int>, lineage: int -> Result<seq<string>, Error>,
                                          o: map<string, nat>, m: map<string, Version>, i: nat)
    ensures ScanMajors(majors, lineage, o, m, i) == Outcome([], Success(0)) <==>
      forall l :: i <= l < |majors| ==> InOrder(lineage(majors[l]), o)
    decreases |majors| - i
  {
    if i < |majors| {
      ScanMajorsClean(majors, lineage, o, m, i + 1);
      var lo := lineage(majors[i]);
      if lo.Success? {
        FirstInversionNone(lo.value, o, 0);
      }
    }
  }

  /** The pass issues no move and returns 0 exactly when every listed major's lineage
      sorts and already sits in desired order. */
  lemma NoMoveIff(vs: seq<Version>, majors: seq<int>, pred: (string, string) -> bool)
    ensures Reconcile(Some(vs), majors, pred) == Outcome([], Success(0)) <==>
      forall l :: 0 <= l < |majors| ==> InOrder(LineageOrder(Names(vs), majors[l], pred), IndexMap(vs))
  {
    ScanMajorsClean(majors, Lineages(Names(vs), pred), IndexMap(vs), RecordMap(vs), 0);
  }

  lemma {:induction false} ScanMajorsMoves(majors: seq<int>, lineage: int -> Result<seq<string>, Error>,
                                          o: map<string, nat>, m: map<string, Version>, i: nat) returns (j: nat)
    requires ScanMajors(majors, lineage, o, m, i).moves != []
    ensures i <= j < |majors|
    ensures forall l :: i <= l < j ==> InOrder(lineage(majors[l]), o)
    ensures lineage(majors[j]).Success? && !InOrder(lineage(majors[j]), o)
    ensures FirstInversion(lineage(majors[j]).value, o, 0).Success? && FirstInversion(lineage(majors[j]).value, o, 0).value.Some?
    ensures ScanMajors(majors, lineage, o, m, i) == RepairLineage(lineage(majors[j]).value, m)
    decreases |majors| - i
  {
    var lo := lineage(majors[i]);
    FirstInversionNone(lo.value, o, 0);
    if FirstInversion(lo.value, o, 0) == Success(None) {
      j := ScanMajorsMoves(majors, lineage, o, m, i + 1);
    } else {
      j := i;
    }
  }

  /** When the pass moves anything, it stopped at the first major `j` whose lineage is
      out of order, every earlier major's lineage being in order, and that lineage has an
      inverted pair (the one `FirstInversion` reports); its moves are, in
      order, `m[c]` after `m[p]` for the consecutive pairs of that lineage's desired
      order, all |po| - 1 of them (the count returned) unless a lookup failed. */
  lemma MoveCase(vs: seq<Version>, majors: seq<int>, pred: (string, string) -> bool) returns (j: nat)
    requires Reconcile(Some(vs), majors, pred).moves != []
    ensures j < |majors|
    ensures forall l :: 0 <= l < j ==> InOrder(LineageOrder(Names(vs), majors[l], pred), IndexMap(vs))
    ensures LineageOrder(Names(vs), majors[j], pred).Success?
    ensures !InOrder(LineageOrder(Names(vs), majors[j], pred), IndexMap(vs))
    ensures var fi := FirstInversion(LineageOrder(Names(vs), majors[j], pred).value, IndexMap(vs), 0);
            fi.Success? && fi.value.Some?
    ensures var po := LineageOrder(Names(vs), majors[j], pred).value;
            var out := Reconcile(Some(vs), majors, pred);
            && |out.moves| < |po|
            && (forall q :: 0 <= q < |out.moves| ==> PairMove(po, RecordMap(vs), q) == Some(out.moves[q]))
            && (out.result.Success? ==> out.result == Success(|po| - 1) && |out.moves| == |po| - 1)
  {
    j := ScanMajorsMoves(majors, Lineages(Names(vs), pred), IndexMap(vs), RecordMap(vs), 0);
  }

  lemma {:induction false} ScanMajorsInversion(majors: seq<int>, lineage: int -> Result<seq<string>, Error>,
                                              o: map<string, nat>, m: map<string, Version>, i: nat, j: nat)
    requires i <= j < |majors|
    requires forall l :: i <= l < j ==> InOrder(lineage(majors[l]), o)
    requires lineage(majors[j]).Success?
    requires FirstInversion(lineage(majors[j]).value, o, 0).Success?
    requires FirstInversion(lineage(majors[j]).value, o, 0).value.Some?
    ensures ScanMajors(majors, lineage, o, m, i) == RepairLineage(lineage(majors[j]).value, m)
    decreases j - i
  {
    if i < j {
      FirstInversionNone(lineage(majors[i]).value, o, 0);
      ScanMajorsInversion(majors, lineage, o, m, i + 1, j);
    }
  }

  /** When every earlier major's lineage is in order and the lineage of major `j` has an
      inverted pair, the pass repairs that lineage: it issues that lineage's moves, at
      least the first of them, and returns what `RepairLineage` gives. */
  lemma InversionMoves(vs: seq<Version>, majors: seq<int>, pred: (string, string) -> bool, j: nat)
    requires j < |majors|
    requires forall l :: 0 <= l < j ==> InOrder(LineageOrder(Names(vs), majors[l], pred), IndexMap(vs))
    requires LineageOrder(Names(vs), majors[j], pred).Success?
    requires FirstInversion(LineageOrder(Names(vs), majors[j], pred).value, IndexMap(vs), 0).Success?
    requires FirstInversion(LineageOrder(Names(vs), majors[j], pred).value, IndexMap(vs), 0).value.Some?
    ensures Reconcile(Some(vs), majors, pred) == RepairLineage(LineageOrder(Names(vs), majors[j], pred).value, RecordMap(vs))
    ensures Reconcile(Some(vs), majors, pred).moves != []
  {
    var o, m := IndexMap(vs), RecordMap(vs);
    var po := LineageOrder(Names(vs), majors[j], pred).value;
    ScanMajorsInversion(majors, Lineages(Names(vs), pred), o, m, 0, j);
    assert po[0] in o && po[1] in o;
    RecordMapSpec(vs, po[0]);
    RecordMapSpec(vs, po[1]);
    assert MovesFrom(po, m, 0).0 != [];
  }

  /** The record kept under a key is a record of the list whose stripped name is the key. */
  lemma RecordedName(vs: seq<Version>, key: string)
    requires key in RecordMap(vs)
    ensures RecordMap(vs)[key] in vs && Strip(RecordMap(vs)[key].name) == key
  {
    RecordMapSpec(vs, key);
    IndexMapLast(vs, key);
  }

  /** Both records of every move are records of the fetched list, and their stripped names
      are names of the list that the predicate assigns to one and the same major. */
  lemma MovedRecordsBelong(vs: seq<Version>, majors: seq<int>, pred: (string, string) -> bool) returns (j: nat)
    requires Reconcile(Some(vs), majors, pred).moves != []
    ensures j < |majors|
    ensures forall mv :: mv in Reconcile(Some(vs), majors, pred).moves ==>
      && mv.toMove in vs && mv.after in vs
      && Strip(mv.toMove.name) in Names(vs) && Strip(mv.after.name) in Names(vs)
      && pred(IntToString(majors[j]), Strip(mv.toMove.name)) && pred(IntToString(majors[j]), Strip(mv.after.name))
  {
    j := MoveCase(vs, majors, pred);
    var names := Names(vs);
    var major := IntToString(majors[j]);
    var po := LineageOrder(names, majors[j], pred).value;
    var moves := Reconcile(Some(vs), majors, pred).moves;
    LineageMembers(names, major, pred);
    forall mv | mv in moves
      ensures mv.toMove in vs && mv.after in vs
      ensures Strip(mv.toMove.name) in names && Strip(mv.after.name) in names
      ensures pred(major, Strip(mv.toMove.name)) && pred(major, Strip(mv.after.name))
    {
      var q :| 0 <= q < |moves| && moves[q] == mv;
      assert PairMove(po, RecordMap(vs), q) == Some(mv);
      RecordedName(vs, po[q + 1]);
      RecordedName(vs, po[q]);
      assert multiset(po)[po[q]] > 0 && multiset(po)[po[q + 1]] > 0;
    }
  }

  lemma {:induction false} ScanMajorsCount(majors: seq<int>, lineage: int -> Result<seq<string>, Error>,
                                          o: map<string, nat>, m: map<string, Version>, i: nat)
    ensures var out := ScanMajors(majors, lineage, o, m, i);
            out.result.Success? ==> out.result.value == |out.moves|
    decreases |majors| - i
  {
    if i < |majors| {
      ScanMajorsCount(majors, lineage, o, m, i + 1);
    }
  }

  /** The returned count is the number of moves issued. */
  lemma ResultCountsMoves(fetched: Option<seq<Version>>, majors: seq<int>, pred: (string, string) -> bool)
    ensures var out := Reconcile(fetched, majors, pred);
            out.result.Success? ==> out.result.value == |out.moves|
  {
    if fetched.Some? {
      var vs := fetched.value;
      ScanMajorsCount(majors, Lineages(Names(vs), pred), IndexMap(vs), RecordMap(vs), 0);
    }
  }

  lemma {:induction false} ScanMajorsShift(a: seq<int>, b: seq<int>, lineage: int -> Result<seq<string>, Error>,
                                          o: map<string, nat>, m: map<string, Version>, t: nat)
    ensures ScanMajors(a + b, lineage, o, m, |a| + t) == ScanMajors(b, lineage, o, m, t)
    decreases |b| - t
  {
    if t < |b| {
      assert (a + b)[|a| + t] == b[t];
      ScanMajorsShift(a, b, lineage, o, m, t + 1);
    }
  }

  lemma {:induction false} ScanMajorsConcat(a: seq<int>, b: seq<int>, lineage: int -> Result<seq<string>, Error>,
                                           o: map<string, nat>, m: map<string, Version>, i: nat)
    requires i <= |a|
    ensures ScanMajors(a + b, lineage, o, m, i) ==
      if ScanMajors(a, lineage, o, m, i) == Outcome([], Success(0)) then ScanMajors(b, lineage, o, m, 0)
      else ScanMajors(a, lineage, o, m, i)
    decreases |a| - i
  {
    if i == |a| {
      ScanMajorsShift(a, b, lineage, o, m, 0);
    } else {
      assert (a + b)[i] == a[i];
      ScanMajorsConcat(a, b, lineage, o, m, i + 1);
    }
  }

  /** The pass returns at the first major that needs moves or fails, never examining the
      majors listed after it; after majors that are all in order it is the pass over the
      rest. */
  lemma LaterMajorsIgnored(vs: seq<Version>, a: seq<int>, b: seq<int>, pred: (string, string) -> bool)
    ensures Reconcile(Some(vs), a + b, pred) ==
      if Reconcile(Some(vs), a, pred) == Outcome([], Success(0)) then Reconcile(Some(vs), b, pred)
      else Reconcile(Some(vs), a, pred)
  {
    ScanMajorsConcat(a, b, Lineages(Names(vs), pred), IndexMap(vs), RecordMap(vs), 0);
  }

  lemma {:induction false} ScanMajorsMissingKey(majors: seq<int>, lineage: int -> Result<seq<string>, Error>,
                                               o: map<string, nat>, m: map<string, Version>, i: nat, names: seq<string>)
    requires forall l :: i <= l < |majors| ==>
      if lineage(majors[l]).Success? then forall x :: x in lineage(majors[l]).value ==> x in names
      else !lineage(majors[l]).error.MissingKey?
    ensures var out := ScanMajors(majors, lineage, o, m, i);
            out.result.Failure? && out.result.error.MissingKey? ==>
              out.result.error.key in names && (out.result.error.key !in o || out.result.error.key !in m)
    decreases |majors| - i
  {
    if i < |majors| {
      ScanMajorsMissingKey(majors, lineage, o, m, i + 1, names);
      var lo := lineage(majors[i]);
      if lo.Success? {
        assert forall x :: x in lo.value ==> x in names;
        var fi := FirstInversion(lo.value, o, 0);
        if fi.Success? && fi.value.Some? {
          assert ScanMajors(majors, lineage, o, m, i) == RepairLineage(lo.value, m);
        }
      }
    }
  }

  /** A KeyError names a name of the list that no record's stripped name equals, that is
      a name with surrounding whitespace: the tables are keyed by stripped names. */
  lemma MissingKeyOnlyUnstripped(vs: seq<Version>, majors: seq<int>, pred: (string, string) -> bool)
    ensures var out := Reconcile(Some(vs), majors, pred);
            out.result.Failure? && out.result.error.MissingKey? ==>
              && out.result.error.key in Names(vs)
              && forall k :: 0 <= k < |vs| ==> Strip(vs[k].name) != out.result.error.key
  {
    var names := Names(vs);
    var out := Reconcile(Some(vs), majors, pred);
    var lineage := Lineages(names, pred);
    forall l | 0 <= l < |majors|
      ensures if lineage(majors[l]).Success? then forall x :: x in lineage(majors[l]).value ==> x in names
              else !lineage(majors[l]).error.MissingKey?
    {
      LineageMembers(names, IntToString(majors[l]), pred);
      ProperOrderSpec(Filter(names, IntToString(majors[l]), pred));
      if lineage(majors[l]).Success? {
        forall x | x in lineage(majors[l]).value ensures x in names {
          assert multiset(lineage(majors[l]).value)[x] > 0;
        }
      }
    }
    ScanMajorsMissingKey(majors, lineage, IndexMap(vs), RecordMap(vs), 0, names);
    IndexMapKeys(vs);
    if out.result.Failure? && out.result.error.MissingKey? {
      var key := out.result.error.key;
      RecordMapSpec(vs, key);
      forall k | 0 <= k < |vs| ensures Strip(vs[k].name) != key {
        assert Strip(vs[k].name) in IndexMap(vs).Keys;
      }
    }
  }

  /** When no name carries surrounding whitespace, the pass raises no KeyError. */
  lemma StrippedNamesNoMissingKey(vs: seq<Version>, majors: seq<int>, pred: (string, string) -> bool)
    requires forall k :: 0 <= k < |vs| ==> Strip(vs[k].name) == vs[k].name
    ensures var out := Reconcile(Some(vs), majors, pred);
            out.result.Failure? ==> !out.result.error.MissingKey?
  {
    MissingKeyOnlyUnstripped(vs, majors, pred);
  }
}
