/**
 * The filter effect of the viewer: narrowing the loaded records by the four
 * selections, recomputing the available option lists, validating the
 * selections against them, ordering the trajectory groups by first
 * appearance and sorting the filtered records into the trajectory.
 */
module FilterEngine {
  import opened Wrappers
  import opened Collections
  import opened StableSort
  import opened JsText
  import opened Records
  import opened Ingestion

  // ---------------------------------------------------------------------
  // The filter chain
  // ---------------------------------------------------------------------

  /** `r => String(r[d]) === String(v)`. */
  function FieldIs(d: Dimension, v: string): Record -> bool
  {
    r => Field(r, d) == v
  }

  /** One link of the chain: selection "all" leaves the records as they are. */
  function Narrow(s: seq<Record>, sel: Selections, d: Dimension): seq<Record>
  {
    if sel.Get(d) == ALL then s else Filter(s, FieldIs(d, sel.Get(d)))
  }

  /** The records that survive the model, environment, level and run filters, applied in that order. */
  function Filtered(data: seq<Record>, sel: Selections): seq<Record>
  {
    Narrow(Narrow(Narrow(Narrow(data, sel, Model), sel, Env), sel, Level), sel, RunId)
  }

  /** Dimension `d` lets `r` through: it is unconstrained or `r` has the selected value. */
  predicate Admits(sel: Selections, d: Dimension, r: Record)
  {
    sel.Get(d) == ALL || Field(r, d) == sel.Get(d)
  }

  /** `r` passes all four filters. */
  predicate Matches(sel: Selections, r: Record)
  {
    Admits(sel, Model, r) && Admits(sel, Env, r) && Admits(sel, Level, r) && Admits(sel, RunId, r)
  }

  lemma NarrowIsFilter(s: seq<Record>, sel: Selections, d: Dimension)
    ensures Narrow(s, sel, d) == Filter(s, r => Admits(sel, d, r))
  {
    if sel.Get(d) == ALL {
      FilterKeepsAll(s, r => Admits(sel, d, r));
    } else {
      FilterSameTest(s, FieldIs(d, sel.Get(d)), r => Admits(sel, d, r));
    }
  }

  /**
   * The chain of four filters is one filter by the conjunction of the four
   * tests: a record survives exactly when it matches every selection, and
   * the survivors keep their order in the file.
   */
  lemma FilteredIsOneFilter(data: seq<Record>, sel: Selections)
    ensures Filtered(data, sel) == Filter(data, r => Matches(sel, r))
  {
    var a1 := r => Admits(sel, Model, r);
    var a2 := r => Admits(sel, Env, r);
    var a3 := r => Admits(sel, Level, r);
    var a4 := r => Admits(sel, RunId, r);
    var a12 := r => Admits(sel, Model, r) && Admits(sel, Env, r);
    var a123 := r => Admits(sel, Model, r) && Admits(sel, Env, r) && Admits(sel, Level, r);
    var s1 := Narrow(data, sel, Model);
    var s2 := Narrow(s1, sel, Env);
    var s3 := Narrow(s2, sel, Level);
    NarrowIsFilter(data, sel, Model);
    NarrowIsFilter(s1, sel, Env);
    NarrowIsFilter(s2, sel, Level);
    NarrowIsFilter(s3, sel, RunId);
    FilterTwice(data, a1, a2, a12);
    FilterTwice(data, a12, a3, a123);
    FilterTwice(data, a123, a4, r => Matches(sel, r));
  }

  /** Membership: a record is kept exactly when it is loaded and matches every selection. */
  lemma FilteredMembers(data: seq<Record>, sel: Selections)
    ensures forall r :: r in Filtered(data, sel) <==> r in data && Matches(sel, r)
  {
    FilteredIsOneFilter(data, sel);
    FilterMembers(data, r => Matches(sel, r));
  }

  /** Every matching record is kept as often as it occurs in the file; the others are dropped. */
  lemma FilteredCount(data: seq<Record>, sel: Selections, r: Record)
    ensures multiset(Filtered(data, sel))[r] == if Matches(sel, r) then multiset(data)[r] else 0
  {
    FilteredIsOneFilter(data, sel);
    FilterCount(data, r => Matches(sel, r), r);
  }

  /** Order: filtering a file in two parts gives the filtered parts one after the other. */
  lemma FilteredConcat(a: seq<Record>, b: seq<Record>, sel: Selections)
    ensures Filtered(a + b, sel) == Filtered(a, sel) + Filtered(b, sel)
  {
    FilteredIsOneFilter(a + b, sel);
    FilteredIsOneFilter(a, sel);
    FilteredIsOneFilter(b, sel);
    FilterConcat(a, b, r => Matches(sel, r));
  }

  // ---------------------------------------------------------------------
  // Available option lists and validation
  // ---------------------------------------------------------------------

  /**
   * The option lists recomputed from the filtered records: the distinct
   * values in first-seen order, run ids sorted. Unlike the upload lists,
   * empty values are kept.
   */
  function Available(f: seq<Record>): OptionLists
  {
    OptionLists(
      Distinct(Column(f, Model)),
      Distinct(Column(f, Env)),
      Distinct(Column(f, Level)),
      SortBy(Distinct(Column(f, RunId)), StringLe))
  }

  /** The available run ids: each run id of `f` exactly once, sorted. */
  lemma AvailableRunIds(f: seq<Record>)
    ensures NoDup(Available(f).runIds)
    ensures forall v :: v in Available(f).runIds <==> v in Column(f, RunId)
    ensures SortedBy(Available(f).runIds, StringLe)
  {
    var raw := Distinct(Column(f, RunId));
    var ids := Available(f).runIds;
    DistinctMembers(Column(f, RunId));
    SortByPermutes(raw, StringLe);
    NoDupPermutation(ids, raw);
    forall v
      ensures v in ids <==> v in raw
    {
      assert v in ids <==> v in multiset(ids);
      assert v in raw <==> v in multiset(raw);
    }
    StringLeIsTotalPreorder();
    SortBySorted(raw, StringLe);
  }

  /**
   * Each available list holds every value its field takes in `f` exactly
   * once; the model, environment and level lists in first-seen order.
   */
  lemma AvailableShape(f: seq<Record>)
    ensures forall d, v :: v in Available(f).Get(d) <==> v in Column(f, d)
    ensures forall d :: NoDup(Available(f).Get(d))
    ensures forall d :: d != RunId ==> InFirstSeenOrder(Available(f).Get(d), Column(f, d))
  {
    AvailableRunIds(f);
    DistinctMembers(Column(f, Model));
    DistinctMembers(Column(f, Env));
    DistinctMembers(Column(f, Level));
    DistinctInFirstSeenOrder(Column(f, Model));
    DistinctInFirstSeenOrder(Column(f, Env));
    DistinctInFirstSeenOrder(Column(f, Level));
  }

  /**
   * The validation step: the first dimension, in the order model,
   * environment, level, run, whose selection is constrained but absent from
   * its available list.
   */
  function FirstInvalid(sel: Selections, avail: OptionLists): (r: Option<Dimension>)
    ensures r.Some? ==> sel.Get(r.value) != ALL && sel.Get(r.value) !in avail.Get(r.value)
    ensures r.Some? ==> forall e: Dimension :: e.Index() < r.value.Index() ==> sel.Get(e) == ALL || sel.Get(e) in avail.Get(e)
    ensures r.None? ==> forall d :: sel.Get(d) == ALL || sel.Get(d) in avail.Get(d)
  {
    if sel.model != ALL && sel.model !in avail.models then Some(Model)
    else if sel.env != ALL && sel.env !in avail.envs then Some(Env)
    else if sel.level != ALL && sel.level !in avail.levels then Some(Level)
    else if sel.runId != ALL && sel.runId !in avail.runIds then Some(RunId)
    else None
  }

  /** The first constrained dimension, in the order model, environment, level, run. */
  function FirstNonAll(sel: Selections): (r: Option<Dimension>)
    ensures r.Some? ==> sel.Get(r.value) != ALL
    ensures r.Some? ==> forall e: Dimension :: e.Index() < r.value.Index() ==> sel.Get(e) == ALL
    ensures r.None? <==> sel == NO_FILTER
  {
    if sel.model != ALL then Some(Model)
    else if sel.env != ALL then Some(Env)
    else if sel.level != ALL then Some(Level)
    else if sel.runId != ALL then Some(RunId)
    else None
  }

  /**
   * Validation fails exactly when no record matches, and then it names the
   * first constrained dimension: while a record matches, every constrained
   * selection occurs in its own available list.
   */
  lemma ValidationFailsOnlyWhenEmpty(data: seq<Record>, sel: Selections)
    ensures FirstInvalid(sel, Available(Filtered(data, sel)))
         == if Filtered(data, sel) == [] then FirstNonAll(sel) else None
  {
    var f := Filtered(data, sel);
    if f != [] {
      FilteredMembers(data, sel);
      assert f[0] in f;
      FirstRecordAvailable(f, Model);
      FirstRecordAvailable(f, Env);
      FirstRecordAvailable(f, Level);
      FirstRecordAvailable(f, RunId);
    }
  }

  /** Each field value of the first filtered record is offered in its available list. */
  lemma FirstRecordAvailable(f: seq<Record>, d: Dimension)
    requires f != []
    ensures Field(f[0], d) in Available(f).Get(d)
  {
    assert Column(f, d)[0] == Field(f[0], d);
    if d == RunId {
      AvailableRunIds(f);
    } else {
      DistinctMembers(Column(f, d));
    }
  }

  /** Nothing is filtered out while every selection is "all". */
  lemma NoFilterKeepsAll(data: seq<Record>)
    ensures Filtered(data, NO_FILTER) == data
  {
    assert NO_FILTER.Get(Model) == ALL && NO_FILTER.Get(Env) == ALL;
    assert NO_FILTER.Get(Level) == ALL && NO_FILTER.Get(RunId) == ALL;
  }

  // ---------------------------------------------------------------------
  // Settling the selections
  // ---------------------------------------------------------------------

  /**
   * What one run of the filter effect does: nothing while no file is loaded,
   * a reset of one selection to "all" (after which the effect runs again),
   * or the commit of a new trajectory.
   */
  datatype PassOutcome = Skipped | Reset(dim: Dimension) | Committed

  function PassOutcomeOf(data: seq<Record>, sel: Selections): PassOutcome
  {
    if |data| == 0 then Skipped
    else
      match FirstInvalid(sel, Available(Filtered(data, sel)))
      case Some(d) => Reset(d)
      case None => Committed
  }

  /**
   * A pass over loaded records commits exactly when some record matches;
   * otherwise it resets the first constrained selection.
   */
  lemma PassOutcomeMeaning(data: seq<Record>, sel: Selections)
    requires |data| > 0
    ensures Filtered(data, sel) != [] ==> PassOutcomeOf(data, sel) == Committed
    ensures Filtered(data, sel) == [] ==>
      FirstNonAll(sel).Some? && PassOutcomeOf(data, sel) == Reset(FirstNonAll(sel).value)
  {
    ValidationFailsOnlyWhenEmpty(data, sel);
    if FirstNonAll(sel).None? {
      NoFilterKeepsAll(data);
    }
  }

  /** The selections in force once the effect has stopped resetting. */
  function SettleSelections(data: seq<Record>, sel: Selections): (r: Selections)
    ensures forall d :: r.Get(d) == sel.Get(d) || r.Get(d) == ALL
    decreases sel.NonAllCount()
  {
    match PassOutcomeOf(data, sel)
    case Reset(d) =>
      ClearLowersCount(sel, d);
      SettleSelections(data, sel.With(d, ALL))
    case _ => sel
  }

  /** Once settled, the selections match at least one loaded record and the next pass commits. */
  lemma {:induction false} SettleReachesMatch(data: seq<Record>, sel: Selections)
    requires |data| > 0
    ensures Filtered(data, SettleSelections(data, sel)) != []
    ensures PassOutcomeOf(data, SettleSelections(data, sel)) == Committed
    decreases sel.NonAllCount()
  {
    PassOutcomeMeaning(data, sel);
    match PassOutcomeOf(data, sel)
    case Reset(d) =>
      ClearLowersCount(sel, d);
      SettleReachesMatch(data, sel.With(d, ALL));
    case _ =>
  }

  /** Selections that match some record are left alone. */
  lemma SettleKeepsMatching(data: seq<Record>, sel: Selections)
    requires Filtered(data, sel) != []
    ensures SettleSelections(data, sel) == sel
  {
    if |data| > 0 {
      PassOutcomeMeaning(data, sel);
    }
  }

  /**
   * The resets clear the constrained selections front to back: when a
   * selection was cleared, every selection before it is "all" afterwards.
   */
  lemma {:induction false} SettleClearsInOrder(data: seq<Record>, sel: Selections)
    ensures var r := SettleSelections(data, sel);
      forall d: Dimension, e: Dimension :: e.Index() < d.Index() && r.Get(d) != sel.Get(d) ==> r.Get(e) == ALL
    decreases sel.NonAllCount()
  {
    var r := SettleSelections(data, sel);
    match PassOutcomeOf(data, sel)
    case Reset(d0) =>
      var next := sel.With(d0, ALL);
      ClearLowersCount(sel, d0);
      SettleClearsInOrder(data, next);
      assert r == SettleSelections(data, next);
      if |data| > 0 {
        PassOutcomeMeaning(data, sel);
      }
      forall d: Dimension, e: Dimension | e.Index() < d.Index() && r.Get(d) != sel.Get(d)
        ensures r.Get(e) == ALL
      {
        if d == d0 {
          assert e != d0;
          assert sel.Get(e) == ALL;
        } else {
          assert r.Get(d) != next.Get(d);
        }
      }
    case _ =>
  }

  /** After an upload the first pass commits: the initial run id, if any, occurs in the file. */
  lemma UploadCommits(data: seq<Record>)
    requires |data| > 0
    ensures Filtered(data, UploadSelections(data)) != []
    ensures PassOutcomeOf(data, UploadSelections(data)) == Committed
  {
    var sel := UploadSelections(data);
    FilteredMembers(data, sel);
    if sel.runId == ALL {
      assert Matches(sel, data[0]);
    } else {
      UploadRunIdsShape(data);
      var col := Column(data, RunId);
      assert sel.runId in col;
      var i :| 0 <= i < |data| && col[i] == sel.runId;
      assert Matches(sel, data[i]);
    }
    assert Filtered(data, sel) != [];
    PassOutcomeMeaning(data, sel);
  }

  /** With every selection "all" the filter effect makes no reset. */
  lemma NoFilterSettles(data: seq<Record>)
    ensures SettleSelections(data, NO_FILTER) == NO_FILTER
  {
    if |data| > 0 {
      NoFilterKeepsAll(data);
      SettleKeepsMatching(data, NO_FILTER);
    }
  }

  // ---------------------------------------------------------------------
  // Group order
  // ---------------------------------------------------------------------

  /** `data.map(groupKey)`. */
  function Keys(data: seq<Record>): (ks: seq<string>)
    ensures |ks| == |data|
  {
    seq(|data|, i requires 0 <= i < |data| => GroupKey(data[i]))
  }

  /** Maps each value of `d` to its position in `d`. */
  function RankMap(d: seq<string>): map<string, nat>
  {
    map k | k in d :: FirstIndex(d, k)
  }

  /** `orderMap`: each group key numbered by the order in which the keys first appear in the file. */
  function GroupOrder(data: seq<Record>): map<string, nat>
  {
    RankMap(Distinct(Keys(data)))
  }

  /**
   * `orderMap` is a bijection from the keys of the file onto
   * `0 .. (number of distinct keys) - 1` that numbers keys in the order of
   * their first appearance.
   */
  lemma GroupOrderShape(data: seq<Record>)
    ensures var order := GroupOrder(data);
      forall k :: k in order <==> k in Keys(data)
    ensures var order := GroupOrder(data); var ds := Distinct(Keys(data));
      forall k :: k in order ==> order[k] < |ds|
    ensures var order := GroupOrder(data); var ds := Distinct(Keys(data));
      forall n :: 0 <= n < |ds| ==> ds[n] in order && order[ds[n]] == n
    ensures var order := GroupOrder(data);
      forall a, b :: a in order && b in order && a != b ==> order[a] != order[b]
    ensures var order := GroupOrder(data);
      forall a, b :: a in order && b in order ==>
        (order[a] < order[b] <==> FirstIndex(Keys(data), a) < FirstIndex(Keys(data), b))
  {
    var order := GroupOrder(data);
    var ks := Keys(data);
    var ds := Distinct(ks);
    DistinctMembers(ks);
    forall n | 0 <= n < |ds|
      ensures order[ds[n]] == n
    {
      FirstIndexUnique(ds, ds[n], n);
    }
    forall a, b | a in order && b in order
      ensures order[a] < order[b] <==> FirstIndex(ks, a) < FirstIndex(ks, b)
    {
      DistinctFirstSeenOrder(ks, order[a], order[b]);
    }
  }

  lemma RankMapSnoc(d: seq<string>, x: string)
    requires x !in d
    ensures RankMap(d + [x]) == RankMap(d)[x := |d|]
  {
    var d' := d + [x];
    forall k | k in d
      ensures FirstIndex(d', k) == FirstIndex(d, k)
    {
      assert d'[..|d|] == d;
      FirstIndexPrefix(d', |d|, k);
    }
    assert d'[..|d|] == d;
    FirstIndexUnique(d', x, |d|);
  }

  /**
   * One iteration of the `orderMap` loop: a new key gets the next number and
   * raises the count of keys met so far; a known key keeps its own number.
   */
  lemma GroupOrderStep(data: seq<Record>, i: nat)
    requires i < |data|
    ensures var key := GroupKey(data[i]); var before := GroupOrder(data[..i]);
      var n := |Distinct(Keys(data[..i]))|;
      && GroupOrder(data[..i + 1]) == (if key in before then before else before[key := n])
      && |Distinct(Keys(data[..i + 1]))| == (if key in before then n else n + 1)
  {
    var key := GroupKey(data[i]);
    var ks := Keys(data[..i]);
    assert Keys(data[..i + 1]) == ks + [key];
    DistinctSnoc(ks, key);
    if key !in Distinct(ks) {
      RankMapSnoc(Distinct(ks), key);
    }
  }

  /** The `orderMap` loop: walks the file and numbers each key when it is first met. */
  method BuildGroupOrder(data: seq<Record>) returns (order: map<string, nat>)
    ensures order == GroupOrder(data)
  {
    order := map[];
    var idx := 0;
    for i := 0 to |data|
      invariant order == GroupOrder(data[..i])
      invariant idx == |Distinct(Keys(data[..i]))|
    {
      var key := GroupKey(data[i]);
      GroupOrderStep(data, i);
      if key !in order {
        order := order[key := idx];
        idx := idx + 1;
      }
    }
    assert data[..|data|] == data;
  }

  // ---------------------------------------------------------------------
  // The trajectory
  // ---------------------------------------------------------------------

  /** `orderMap[key] || 0`. */
  function Rank(order: map<string, nat>, r: Record): nat
  {
    if GroupKey(r) in order then order[GroupKey(r)] else 0
  }

  /** The comparator of the trajectory sort: group number first, then step. */
  function Compare(order: map<string, nat>, a: Record, b: Record): int
  {
    var g := Rank(order, a) - Rank(order, b);
    if g != 0 then g else a.step - b.step
  }

  function TrajectoryLe(order: map<string, nat>): (Record, Record) -> bool
  {
    (a, b) => Compare(order, a, b) <= 0
  }

  /** The comparator orders records by (group number, step), lexicographically. */
  lemma CompareMeaning(order: map<string, nat>, a: Record, b: Record)
    ensures TrajectoryLe(order)(a, b)
        <==> Rank(order, a) < Rank(order, b) || (Rank(order, a) == Rank(order, b) && a.step <= b.step)
  {
  }

  /** The trajectory comparator is consistent, so the stable sort is well defined. */
  lemma TrajectoryLeIsTotalPreorder(order: map<string, nat>)
    ensures IsTotalPreorder(TrajectoryLe(order))
  {
    forall a, b
      ensures TrajectoryLe(order)(a, b) || TrajectoryLe(order)(b, a)
    {
      CompareMeaning(order, a, b);
      CompareMeaning(order, b, a);
    }
    forall a, b, c | TrajectoryLe(order)(a, b) && TrajectoryLe(order)(b, c)
      ensures TrajectoryLe(order)(a, c)
    {
      CompareMeaning(order, a, b);
      CompareMeaning(order, b, c);
      CompareMeaning(order, a, c);
    }
  }

  /** The trajectory committed by the effect: the filtered records, stably sorted by (group, step). */
  function CommittedTrajectory(data: seq<Record>, sel: Selections): seq<Record>
  {
    SortBy(Filtered(data, sel), TrajectoryLe(GroupOrder(data)))
  }

  /**
   * The sort step of the effect: number the groups, copy the filtered
   * records into an array and sort it in place with the trajectory comparator.
   */
  method SortTrajectory(data: seq<Record>, sel: Selections) returns (t: seq<Record>)
    ensures t == CommittedTrajectory(data, sel)
  {
    var filtered := Filtered(data, sel);
    var order := BuildGroupOrder(data);
    var a := new Record[|filtered|](i requires 0 <= i < |filtered| => filtered[i]);
    assert a[..] == filtered;
    SortInPlace(a, TrajectoryLe(order));
    t := a[..];
  }

  /**
   * The state the filter effect leaves behind when it commits: some record
   * matches, the trajectory is the committed one and the available lists are
   * those of the matching records.
   */
  ghost predicate CommittedState(data: seq<Record>, sel: Selections, traj: seq<Record>, avail: OptionLists)
  {
    && Filtered(data, sel) != []
    && traj == CommittedTrajectory(data, sel)
    && avail == Available(Filtered(data, sel))
  }

  /** The trajectory holds exactly the matching records, each as often as in the file. */
  lemma TrajectoryPermutes(data: seq<Record>, sel: Selections)
    ensures multiset(CommittedTrajectory(data, sel)) == multiset(Filtered(data, sel))
    ensures forall r :: r in CommittedTrajectory(data, sel) <==> r in data && Matches(sel, r)
  {
    var t := CommittedTrajectory(data, sel);
    var f := Filtered(data, sel);
    SortByPermutes(f, TrajectoryLe(GroupOrder(data)));
    FilteredMembers(data, sel);
    forall r
      ensures r in t <==> r in f
    {
      assert r in t <==> r in multiset(t);
      assert r in f <==> r in multiset(f);
    }
  }

  /** The trajectory is ordered by group number, and by step within a group number. */
  lemma TrajectoryOrdered(data: seq<Record>, sel: Selections)
    ensures var t := CommittedTrajectory(data, sel); var order := GroupOrder(data);
      forall i, j :: 0 <= i < j < |t| ==>
        Rank(order, t[i]) < Rank(order, t[j]) || (Rank(order, t[i]) == Rank(order, t[j]) && t[i].step <= t[j].step)
  {
    var order := GroupOrder(data);
    var t := CommittedTrajectory(data, sel);
    TrajectoryLeIsTotalPreorder(order);
    SortBySorted(Filtered(data, sel), TrajectoryLe(order));
    forall i, j | 0 <= i < j < |t|
      ensures Rank(order, t[i]) < Rank(order, t[j]) || (Rank(order, t[i]) == Rank(order, t[j]) && t[i].step <= t[j].step)
    {
      CompareMeaning(order, t[i], t[j]);
    }
  }

  /**
   * Stability: records with the same group number and step as `y` appear in
   * the trajectory in the order they have in the file.
   */
  lemma TrajectoryStable(data: seq<Record>, sel: Selections, y: Record)
    ensures var le := TrajectoryLe(GroupOrder(data));
      TiesWith(CommittedTrajectory(data, sel), le, y) == TiesWith(Filtered(data, sel), le, y)
  {
    var le := TrajectoryLe(GroupOrder(data));
    TrajectoryLeIsTotalPreorder(GroupOrder(data));
    SortByStable(Filtered(data, sel), le, y);
  }

  /** Records of the trajectory with the same group number share their group key. */
  lemma SameRankSameKey(data: seq<Record>, sel: Selections, a: Record, b: Record)
    requires a in CommittedTrajectory(data, sel) && b in CommittedTrajectory(data, sel)
    ensures GroupKey(a) in GroupOrder(data) && GroupKey(b) in GroupOrder(data)
    ensures Rank(GroupOrder(data), a) == Rank(GroupOrder(data), b) <==> GroupKey(a) == GroupKey(b)
  {
    TrajectoryPermutes(data, sel);
    GroupOrderShape(data);
    var ia :| 0 <= ia < |data| && data[ia] == a;
    var ib :| 0 <= ib < |data| && data[ib] == b;
    assert Keys(data)[ia] == GroupKey(a) && Keys(data)[ib] == GroupKey(b);
  }

  /** Each group is one contiguous run of the trajectory. */
  lemma TrajectoryGroupsContiguous(data: seq<Record>, sel: Selections)
    ensures var t := CommittedTrajectory(data, sel);
      forall i, j, k :: 0 <= i < j < k < |t| && GroupKey(t[i]) == GroupKey(t[k]) ==> GroupKey(t[j]) == GroupKey(t[i])
  {
    var t := CommittedTrajectory(data, sel);
    TrajectoryOrdered(data, sel);
    forall i, j, k | 0 <= i < j < k < |t| && GroupKey(t[i]) == GroupKey(t[k])
      ensures GroupKey(t[j]) == GroupKey(t[i])
    {
      SameRankSameKey(data, sel, t[i], t[k]);
      SameRankSameKey(data, sel, t[i], t[j]);
    }
  }

  /** Within a group the steps ascend. */
  lemma TrajectoryStepsAscend(data: seq<Record>, sel: Selections)
    ensures var t := CommittedTrajectory(data, sel);
      forall i, j :: 0 <= i < j < |t| && GroupKey(t[i]) == GroupKey(t[j]) ==> t[i].step <= t[j].step
  {
    var t := CommittedTrajectory(data, sel);
    TrajectoryOrdered(data, sel);
    forall i, j | 0 <= i < j < |t| && GroupKey(t[i]) == GroupKey(t[j])
      ensures t[i].step <= t[j].step
    {
      SameRankSameKey(data, sel, t[i], t[j]);
    }
  }

  /** The groups follow each other in the order their keys first appear in the file. */
  lemma TrajectoryGroupsFirstSeen(data: seq<Record>, sel: Selections)
    ensures var t := CommittedTrajectory(data, sel);
      forall i, j :: 0 <= i < j < |t| && GroupKey(t[i]) != GroupKey(t[j]) ==>
        GroupKey(t[i]) in Keys(data) && GroupKey(t[j]) in Keys(data)
        && FirstIndex(Keys(data), GroupKey(t[i])) < FirstIndex(Keys(data), GroupKey(t[j]))
  {
    var t := CommittedTrajectory(data, sel);
    TrajectoryOrdered(data, sel);
    GroupOrderShape(data);
    forall i, j | 0 <= i < j < |t| && GroupKey(t[i]) != GroupKey(t[j])
      ensures GroupKey(t[i]) in Keys(data) && GroupKey(t[j]) in Keys(data)
      ensures FirstIndex(Keys(data), GroupKey(t[i])) < FirstIndex(Keys(data), GroupKey(t[j]))
    {
      SameRankSameKey(data, sel, t[i], t[j]);
    }
  }
}
