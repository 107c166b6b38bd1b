/**
 The achievement ladder (internal/achievements/main.go): three fixed threshold
 tables, a metric over the daily repetition counts for each, and the level-up
 notifications emitted after a repetition.
 */
module Achievements {
  import opened DailyStats

  /** The closed set of achievements, in the order `achievements` lists them. */
  datatype Achievement = TotalRepetitions | ActiveDays | SingleDayRepetitions

  /** The levels stored on the user under `achievements`. */
  datatype StoredLevels = StoredLevels(totalRepetitions: int, activeDays: int, singleDayRepetitions: int)

  /** The part of a user the ladder reads. */
  datatype User = User(dailyRepetitions: DayCounts, achievements: StoredLevels)

  datatype AchievementUpdate = AchievementUpdate(id: string, level: int)

  const AllAchievements: seq<Achievement> := [TotalRepetitions, ActiveDays, SingleDayRepetitions]

  const TotalRepetitionsRequirements: seq<int> :=
    [10, 25, 50, 100, 250, 500, 750, 1000, 1500, 2000, 3000, 4000, 5000, 6000, 7000, 8000, 9000, 10000]
  const ActiveDaysRequirements: seq<int> :=
    [3, 7, 14, 30, 50, 100, 150, 200, 300, 365, 500, 730, 1000]
  const SingleDayRepetitionsRequirements: seq<int> :=
    [2, 5, 10, 20, 30, 50, 75, 100, 125, 150, 175, 200]

  predicate Ascending(requirements: seq<int>) {
    forall i, j :: 0 <= i < j < |requirements| ==> requirements[i] < requirements[j]
  }

  // ---------------------------------------------------------------------------
  // Metrics over the daily counts

  /** Some day of a non-empty map; which one is left unspecified, like Go's map
      iteration order. */
  ghost function PickDay(counts: DayCounts): (day: string)
    requires |counts| > 0
    ensures day in counts
  {
    assert |counts.Keys| > 0;
    var day :| day in counts.Keys;
    day
  }

  lemma CardRemove(counts: DayCounts, day: string)
    requires day in counts
    ensures |counts - {day}| == |counts| - 1
  {
    assert (counts - {day}).Keys == counts.Keys - {day};
  }

  /** Sum of all daily counts (`getValue` of TotalRepetitions), taking the days
      out in an unspecified order; `TotalWithout` shows the order is irrelevant. */
  ghost function Total(counts: DayCounts): (total: int)
    ensures (forall d :: d in counts ==> 0 <= counts[d]) ==> 0 <= total
    decreases |counts|
  {
    if |counts| == 0 then 0
    else
      var day := PickDay(counts);
      CardRemove(counts, day);
      counts[day] + Total(counts - {day})
  }

  /** The sum does not depend on which day is taken out first, so it does not
      depend on Go's map iteration order. */
  lemma {:induction false} TotalWithout(counts: DayCounts, day: string)
    requires day in counts
    ensures Total(counts) == counts[day] + Total(counts - {day})
    decreases |counts|
  {
    CardRemove(counts, day);
    var first := PickDay(counts);
    if first != day {
      CardRemove(counts, first);
      TotalWithout(counts - {first}, day);
      TotalWithout(counts - {day}, first);
      assert counts - {first} - {day} == counts - {day} - {first};
    }
  }

  /** Number of days with a count (`getValue` of ActiveDays, `len` of the map). */
  function ActiveDayCount(counts: DayCounts): nat {
    |counts|
  }

  /** Largest daily count, 0 for no days or only non-positive counts
      (`getValue` of SingleDayRepetitions, which starts from 0). */
  ghost function SingleDayMax(counts: DayCounts): (r: int)
    ensures 0 <= r
    ensures forall d :: d in counts ==> counts[d] <= r
    ensures r == 0 || exists d :: d in counts && counts[d] == r
    decreases |counts|
  {
    if |counts| == 0 then 0
    else
      var day := PickDay(counts);
      CardRemove(counts, day);
      var rest := SingleDayMax(counts - {day});
      assert forall d :: d in counts && d != day ==> d in counts - {day} && (counts - {day})[d] == counts[d];
      if counts[day] > rest then counts[day] else rest
  }

  /** The metric an achievement is measured by. */
  ghost function Value(a: Achievement, counts: DayCounts): int {
    match a
    case TotalRepetitions => Total(counts)
    case ActiveDays => ActiveDayCount(counts)
    case SingleDayRepetitions => SingleDayMax(counts)
  }

  // ---------------------------------------------------------------------------
  // Go's loops over the map, in whatever order the runtime chooses

  /** `order` lists every key of `counts` exactly once. */
  ghost predicate IsIterationOrder(counts: DayCounts, order: seq<string>) {
    && (forall i, j :: 0 <= i < j < |order| ==> order[i] != order[j])
    && (forall d :: d in counts <==> d in order)
  }

  /** Adding a new day adds its count to the total. */
  lemma TotalAdd(counts: DayCounts, day: string, count: int)
    requires day !in counts
    ensures Total(counts[day := count]) == Total(counts) + count
  {
    var after := counts[day := count];
    assert after - {day} == counts;
    TotalWithout(after, day);
  }

  /** `seen` holds exactly the entries of the first `i` keys of the order. */
  ghost predicate SeenPrefix(counts: DayCounts, order: seq<string>, i: nat, seen: DayCounts) {
    && i <= |order|
    && (forall d :: d in seen <==> d in order[..i])
    && (forall d :: d in seen ==> d in counts && seen[d] == counts[d])
  }

  lemma SeenPrefixStep(counts: DayCounts, order: seq<string>, i: nat, seen: DayCounts)
    requires IsIterationOrder(counts, order)
    requires i < |order|
    requires SeenPrefix(counts, order, i, seen)
    ensures order[i] !in seen
    ensures SeenPrefix(counts, order, i + 1, seen[order[i] := counts[order[i]]])
  {
    assert order[..i + 1] == order[..i] + [order[i]];
    forall j | 0 <= j < i
      ensures order[..i][j] != order[i]
    {
    }
  }

  lemma SeenPrefixDone(counts: DayCounts, order: seq<string>, seen: DayCounts)
    requires IsIterationOrder(counts, order)
    requires SeenPrefix(counts, order, |order|, seen)
    ensures seen == counts
  {
    assert order[..|order|] == order;
  }

  /** The summing loop of TotalRepetitions, for any iteration order. */
  method SumInIterationOrder(counts: DayCounts, order: seq<string>) returns (repetitions: int)
    requires IsIterationOrder(counts, order)
    ensures repetitions == Total(counts)
  {
    repetitions := 0;
    ghost var seen: DayCounts := map[];
    for i := 0 to |order|
      invariant SeenPrefix(counts, order, i, seen)
      invariant repetitions == Total(seen)
    {
      var day := order[i];
      SeenPrefixStep(counts, order, i, seen);
      TotalAdd(seen, day, counts[day]);
      seen := seen[day := counts[day]];
      repetitions := repetitions + counts[day];
    }
    SeenPrefixDone(counts, order, seen);
  }

  /** The maximum loop of SingleDayRepetitions, for any iteration order. */
  method MaxInIterationOrder(counts: DayCounts, order: seq<string>) returns (maxRepetitions: int)
    requires IsIterationOrder(counts, order)
    ensures maxRepetitions == SingleDayMax(counts)
  {
    maxRepetitions := 0;
    ghost var seen: DayCounts := map[];
    for i := 0 to |order|
      invariant SeenPrefix(counts, order, i, seen)
      invariant 0 <= maxRepetitions
      invariant forall d :: d in seen ==> seen[d] <= maxRepetitions
      invariant maxRepetitions == 0 || exists d :: d in seen && seen[d] == maxRepetitions
    {
      var day := order[i];
      SeenPrefixStep(counts, order, i, seen);
      seen := seen[day := counts[day]];
      if counts[day] > maxRepetitions {
        maxRepetitions := counts[day];
      }
    }
    SeenPrefixDone(counts, order, seen);
    MaxIsUnique(counts, maxRepetitions);
  }

  /** `SingleDayMax` is the only value with its three properties. */
  lemma MaxIsUnique(counts: DayCounts, m: int)
    requires 0 <= m
    requires forall d :: d in counts ==> counts[d] <= m
    requires m == 0 || exists d :: d in counts && counts[d] == m
    ensures m == SingleDayMax(counts)
  {
  }

  // ---------------------------------------------------------------------------
  // Levels

  function Id(a: Achievement): string {
    match a
    case TotalRepetitions => "totalRepetitions"
    case ActiveDays => "activeDays"
    case SingleDayRepetitions => "singleDayRepetitions"
  }

  function Requirements(a: Achievement): seq<int> {
    match a
    case TotalRepetitions => TotalRepetitionsRequirements
    case ActiveDays => ActiveDaysRequirements
    case SingleDayRepetitions => SingleDayRepetitionsRequirements
  }

  /** The loop of `Level`: the index of the first requirement strictly above the
      value, or the number of requirements when there is none. */
  function LevelFor(requirements: seq<int>, value: int): (level: nat)
    ensures level <= |requirements|
    ensures forall i :: 0 <= i < level ==> requirements[i] <= value
    ensures level < |requirements| ==> value < requirements[level]
  {
    if |requirements| == 0 then 0
    else if value < requirements[0] then 0
    else 1 + LevelFor(requirements[1..], value)
  }

  /** Number of requirements met by the value, independent of their order. */
  function CountMet(requirements: seq<int>, value: int): nat {
    if |requirements| == 0 then 0
    else (if requirements[0] <= value then 1 else 0) + CountMet(requirements[1..], value)
  }

  /** On an ascending table the level is the number of thresholds reached. */
  lemma {:induction false} LevelCountsMetRequirements(requirements: seq<int>, value: int)
    requires Ascending(requirements)
    ensures LevelFor(requirements, value) == CountMet(requirements, value)
    decreases |requirements|
  {
    if |requirements| > 0 {
      if value < requirements[0] {
        NoneMetBelowFirst(requirements, value);
      } else {
        LevelCountsMetRequirements(requirements[1..], value);
      }
    }
  }

  lemma {:induction false} NoneMetBelowFirst(requirements: seq<int>, value: int)
    requires Ascending(requirements)
    requires forall i :: 0 <= i < |requirements| ==> value < requirements[i]
    ensures CountMet(requirements, value) == 0
    decreases |requirements|
  {
    if |requirements| > 0 {
      NoneMetBelowFirst(requirements[1..], value);
    }
  }

  /** A larger metric never gives a lower level, on any table. */
  lemma LevelMonotone(requirements: seq<int>, low: int, high: int)
    requires low <= high
    ensures LevelFor(requirements, low) <= LevelFor(requirements, high)
  {
  }

  /** A table whose neighbours increase is ascending. */
  lemma {:induction false} StepsAscending(requirements: seq<int>)
    requires forall i :: 0 < i < |requirements| ==> requirements[i - 1] < requirements[i]
    ensures Ascending(requirements)
    decreases |requirements|
  {
    if |requirements| > 1 {
      var rest := requirements[1..];
      StepsAscending(rest);
      forall j | 0 < j < |requirements|
        ensures requirements[0] < requirements[j]
      {
        if j > 1 {
          assert rest[0] < rest[j - 1];
        }
      }
    }
  }

  /** The three tables are ascending. */
  lemma TablesAscending()
    ensures forall a: Achievement :: Ascending(Requirements(a))
  {
    forall a: Achievement
      ensures Ascending(Requirements(a))
    {
      StepsAscending(Requirements(a));
    }
  }

  /** The worked levels of the total-repetitions ladder. */
  lemma TotalRepetitionsLevels(value: int)
    ensures LevelFor(TotalRepetitionsRequirements, 9) == 0
    ensures LevelFor(TotalRepetitionsRequirements, 10) == 1
    ensures LevelFor(TotalRepetitionsRequirements, 25) == 2
    ensures 10000 <= value ==> LevelFor(TotalRepetitionsRequirements, value) == 18
  {
    var table := TotalRepetitionsRequirements;
    assert table[0] == 10 && table[1] == 25 && table[2] == 50;
    assert forall i :: 0 <= i < |table| ==> table[i] <= 10000;
  }

  /** `Level(user)` of an achievement: the level its metric earns. */
  ghost function Level(a: Achievement, user: User): (level: nat)
    ensures level <= |Requirements(a)|
  {
    LevelFor(Requirements(a), Value(a, user.dailyRepetitions))
  }

  /** The level an achievement earns is the number of its thresholds the metric reaches. */
  lemma LevelCountsThresholds(a: Achievement, user: User)
    ensures Level(a, user) == CountMet(Requirements(a), Value(a, user.dailyRepetitions))
  {
    TablesAscending();
    LevelCountsMetRequirements(Requirements(a), Value(a, user.dailyRepetitions));
  }

  /** The level stored for an achievement (`CurrentLevel(user)` reads it from the user). */
  function LevelOf(a: Achievement, levels: StoredLevels): int {
    match a
    case TotalRepetitions => levels.totalRepetitions
    case ActiveDays => levels.activeDays
    case SingleDayRepetitions => levels.singleDayRepetitions
  }

  /** The three earned levels, in the shape they are stored in. */
  ghost function EarnedLevels(user: User): (earned: StoredLevels)
    ensures forall a: Achievement :: LevelOf(a, earned) == Level(a, user)
  {
    StoredLevels(Level(TotalRepetitions, user), Level(ActiveDays, user), Level(SingleDayRepetitions, user))
  }

  /** Position of an achievement id in the fixed list, 3 for any other id. */
  function Rank(id: string): nat {
    if id == Id(TotalRepetitions) then 0
    else if id == Id(ActiveDays) then 1
    else if id == Id(SingleDayRepetitions) then 2
    else 3
  }

  /** What the loop of `UpdateAchievements` reads of one achievement. */
  datatype Evaluation = Evaluation(id: string, currentLevel: int, newLevel: int)

  /** The body of the loop of `UpdateAchievements`, over any list of evaluations:
      an update for each evaluation whose new level exceeds the current one. */
  function Emit(evaluations: seq<Evaluation>): (updates: seq<AchievementUpdate>)
    ensures |updates| <= |evaluations|
  {
    if |evaluations| == 0 then []
    else
      var e := evaluations[0];
      (if e.newLevel > e.currentLevel then [AchievementUpdate(e.id, e.newLevel)] else []) + Emit(evaluations[1..])
  }

  /** Exactly the raising evaluations are emitted, each as `{id, newLevel}`. */
  lemma {:induction false} EmitMembers(evaluations: seq<Evaluation>)
    ensures forall u :: u in Emit(evaluations) ==>
      exists e :: e in evaluations && e.newLevel > e.currentLevel && u == AchievementUpdate(e.id, e.newLevel)
    ensures forall e :: e in evaluations && e.newLevel > e.currentLevel ==>
      AchievementUpdate(e.id, e.newLevel) in Emit(evaluations)
    decreases |evaluations|
  {
    if |evaluations| > 0 {
      EmitMembers(evaluations[1..]);
      assert forall x :: x in evaluations[1..] ==> x in evaluations;
      assert forall x :: x in evaluations ==> x == evaluations[0] || x in evaluations[1..];
    }
  }

  /** Emitting goes evaluation by evaluation: the updates of a concatenation are the
      concatenation of the updates, so their order follows the evaluations. */
  lemma {:induction false} EmitConcat(a: seq<Evaluation>, b: seq<Evaluation>)
    ensures Emit(a + b) == Emit(a) + Emit(b)
    decreases |a|
  {
    if |a| > 0 {
      assert (a + b)[1..] == a[1..] + b;
      EmitConcat(a[1..], b);
    } else {
      assert a + b == b;
    }
  }

  function Evaluate(a: Achievement, stored: StoredLevels, earned: StoredLevels): Evaluation {
    Evaluation(Id(a), LevelOf(a, stored), LevelOf(a, earned))
  }

  /** The update `u` names `a` and raises its stored level to the earned one. */
  predicate Raises(stored: StoredLevels, earned: StoredLevels, a: Achievement, u: AchievementUpdate) {
    u.id == Id(a) && u.level == LevelOf(a, earned) && u.level > LevelOf(a, stored)
  }

  /** The update one evaluation contributes: none, or the one raising its level. */
  function EmitOne(e: Evaluation): (updates: seq<AchievementUpdate>)
    ensures |updates| == (if e.newLevel > e.currentLevel then 1 else 0)
    ensures forall u :: u in updates ==> u == AchievementUpdate(e.id, e.newLevel) && e.newLevel > e.currentLevel
    ensures e.newLevel > e.currentLevel ==> AchievementUpdate(e.id, e.newLevel) in updates
  {
    if e.newLevel > e.currentLevel then [AchievementUpdate(e.id, e.newLevel)] else []
  }

  lemma EmitCons(e: Evaluation, rest: seq<Evaluation>)
    ensures Emit([e] + rest) == EmitOne(e) + Emit(rest)
  {
    assert ([e] + rest)[0] == e;
    assert ([e] + rest)[1..] == rest;
  }

  /** The loop of `UpdateAchievements` over the achievement list, given the stored
      levels and the earned ones: one update per achievement whose earned level
      exceeds the stored one, in the order of the list. */
  function UpdatesFor(stored: StoredLevels, earned: StoredLevels): (updates: seq<AchievementUpdate>)
    ensures forall u :: u in updates ==> exists a :: Raises(stored, earned, a, u)
    ensures forall a: Achievement ::
      LevelOf(a, earned) > LevelOf(a, stored) <==> AchievementUpdate(Id(a), LevelOf(a, earned)) in updates
    ensures Ordered(updates)
    ensures updates == [] <==> forall a: Achievement :: LevelOf(a, earned) <= LevelOf(a, stored)
  {
    var e0 := Evaluate(TotalRepetitions, stored, earned);
    var e1 := Evaluate(ActiveDays, stored, earned);
    var e2 := Evaluate(SingleDayRepetitions, stored, earned);
    UpdatesForSplits(e0, e1, e2);
    UpdatesForRaises(stored, earned, EmitOne(e0), EmitOne(e1), EmitOne(e2));
    UpdatesForComplete(stored, earned, EmitOne(e0), EmitOne(e1), EmitOne(e2));
    UpdatesForOrdered(stored, earned, EmitOne(e0), EmitOne(e1), EmitOne(e2));
    UpdatesForEmpty(stored, earned, EmitOne(e0), EmitOne(e1), EmitOne(e2));
    Emit([e0, e1, e2])
  }

  lemma UpdatesForSplits(e0: Evaluation, e1: Evaluation, e2: Evaluation)
    ensures Emit([e0, e1, e2]) == EmitOne(e0) + EmitOne(e1) + EmitOne(e2)
  {
    assert Emit([e2]) == EmitOne(e2) by {
      EmitCons(e2, []);
      assert [e2] + [] == [e2];
    }
    assert Emit([e1, e2]) == EmitOne(e1) + Emit([e2]) by {
      EmitCons(e1, [e2]);
      assert [e1] + [e2] == [e1, e2];
    }
    assert Emit([e0, e1, e2]) == EmitOne(e0) + Emit([e1, e2]) by {
      EmitCons(e0, [e1, e2]);
      assert [e0] + [e1, e2] == [e0, e1, e2];
    }
  }

  /** Each part of `UpdatesFor` can only raise its own achievement. */
  lemma EmitOneRaises(a: Achievement, stored: StoredLevels, earned: StoredLevels)
    ensures forall u :: u in EmitOne(Evaluate(a, stored, earned)) ==> Raises(stored, earned, a, u) && Rank(u.id) == Rank(Id(a))
  {
  }

  lemma UpdatesForRaises(stored: StoredLevels, earned: StoredLevels,
                         u0: seq<AchievementUpdate>, u1: seq<AchievementUpdate>, u2: seq<AchievementUpdate>)
    requires u0 == EmitOne(Evaluate(TotalRepetitions, stored, earned))
    requires u1 == EmitOne(Evaluate(ActiveDays, stored, earned))
    requires u2 == EmitOne(Evaluate(SingleDayRepetitions, stored, earned))
    ensures forall u :: u in u0 + u1 + u2 ==> exists a :: Raises(stored, earned, a, u)
  {
    EmitOneRaises(TotalRepetitions, stored, earned);
    EmitOneRaises(ActiveDays, stored, earned);
    EmitOneRaises(SingleDayRepetitions, stored, earned);
  }

  lemma UpdatesForComplete(stored: StoredLevels, earned: StoredLevels,
                           u0: seq<AchievementUpdate>, u1: seq<AchievementUpdate>, u2: seq<AchievementUpdate>)
    requires u0 == EmitOne(Evaluate(TotalRepetitions, stored, earned))
    requires u1 == EmitOne(Evaluate(ActiveDays, stored, earned))
    requires u2 == EmitOne(Evaluate(SingleDayRepetitions, stored, earned))
    ensures forall a: Achievement ::
      LevelOf(a, earned) > LevelOf(a, stored) <==> AchievementUpdate(Id(a), LevelOf(a, earned)) in u0 + u1 + u2
  {
    UpdatesForRaises(stored, earned, u0, u1, u2);
    forall a: Achievement
      ensures LevelOf(a, earned) > LevelOf(a, stored) <==> AchievementUpdate(Id(a), LevelOf(a, earned)) in u0 + u1 + u2
    {
      if AchievementUpdate(Id(a), LevelOf(a, earned)) in u0 + u1 + u2 {
        var b :| Raises(stored, earned, b, AchievementUpdate(Id(a), LevelOf(a, earned)));
        IdInjective(a, b);
      }
    }
  }

  lemma UpdatesForOrdered(stored: StoredLevels, earned: StoredLevels,
                          u0: seq<AchievementUpdate>, u1: seq<AchievementUpdate>, u2: seq<AchievementUpdate>)
    requires u0 == EmitOne(Evaluate(TotalRepetitions, stored, earned))
    requires u1 == EmitOne(Evaluate(ActiveDays, stored, earned))
    requires u2 == EmitOne(Evaluate(SingleDayRepetitions, stored, earned))
    ensures Ordered(u0 + u1 + u2)
  {
    EmitOneRaises(TotalRepetitions, stored, earned);
    EmitOneRaises(ActiveDays, stored, earned);
    EmitOneRaises(SingleDayRepetitions, stored, earned);
    var all := u0 + u1 + u2;
    forall i, j | 0 <= i < j < |all|
      ensures Rank(all[i].id) < Rank(all[j].id)
    {
      if i < |u0| {
        assert Rank(all[i].id) == 0 by { assert all[i] == u0[i]; }
        if j < |u0| + |u1| {
          assert all[j] == u1[j - |u0|];
        } else {
          assert all[j] == u2[j - |u0| - |u1|];
        }
      } else {
        assert all[i] == u1[i - |u0|];
        assert all[j] == u2[j - |u0| - |u1|];
      }
    }
  }

  lemma UpdatesForEmpty(stored: StoredLevels, earned: StoredLevels,
                        u0: seq<AchievementUpdate>, u1: seq<AchievementUpdate>, u2: seq<AchievementUpdate>)
    requires u0 == EmitOne(Evaluate(TotalRepetitions, stored, earned))
    requires u1 == EmitOne(Evaluate(ActiveDays, stored, earned))
    requires u2 == EmitOne(Evaluate(SingleDayRepetitions, stored, earned))
    ensures u0 + u1 + u2 == [] <==> forall a: Achievement :: LevelOf(a, earned) <= LevelOf(a, stored)
  {
    if forall a: Achievement :: LevelOf(a, earned) <= LevelOf(a, stored) {
      assert LevelOf(TotalRepetitions, earned) <= LevelOf(TotalRepetitions, stored);
      assert LevelOf(ActiveDays, earned) <= LevelOf(ActiveDays, stored);
      assert LevelOf(SingleDayRepetitions, earned) <= LevelOf(SingleDayRepetitions, stored);
    } else {
      var a: Achievement :| LevelOf(a, earned) > LevelOf(a, stored);
      assert |u0 + u1 + u2| > 0 by {
        match a
        case TotalRepetitions =>
        case ActiveDays =>
        case SingleDayRepetitions =>
      }
    }
  }

  /** `UpdateAchievements(user)`: the updates the user's statistics earn. */
  ghost function UpdateAchievements(user: User): (updates: seq<AchievementUpdate>)
    ensures forall u :: u in updates ==>
      exists a :: u.id == Id(a) && u.level == Level(a, user) && u.level > LevelOf(a, user.achievements)
    ensures forall a: Achievement ::
      Level(a, user) > LevelOf(a, user.achievements) <==> AchievementUpdate(Id(a), Level(a, user)) in updates
    ensures updates == [] <==> forall a: Achievement :: Level(a, user) <= LevelOf(a, user.achievements)
  {
    UpdatesFor(user.achievements, EarnedLevels(user))
  }

  // ---------------------------------------------------------------------------
  // Storing the emitted levels

  /** `$set` of `achievements.<id>` to the level, as the repetition handler does. */
  function ApplyUpdate(levels: StoredLevels, u: AchievementUpdate): StoredLevels {
    if u.id == Id(TotalRepetitions) then levels.(totalRepetitions := u.level)
    else if u.id == Id(ActiveDays) then levels.(activeDays := u.level)
    else if u.id == Id(SingleDayRepetitions) then levels.(singleDayRepetitions := u.level)
    else levels
  }

  function ApplyUpdates(levels: StoredLevels, updates: seq<AchievementUpdate>): (r: StoredLevels)
    ensures forall a: Achievement ::
      LevelOf(a, r) == LevelOf(a, levels) || exists u :: u in updates && u.id == Id(a) && u.level == LevelOf(a, r)
    decreases |updates|
  {
    if |updates| == 0 then levels
    else ApplyUpdates(ApplyUpdate(levels, updates[0]), updates[1..])
  }

  /** The updates name achievements in strictly increasing list order, so each
      achievement at most once. */
  predicate Ordered(updates: seq<AchievementUpdate>) {
    forall i, j :: 0 <= i < j < |updates| ==> Rank(updates[i].id) < Rank(updates[j].id)
  }

  lemma OrderedTail(updates: seq<AchievementUpdate>)
    requires Ordered(updates) && |updates| > 0
    ensures Ordered(updates[1..])
    ensures forall u :: u in updates[1..] ==> Rank(updates[0].id) < Rank(u.id)
  {
    forall i, j | 0 <= i < j < |updates[1..]|
      ensures Rank(updates[1..][i].id) < Rank(updates[1..][j].id)
    {
      assert updates[1..][i] == updates[i + 1] && updates[1..][j] == updates[j + 1];
    }
    forall u | u in updates[1..]
      ensures Rank(updates[0].id) < Rank(u.id)
    {
      var j :| 0 <= j < |updates[1..]| && updates[1..][j] == u;
      assert updates[j + 1] == u;
    }
  }

  /** Updates that do not name an achievement leave its stored level alone. */
  lemma {:induction false} ApplyOtherUpdates(levels: StoredLevels, updates: seq<AchievementUpdate>, a: Achievement)
    requires forall u :: u in updates ==> u.id != Id(a)
    ensures LevelOf(a, ApplyUpdates(levels, updates)) == LevelOf(a, levels)
    decreases |updates|
  {
    if |updates| > 0 {
      assert updates[0] in updates;
      assert forall u :: u in updates[1..] ==> u in updates;
      ApplyOtherUpdates(ApplyUpdate(levels, updates[0]), updates[1..], a);
    }
  }

  /** Applying ordered updates sets an achievement to the level of its update. */
  lemma {:induction false} ApplyOrderedUpdates(levels: StoredLevels, updates: seq<AchievementUpdate>, a: Achievement, i: nat)
    requires Ordered(updates)
    requires i < |updates| && updates[i].id == Id(a)
    ensures LevelOf(a, ApplyUpdates(levels, updates)) == updates[i].level
    decreases |updates|
  {
    var next := ApplyUpdate(levels, updates[0]);
    OrderedTail(updates);
    if i == 0 {
      ApplyOtherUpdates(next, updates[1..], a);
    } else {
      assert updates[1..][i - 1] == updates[i];
      ApplyOrderedUpdates(next, updates[1..], a, i - 1);
    }
  }

  /** After storing the emitted updates every stored level is the larger of the old
      stored level and the earned one: the ladder only ratchets upwards. */
  lemma StoredLevelsRatchet(stored: StoredLevels, earned: StoredLevels)
    ensures var after := ApplyUpdates(stored, UpdatesFor(stored, earned));
      forall a: Achievement ::
        LevelOf(a, after) == if LevelOf(a, earned) > LevelOf(a, stored) then LevelOf(a, earned) else LevelOf(a, stored)
  {
    var updates := UpdatesFor(stored, earned);
    forall a: Achievement
      ensures LevelOf(a, ApplyUpdates(stored, updates))
           == if LevelOf(a, earned) > LevelOf(a, stored) then LevelOf(a, earned) else LevelOf(a, stored)
    {
      if LevelOf(a, earned) > LevelOf(a, stored) {
        var u := AchievementUpdate(Id(a), LevelOf(a, earned));
        var i :| 0 <= i < |updates| && updates[i] == u;
        ApplyOrderedUpdates(stored, updates, a, i);
      } else {
        forall u | u in updates
          ensures u.id != Id(a)
        {
          var b :| Raises(stored, earned, b, u);
          IdInjective(a, b);
        }
        ApplyOtherUpdates(stored, updates, a);
      }
    }
  }

  lemma IdInjective(a: Achievement, b: Achievement)
    ensures Id(a) == Id(b) ==> a == b
  {
    assert Id(TotalRepetitions)[0] == 't' && Id(ActiveDays)[0] == 'a' && Id(SingleDayRepetitions)[0] == 's';
  }

  /** Evaluating again after the emitted levels are stored, on the same
      statistics, emits nothing. */
  lemma UpdatesForIdempotent(stored: StoredLevels, earned: StoredLevels)
    ensures UpdatesFor(ApplyUpdates(stored, UpdatesFor(stored, earned)), earned) == []
  {
    var after := ApplyUpdates(stored, UpdatesFor(stored, earned));
    StoredLevelsRatchet(stored, earned);
  }

  /** The repetition handler stores what `UpdateAchievements` returns; asking again
      before the next repetition reports no achievement. */
  lemma UpdateAchievementsIdempotent(user: User)
    ensures UpdateAchievements(user.(achievements := ApplyUpdates(user.achievements, UpdateAchievements(user)))) == []
  {
    var after := user.(achievements := ApplyUpdates(user.achievements, UpdateAchievements(user)));
    assert EarnedLevels(after) == EarnedLevels(user);
    UpdatesForIdempotent(user.achievements, EarnedLevels(user));
  }

  // ---------------------------------------------------------------------------
  // The ladder after one more repetition

  /** One more repetition adds exactly one to the total. */
  lemma RecordRepetitionTotal(counts: DayCounts, day: string)
    ensures Total(RecordRepetition(counts, day)) == Total(counts) + 1
  {
    var after := RecordRepetition(counts, day);
    if day in counts {
      TotalWithout(after, day);
      TotalWithout(counts, day);
      assert after - {day} == counts - {day};
    } else {
      assert after == counts[day := 1];
      TotalAdd(counts, day, 1);
    }
  }

  /** One more repetition adds an active day exactly when the day is new. */
  lemma RecordRepetitionActiveDays(counts: DayCounts, day: string)
    ensures ActiveDayCount(RecordRepetition(counts, day)) == ActiveDayCount(counts) + (if day in counts then 0 else 1)
  {
  }

  /** One more repetition never lowers the single-day peak, and the peak reaches
      the day's new count. */
  lemma RecordRepetitionPeak(counts: DayCounts, day: string)
    ensures SingleDayMax(counts) <= SingleDayMax(RecordRepetition(counts, day))
    ensures CountOn(counts, day) + 1 <= SingleDayMax(RecordRepetition(counts, day))
  {
    var after := RecordRepetition(counts, day);
    var m := SingleDayMax(counts);
    if m != 0 {
      var d :| d in counts && counts[d] == m;
      assert counts[d] <= after[d];
    }
    assert after[day] == CountOn(counts, day) + 1;
  }

  /** The three metrics together never decrease under one more repetition. */
  lemma RecordRepetitionMetrics(counts: DayCounts, day: string, a: Achievement)
    ensures Value(a, counts) <= Value(a, RecordRepetition(counts, day))
  {
    match a
    case TotalRepetitions => RecordRepetitionTotal(counts, day);
    case ActiveDays => RecordRepetitionActiveDays(counts, day);
    case SingleDayRepetitions => RecordRepetitionPeak(counts, day);
  }

  /** Recording a repetition never lowers the level any achievement computes. */
  lemma RecordRepetitionNeverLowersLevel(user: User, day: string, a: Achievement)
    ensures Level(a, user) <= Level(a, user.(dailyRepetitions := RecordRepetition(user.dailyRepetitions, day)))
  {
    RecordRepetitionMetrics(user.dailyRepetitions, day, a);
    var after := user.(dailyRepetitions := RecordRepetition(user.dailyRepetitions, day));
    LevelMonotone(Requirements(a), Value(a, user.dailyRepetitions), Value(a, after.dailyRepetitions));
  }

  /** With no negative counts, the single-day peak never exceeds the total. */
  lemma {:induction false} SingleDayAtMostTotal(counts: DayCounts)
    requires forall d :: d in counts ==> 0 <= counts[d]
    ensures SingleDayMax(counts) <= Total(counts)
    ensures 0 <= Total(counts)
    decreases |counts|
  {
    if |counts| > 0 {
      var m := SingleDayMax(counts);
      var best :| best in counts && (m == 0 || counts[best] == m);
      CardRemove(counts, best);
      TotalWithout(counts, best);
      SingleDayAtMostTotal(counts - {best});
    }
  }
}
