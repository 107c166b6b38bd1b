/**
 Replay of a card's review history into its scheduling fields
 (internal/rest/cards.go, `lerp`, `errorProbability` and `processRepetitions`).

 Times are integers counting milliseconds; the scheduling parameters, which the
 source keeps as `float32`, are `real`. The forgetting curve `1 - 2^(-delay/halfLife)`
 is not computed: it is an `ErrorModel` parameter of which only its range is known.
 */
module Scheduling {
  import opened Wrappers

  /** One graded review: `date` in milliseconds, `quality` the 0..5 grade (3 and up is a correct answer). */
  datatype Repetition = Repetition(date: int, quality: int)

  /** The fields `processRepetitions` writes back onto the card. */
  datatype CardUpdate = CardUpdate(
    factor: real,
    halfLife: real,
    totalRepetitions: nat,
    correctRepetitions: nat,
    lastRepetition: Option<int>)

  /** The running variables of the replay loop. */
  datatype ReplayState = ReplayState(factor: real, halfLife: real, previous: int, correct: nat)

  /** Where the delay fed to the forgetting curve is measured from. The source never
      moves its `previousRepetition` past the first review (`FirstRepetition`);
      `PreviousRepetition` is the evidently intended rule. */
  datatype DelayOrigin = FirstRepetition | PreviousRepetition

  /** Probability of having forgotten the card, given the delay since the anchor
      review and the current half-life. */
  type ErrorModel = (int, real) -> real

  const MillisPerDay: int := 24 * 3600 * 1000
  const InitialFactor: real := 2.5
  const InitialHalfLife: real := 6.58 * 24.0 * 3600.0 * 1000.0
  const MinFactor: real := 1.3
  const MaxFactor: real := 2.5
  const UsefulnessCap: real := 1.5

  /** The only facts about `1 - 2^(-delay/halfLife)` the model relies on:
      for a non-negative delay and a positive half-life it lies in [0, 1). */
  ghost predicate ValidErrorModel(errorModel: ErrorModel) {
    forall delay: int, halfLife: real ::
      0 <= delay && 0.0 < halfLife ==> 0.0 <= errorModel(delay, halfLife) < 1.0
  }

  /** Sorted by date, the order `processRepetitions` establishes before its loop. */
  predicate SortedByDate(reps: seq<Repetition>) {
    forall i, j :: 0 <= i < j < |reps| ==> reps[i].date <= reps[j].date
  }

  /** Number of correct answers in a history, independent of any replay. */
  function CountCorrect(reps: seq<Repetition>): nat {
    if |reps| == 0 then 0
    else (if reps[0].quality >= 3 then 1 else 0) + CountCorrect(reps[1..])
  }

  /** `d` is the latest date of the history. */
  ghost predicate IsLatestDate(d: int, reps: seq<Repetition>) {
    && (exists i :: 0 <= i < |reps| && reps[i].date == d)
    && (forall i :: 0 <= i < |reps| ==> reps[i].date <= d)
  }

  function Lerp(a: real, b: real, t: real): (r: real)
    ensures r - a == t * (b - a)
    ensures t == 0.0 ==> r == a
    ensures t == 1.0 ==> r == b
  {
    a * (1.0 - t) + b * t
  }

  /** `errorProbability(previous, date, halfLife)`: the model applied to the delay. */
  function ErrorProbability(errorModel: ErrorModel, previous: int, date: int, halfLife: real): (p: real)
    ensures ValidErrorModel(errorModel) && previous <= date && 0.0 < halfLife ==> 0.0 <= p < 1.0
  {
    errorModel(date - previous, halfLife)
  }

  /** Ten times the error probability, capped from above only. */
  function Usefulness(errorProbability: real): (u: real)
    ensures u <= UsefulnessCap
    ensures u == UsefulnessCap || u == 10.0 * errorProbability
    ensures 10.0 * errorProbability <= UsefulnessCap ==> u == 10.0 * errorProbability
    ensures 0.0 <= errorProbability ==> 0.0 <= u
  {
    if 10.0 * errorProbability > UsefulnessCap then UsefulnessCap else 10.0 * errorProbability
  }

  /** The quadratic change of the factor for a grade: a reward for 5, nothing for 4,
      a penalty below. */
  function FactorUpdate(quality: int): (delta: real)
    ensures quality == 5 ==> delta == 0.1
    ensures quality == 4 ==> delta == 0.0
    ensures 0 <= quality <= 3 ==> delta < 0.0
  {
    var missing := 5.0 - quality as real;
    0.1 - missing * (0.08 + missing * 0.02)
  }

  function ClampFactor(factor: real): (r: real)
    ensures MinFactor <= r <= MaxFactor
    ensures MinFactor <= factor <= MaxFactor ==> r == factor
    ensures factor < MinFactor ==> r == MinFactor
    ensures MaxFactor < factor ==> r == MaxFactor
  {
    if factor < MinFactor then MinFactor
    else if factor > MaxFactor then MaxFactor
    else factor
  }

  /** Interpolating from 1 towards a factor of at least 1 never shrinks. */
  lemma LerpOneIsGrowth(factor: real, usefulness: real)
    ensures 1.0 <= factor && 0.0 <= usefulness ==> 1.0 <= Lerp(1.0, factor, usefulness)
  {
    if 1.0 <= factor && 0.0 <= usefulness {
      assert Lerp(1.0, factor, usefulness) - 1.0 == usefulness * (factor - 1.0);
      ProductNonNegative(usefulness, factor - 1.0);
    }
  }

  /** The half-life after a review: halved on a failure, scaled by `growth` on a
      success. A positive half-life stays positive, and a growth of at least 1
      never shrinks it. */
  function NextHalfLife(halfLife: real, quality: int, growth: real): (h: real)
    ensures quality < 3 ==> h == halfLife / 2.0
    ensures quality >= 3 ==> h == halfLife * growth
    ensures 0.0 < halfLife && 1.0 <= growth ==> 0.0 < h && (quality >= 3 ==> halfLife <= h)
  {
    if quality < 3 then halfLife / 2.0
    else
      assert 0.0 < halfLife && 1.0 <= growth ==> halfLife * growth - halfLife == halfLife * (growth - 1.0);
      ProductNonNegative(halfLife, growth - 1.0);
      halfLife * growth
  }

  lemma ProductPositive(x: real, y: real)
    ensures 0.0 < x && 0.0 < y ==> 0.0 < x * y
  {
  }

  /** Interpolating from 1 towards a factor above 1 with positive usefulness strictly grows. */
  lemma LerpOneIsStrictGrowth(factor: real, usefulness: real)
    ensures 1.0 < factor && 0.0 < usefulness ==> 1.0 < Lerp(1.0, factor, usefulness)
  {
    if 1.0 < factor && 0.0 < usefulness {
      assert Lerp(1.0, factor, usefulness) - 1.0 == usefulness * (factor - 1.0);
      ProductPositive(usefulness, factor - 1.0);
    }
  }

  /** Scaling a positive half-life by more than 1 strictly grows it. */
  lemma ScaleStrict(h: real, g: real)
    ensures 0.0 < h && 1.0 < g ==> h < h * g
  {
    if 0.0 < h && 1.0 < g {
      assert h * g - h == h * (g - 1.0);
      ProductPositive(h, g - 1.0);
    }
  }

  lemma ProductNonNegative(x: real, y: real)
    ensures 0.0 <= x && 0.0 <= y ==> 0.0 <= x * y
  {
  }

  /** The state before any review. */
  const Fresh: ReplayState := ReplayState(0.0, 0.0, 0, 0)

  /** The first review only initialises the parameters and the anchor date. */
  function First(rep: Repetition): (s: ReplayState)
    ensures s.factor == InitialFactor && s.halfLife == InitialHalfLife
    ensures s.previous == rep.date
    ensures s.correct == CountCorrect([rep])
  {
    ReplayState(InitialFactor, InitialHalfLife, rep.date, if rep.quality >= 3 then 1 else 0)
  }

  /** One later review: the body of the loop for `i > 0`. */
  function Step(errorModel: ErrorModel, origin: DelayOrigin, s: ReplayState, rep: Repetition): (r: ReplayState)
    ensures MinFactor <= r.factor <= MaxFactor
    ensures rep.quality < 3 ==> r.halfLife == s.halfLife / 2.0
    ensures rep.quality >= 3 ==>
      r.halfLife == s.halfLife * Lerp(1.0, r.factor, Usefulness(ErrorProbability(errorModel, s.previous, rep.date, s.halfLife)))
    ensures ValidErrorModel(errorModel) && s.previous <= rep.date && 0.0 < s.halfLife ==>
      0.0 < r.halfLife && (rep.quality >= 3 ==> s.halfLife <= r.halfLife)
    ensures r.previous == (if origin == PreviousRepetition then rep.date else s.previous)
    ensures r.correct == s.correct + (if rep.quality >= 3 then 1 else 0)
  {
    var p := ErrorProbability(errorModel, s.previous, rep.date, s.halfLife);
    var usefulness := Usefulness(p);
    var factor := ClampFactor(s.factor + FactorUpdate(rep.quality) * usefulness);
    var growth := Lerp(1.0, factor, usefulness);
    var halfLife := NextHalfLife(s.halfLife, rep.quality, growth);
    assert ValidErrorModel(errorModel) && s.previous <= rep.date && 0.0 < s.halfLife ==> 0.0 <= p;
    LerpOneIsGrowth(factor, usefulness);
    ReplayState(factor, halfLife, if origin == PreviousRepetition then rep.date else s.previous,
                s.correct + (if rep.quality >= 3 then 1 else 0))
  }

  /** How the new factor follows the grade, for a factor already in range and a
      non-negative usefulness: grade 4 keeps it, grade 5 never lowers it, grades
      0-3 never raise it, and with positive usefulness the change is strict
      unless it reaches a bound of the clamp. */
  lemma StepFactorFollowsGrade(errorModel: ErrorModel, origin: DelayOrigin, s: ReplayState, rep: Repetition)
    requires MinFactor <= s.factor <= MaxFactor
    ensures var u := Usefulness(ErrorProbability(errorModel, s.previous, rep.date, s.halfLife));
      var f := Step(errorModel, origin, s, rep).factor;
      && (rep.quality == 4 ==> f == s.factor)
      && (rep.quality == 5 && 0.0 <= u ==> s.factor <= f)
      && (0 <= rep.quality <= 3 && 0.0 <= u ==> f <= s.factor)
      && (rep.quality == 5 && 0.0 < u && s.factor < MaxFactor ==> s.factor < f)
      && (0 <= rep.quality <= 3 && 0.0 < u && MinFactor < s.factor ==> f < s.factor)
  {
    var u := Usefulness(ErrorProbability(errorModel, s.previous, rep.date, s.halfLife));
    var delta := FactorUpdate(rep.quality);
    var f := Step(errorModel, origin, s, rep).factor;
    assert f == ClampFactor(s.factor + delta * u);
    if rep.quality == 5 {
      ProductNonNegative(delta, u);
      ProductPositive(delta, u);
    } else if 0 <= rep.quality <= 3 {
      assert delta * u == -((-delta) * u);
      ProductNonNegative(-delta, u);
      ProductPositive(-delta, u);
    }
  }

  lemma {:induction false} CountCorrectAppend(reps: seq<Repetition>, rep: Repetition)
    ensures CountCorrect(reps + [rep]) == CountCorrect(reps) + (if rep.quality >= 3 then 1 else 0)
    decreases |reps|
  {
    if |reps| == 0 {
      assert reps + [rep] == [rep];
    } else {
      assert (reps + [rep])[1..] == reps[1..] + [rep];
      CountCorrectAppend(reps[1..], rep);
    }
  }

  /** The loop of `processRepetitions` over an already sorted history, as a left fold. */
  function Replay(errorModel: ErrorModel, origin: DelayOrigin, sorted: seq<Repetition>): (s: ReplayState)
    ensures |sorted| == 0 ==> s == Fresh
    ensures s.correct == CountCorrect(sorted)
    ensures |sorted| > 0 ==>
      s.previous == (if origin == FirstRepetition then sorted[0].date else sorted[|sorted| - 1].date)
    ensures |sorted| == 1 ==> s.factor == InitialFactor && s.halfLife == InitialHalfLife
    ensures |sorted| > 0 ==> MinFactor <= s.factor <= MaxFactor
    ensures |sorted| > 0 && ValidErrorModel(errorModel) && SortedByDate(sorted) ==> 0.0 < s.halfLife
    decreases |sorted|
  {
    if |sorted| == 0 then Fresh
    else if |sorted| == 1 then First(sorted[0])
    else
      var init := sorted[..|sorted| - 1];
      var last := sorted[|sorted| - 1];
      assert sorted == init + [last];
      CountCorrectAppend(init, last);
      Step(errorModel, origin, Replay(errorModel, origin, init), last)
  }

  // ---------------------------------------------------------------------------
  // Sorting by date

  function Insert(rep: Repetition, sorted: seq<Repetition>): (r: seq<Repetition>)
    requires SortedByDate(sorted)
    ensures SortedByDate(r)
    ensures |r| == |sorted| + 1
    ensures multiset(r) == multiset(sorted) + multiset{rep}
    ensures |sorted| > 0 ==> r[0] == rep || r[0] == sorted[0]
    decreases |sorted|
  {
    if |sorted| == 0 then [rep]
    else if rep.date < sorted[0].date then [rep] + sorted
    else
      var first, tail := sorted[0], sorted[1..];
      assert sorted == [first] + tail;
      var rest := Insert(rep, tail);
      assert first.date <= rest[0].date;
      assert multiset([first] + rest) == multiset{first} + multiset(rest);
      [first] + rest
  }

  /** The ascending date order `slices.SortFunc` establishes (by insertion, so
      repetitions with equal dates keep their input order). */
  function SortByDate(reps: seq<Repetition>): (r: seq<Repetition>)
    ensures SortedByDate(r)
    ensures multiset(r) == multiset(reps)
    ensures |r| == |reps|
    decreases |reps|
  {
    if |reps| == 0 then []
    else
      var init := reps[..|reps| - 1];
      assert reps == init + [reps[|reps| - 1]];
      Insert(reps[|reps| - 1], SortByDate(init))
  }

  lemma {:induction false} CountCorrectInsert(rep: Repetition, sorted: seq<Repetition>)
    requires SortedByDate(sorted)
    ensures CountCorrect(Insert(rep, sorted)) == CountCorrect(sorted) + (if rep.quality >= 3 then 1 else 0)
    decreases |sorted|
  {
    if |sorted| == 0 {
      assert Insert(rep, sorted) == [rep];
    } else if rep.date < sorted[0].date {
      assert Insert(rep, sorted) == [rep] + sorted;
      assert ([rep] + sorted)[1..] == sorted;
    } else {
      var rest := Insert(rep, sorted[1..]);
      assert Insert(rep, sorted) == [sorted[0]] + rest;
      assert ([sorted[0]] + rest)[1..] == rest;
      CountCorrectInsert(rep, sorted[1..]);
    }
  }

  /** Sorting does not change the number of correct answers. */
  lemma {:induction false} CountCorrectSort(reps: seq<Repetition>)
    ensures CountCorrect(SortByDate(reps)) == CountCorrect(reps)
    decreases |reps|
  {
    if |reps| > 0 {
      var init := reps[..|reps| - 1];
      var last := reps[|reps| - 1];
      assert reps == init + [last];
      CountCorrectSort(init);
      CountCorrectInsert(last, SortByDate(init));
      CountCorrectAppend(init, last);
    }
  }

  /** Sorting keeps exactly the same repetitions. */
  lemma SortKeepsMembers(reps: seq<Repetition>, x: Repetition)
    ensures x in reps <==> x in SortByDate(reps)
  {
    assert x in reps <==> x in multiset(reps);
    assert x in SortByDate(reps) <==> x in multiset(SortByDate(reps));
  }

  /** The last element of the sorted history carries the latest date of the input. */
  lemma SortedLastIsLatest(reps: seq<Repetition>)
    requires |reps| > 0
    ensures IsLatestDate(SortByDate(reps)[|reps| - 1].date, reps)
  {
    var sorted := SortByDate(reps);
    var last := sorted[|reps| - 1];
    SortedLastIsMax(sorted);
    forall i | 0 <= i < |reps|
      ensures reps[i].date <= last.date
    {
      SortKeepsMembers(reps, reps[i]);
      var j :| 0 <= j < |sorted| && sorted[j] == reps[i];
    }
    SortKeepsMembers(reps, last);
    var k :| 0 <= k < |reps| && reps[k] == last;
  }

  /** The last element of a date-sorted history carries its latest date. */
  lemma SortedLastIsMax(sorted: seq<Repetition>)
    ensures |sorted| > 0 && SortedByDate(sorted) ==> IsLatestDate(sorted[|sorted| - 1].date, sorted)
  {
    if |sorted| > 0 && SortedByDate(sorted) {
      assert sorted[|sorted| - 1] in sorted;
    }
  }

  /** The card fields written back after the loop: the replayed factor, half-life
      and correct count, the number of reviews, and the date of the last one. */
  function Summarize(s: ReplayState, sorted: seq<Repetition>): (r: CardUpdate)
    ensures r.factor == s.factor && r.halfLife == s.halfLife && r.correctRepetitions == s.correct
    ensures r.totalRepetitions == |sorted|
    ensures r.lastRepetition.None? <==> |sorted| == 0
    ensures SortedByDate(sorted) && r.lastRepetition.Some? ==> IsLatestDate(r.lastRepetition.value, sorted)
  {
    SortedLastIsMax(sorted);
    CardUpdate(s.factor, s.halfLife, |sorted|, s.correct,
               if |sorted| > 0 then Some(sorted[|sorted| - 1].date) else None)
  }

  /** The facts both replays promise about the card update. */
  ghost predicate WellFormedUpdate(errorModel: ErrorModel, reps: seq<Repetition>, r: CardUpdate) {
    && r.totalRepetitions == |reps|
    && r.correctRepetitions == CountCorrect(reps)
    && (|reps| == 0 <==> r.lastRepetition == None)
    && (|reps| == 0 ==> r.factor == 0.0 && r.halfLife == 0.0)
    && (|reps| == 1 ==> r.factor == InitialFactor && r.halfLife == InitialHalfLife)
    && (r.lastRepetition.Some? ==> IsLatestDate(r.lastRepetition.value, reps))
    && (|reps| > 0 ==> MinFactor <= r.factor <= MaxFactor)
    && (|reps| > 0 && ValidErrorModel(errorModel) ==> 0.0 < r.halfLife)
  }

  lemma ProcessWellFormed(errorModel: ErrorModel, origin: DelayOrigin, reps: seq<Repetition>)
    ensures WellFormedUpdate(errorModel, reps, Summarize(Replay(errorModel, origin, SortByDate(reps)), SortByDate(reps)))
  {
    CountCorrectSort(reps);
    if |reps| > 0 {
      SortedLastIsLatest(reps);
    }
  }

  /** `processRepetitions` as written: sort, then replay with every delay measured
      from the first review. */
  function ProcessRepetitions(errorModel: ErrorModel, reps: seq<Repetition>): (r: CardUpdate)
    ensures WellFormedUpdate(errorModel, reps, r)
  {
    var sorted := SortByDate(reps);
    ProcessWellFormed(errorModel, FirstRepetition, reps);
    Summarize(Replay(errorModel, FirstRepetition, sorted), sorted)
  }

  /** The replay with the delay measured from the previous review, as the variable
      name `previousRepetition` and the forgetting curve intend. */
  function ProcessRepetitionsCorrected(errorModel: ErrorModel, reps: seq<Repetition>): (r: CardUpdate)
    ensures WellFormedUpdate(errorModel, reps, r)
  {
    var sorted := SortByDate(reps);
    ProcessWellFormed(errorModel, PreviousRepetition, reps);
    Summarize(Replay(errorModel, PreviousRepetition, sorted), sorted)
  }
}
