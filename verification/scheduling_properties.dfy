/**
 Properties of the review-history replay that relate several calls:
 independence from the input order, the worked scenarios of the scheduling
 rule, and the consequence of measuring every delay from the first review.
 */
module SchedulingProperties {
  import opened Wrappers
  import opened Scheduling

  /** No two distinct repetitions of the history share a date. */
  ghost predicate DateIdentifies(m: multiset<Repetition>) {
    forall x, y :: x in m && y in m && x.date == y.date ==> x == y
  }

  /** The forgetting curve is exactly 0 without delay and positive with one,
      as `1 - 2^(-delay/halfLife)` is. */
  ghost predicate ForgetsOnlyWithTime(errorModel: ErrorModel) {
    && (forall halfLife: real :: 0.0 < halfLife ==> errorModel(0, halfLife) == 0.0)
    && (forall delay: int, halfLife: real ::
          0 < delay && 0.0 < halfLife ==> 0.0 < errorModel(delay, halfLife))
  }

  lemma DateIdentifiesSub(small: multiset<Repetition>, large: multiset<Repetition>)
    requires small <= large
    requires DateIdentifies(large)
    ensures DateIdentifies(small)
  {
  }

  /** Two date-sorted arrangements of the same repetitions start alike when no two
      repetitions share a date. */
  lemma SortedHeadsEqual(a: seq<Repetition>, b: seq<Repetition>)
    requires SortedByDate(a) && SortedByDate(b)
    requires multiset(a) == multiset(b)
    requires DateIdentifies(multiset(a))
    requires |a| > 0 && |b| > 0
    ensures a[0] == b[0]
  {
    assert a[0] in multiset(b);
    var k :| 0 <= k < |b| && b[k] == a[0];
    assert b[0] in multiset(a);
    var m :| 0 <= m < |a| && a[m] == b[0];
    assert a[0].date <= a[m].date;
    assert b[0].date <= b[k].date;
  }

  lemma TailOfSorted(a: seq<Repetition>)
    requires SortedByDate(a)
    requires |a| > 0
    ensures SortedByDate(a[1..])
    ensures multiset(a[1..]) == multiset(a) - multiset{a[0]}
  {
    assert a == [a[0]] + a[1..];
  }

  /** Two date-sorted arrangements of the same repetitions are the same sequence
      when no two repetitions share a date. */
  lemma {:induction false} SortedPermutationsEqual(a: seq<Repetition>, b: seq<Repetition>)
    requires SortedByDate(a) && SortedByDate(b)
    requires multiset(a) == multiset(b)
    requires DateIdentifies(multiset(a))
    ensures a == b
    decreases |a|
  {
    assert |a| == |multiset(a)| == |multiset(b)| == |b|;
    if |a| > 0 {
      SortedHeadsEqual(a, b);
      TailOfSorted(a);
      TailOfSorted(b);
      DateIdentifiesSub(multiset(a[1..]), multiset(a));
      SortedPermutationsEqual(a[1..], b[1..]);
      assert forall i :: 0 <= i < |a| ==> a[i] == b[i] by {
        forall i | 1 <= i < |a|
          ensures a[i] == b[i]
        {
          assert a[i] == a[1..][i - 1];
          assert b[i] == b[1..][i - 1];
        }
      }
    }
  }

  /** The card update depends only on the multiset of repetitions, not on the order
      the store returned them in, as long as no two repetitions share a date. */
  lemma ProcessRepetitionsOrderIndependent(errorModel: ErrorModel, xs: seq<Repetition>, ys: seq<Repetition>)
    requires multiset(xs) == multiset(ys)
    requires DateIdentifies(multiset(xs))
    ensures ProcessRepetitions(errorModel, xs) == ProcessRepetitions(errorModel, ys)
    ensures ProcessRepetitionsCorrected(errorModel, xs) == ProcessRepetitionsCorrected(errorModel, ys)
  {
    SortedPermutationsEqual(SortByDate(xs), SortByDate(ys));
  }

  lemma {:induction false} InsertLatest(rep: Repetition, sorted: seq<Repetition>)
    requires SortedByDate(sorted)
    requires forall i :: 0 <= i < |sorted| ==> sorted[i].date <= rep.date
    ensures Insert(rep, sorted) == sorted + [rep]
    decreases |sorted|
  {
    if |sorted| > 0 {
      InsertLatest(rep, sorted[1..]);
    }
  }

  /** Sorting an already sorted history changes nothing. */
  lemma {:induction false} SortByDateOfSorted(reps: seq<Repetition>)
    requires SortedByDate(reps)
    ensures SortByDate(reps) == reps
    decreases |reps|
  {
    if |reps| > 0 {
      var init := reps[..|reps| - 1];
      assert reps == init + [reps[|reps| - 1]];
      SortByDateOfSorted(init);
      InsertLatest(reps[|reps| - 1], init);
    }
  }

  /** Sorting the history first changes nothing. The update is independent of
      read order only when no two reviews share a date
      (`ProcessRepetitionsOrderIndependent`). */
  lemma ProcessRepetitionsOfSorted(errorModel: ErrorModel, reps: seq<Repetition>)
    ensures ProcessRepetitions(errorModel, SortByDate(reps)) == ProcessRepetitions(errorModel, reps)
    ensures ProcessRepetitionsCorrected(errorModel, SortByDate(reps)) == ProcessRepetitionsCorrected(errorModel, reps)
  {
    SortByDateOfSorted(SortByDate(reps));
  }

  /** A single correct review at `t0`: initial factor and half-life, one correct
      repetition, last repetition `t0`. */
  lemma SingleReviewScenario(errorModel: ErrorModel, t0: int)
    ensures ProcessRepetitions(errorModel, [Repetition(t0, 5)])
         == CardUpdate(2.5, 568512000.0, 1, 1, Some(t0))
  {
    assert SortByDate([Repetition(t0, 5)]) == [Repetition(t0, 5)];
  }

  /** A grade-5 review followed one day later by a grade-1 review halves the
      initial half-life, whatever the usefulness of the second review. */
  lemma FailureHalvesScenario(errorModel: ErrorModel, t0: int)
    ensures var r := ProcessRepetitions(errorModel, [Repetition(t0, 5), Repetition(t0 + MillisPerDay, 1)]);
            r.halfLife == InitialHalfLife / 2.0 && r.correctRepetitions == 1
            && r.lastRepetition == Some(t0 + MillisPerDay)
  {
    var reps := [Repetition(t0, 5), Repetition(t0 + MillisPerDay, 1)];
    SortByDateOfSorted(reps);
    assert reps[..1] == [Repetition(t0, 5)];
    assert reps[1..] == [Repetition(t0 + MillisPerDay, 1)];
    assert CountCorrect(reps[1..]) == 0;
  }

  /** Appending a review dated no earlier than every other review just runs one
      more step of the replay. */
  lemma ProcessAppendLatest(errorModel: ErrorModel, origin: DelayOrigin, reps: seq<Repetition>, rep: Repetition)
    requires forall i :: 0 <= i < |reps| ==> reps[i].date <= rep.date
    requires |reps| > 0
    ensures SortByDate(reps + [rep]) == SortByDate(reps) + [rep]
    ensures Replay(errorModel, origin, SortByDate(reps + [rep]))
         == Step(errorModel, origin, Replay(errorModel, origin, SortByDate(reps)), rep)
  {
    var sorted := SortByDate(reps);
    assert (reps + [rep])[..|reps|] == reps;
    forall i | 0 <= i < |sorted|
      ensures sorted[i].date <= rep.date
    {
      assert sorted[i] in multiset(reps);
    }
    InsertLatest(rep, sorted);
    assert (sorted + [rep])[..|sorted|] == sorted;
  }

  lemma LatestDateUnique(d1: int, d2: int, reps: seq<Repetition>)
    requires IsLatestDate(d1, reps) && IsLatestDate(d2, reps)
    ensures d1 == d2
  {
    var i :| 0 <= i < |reps| && reps[i].date == d1;
    var j :| 0 <= j < |reps| && reps[j].date == d2;
  }

  /** A correct review at which nothing has been forgotten yet has zero usefulness:
      it keeps the factor (already within its bounds) and the half-life. */
  lemma StepWithoutForgetting(errorModel: ErrorModel, origin: DelayOrigin, s: ReplayState, rep: Repetition)
    requires ErrorProbability(errorModel, s.previous, rep.date, s.halfLife) == 0.0
    requires MinFactor <= s.factor <= MaxFactor
    requires rep.quality >= 3
    ensures Step(errorModel, origin, s, rep).factor == s.factor
    ensures Step(errorModel, origin, s, rep).halfLife == s.halfLife
  {
    var u := Usefulness(ErrorProbability(errorModel, s.previous, rep.date, s.halfLife));
    assert u == 0.0;
    assert Lerp(1.0, Step(errorModel, origin, s, rep).factor, u) == 1.0;
  }

  /** Finding, corrected rule: with the delay measured from the previous review, a
      correct review repeated at the instant of the latest one is weighted by zero
      usefulness and leaves the factor and the half-life unchanged. */
  lemma CorrectedRepeatIsNeutral(errorModel: ErrorModel, reps: seq<Repetition>, latest: int, quality: int)
    requires ValidErrorModel(errorModel) && ForgetsOnlyWithTime(errorModel)
    requires |reps| > 0
    requires IsLatestDate(latest, reps)
    requires quality >= 3
    ensures ProcessRepetitionsCorrected(errorModel, reps + [Repetition(latest, quality)]).factor
         == ProcessRepetitionsCorrected(errorModel, reps).factor
    ensures ProcessRepetitionsCorrected(errorModel, reps + [Repetition(latest, quality)]).halfLife
         == ProcessRepetitionsCorrected(errorModel, reps).halfLife
  {
    var rep := Repetition(latest, quality);
    var sorted := SortByDate(reps);
    ProcessAppendLatest(errorModel, PreviousRepetition, reps, rep);
    CorrectedStateAtLatest(errorModel, reps, latest);
    var s := Replay(errorModel, PreviousRepetition, sorted);
    assert ErrorProbability(errorModel, s.previous, latest, s.halfLife) == 0.0;
    StepWithoutForgetting(errorModel, PreviousRepetition, s, rep);
    var r := Step(errorModel, PreviousRepetition, s, rep);
    assert ProcessRepetitionsCorrected(errorModel, reps + [rep]) == Summarize(r, sorted + [rep]);
    assert ProcessRepetitionsCorrected(errorModel, reps) == Summarize(s, sorted);
  }

  /** With the corrected rule the replay ends anchored at the latest review. */
  lemma CorrectedStateAtLatest(errorModel: ErrorModel, reps: seq<Repetition>, latest: int)
    requires ValidErrorModel(errorModel)
    requires |reps| > 0
    requires IsLatestDate(latest, reps)
    ensures var s := Replay(errorModel, PreviousRepetition, SortByDate(reps));
      s.previous == latest && 0.0 < s.halfLife && MinFactor <= s.factor <= MaxFactor
  {
    var sorted := SortByDate(reps);
    SortedLastIsLatest(reps);
    LatestDateUnique(sorted[|sorted| - 1].date, latest, reps);
  }

  /** A correct review after some forgetting has positive usefulness and strictly
      grows the half-life. */
  lemma StepAfterForgetting(errorModel: ErrorModel, origin: DelayOrigin, s: ReplayState, rep: Repetition)
    requires 0.0 < ErrorProbability(errorModel, s.previous, rep.date, s.halfLife)
    requires 0.0 < s.halfLife
    requires rep.quality >= 3
    ensures s.halfLife < Step(errorModel, origin, s, rep).halfLife
  {
    var r := Step(errorModel, origin, s, rep);
    var u := Usefulness(ErrorProbability(errorModel, s.previous, rep.date, s.halfLife));
    assert 0.0 < u;
    var growth := Lerp(1.0, r.factor, u);
    LerpOneIsStrictGrowth(r.factor, u);
    ScaleStrict(s.halfLife, growth);
  }

  /** Finding, code as written: every delay is measured from the first review, so
      a review repeated at the instant of the latest one (a day after the first)
      still counts as a day late and grows the half-life further. */
  lemma AsWrittenRepeatIsNotNeutral(errorModel: ErrorModel)
    requires ValidErrorModel(errorModel) && ForgetsOnlyWithTime(errorModel)
    ensures var reps := [Repetition(0, 5), Repetition(MillisPerDay, 5)];
            ProcessRepetitions(errorModel, reps + [Repetition(MillisPerDay, 5)]).halfLife
              > ProcessRepetitions(errorModel, reps).halfLife
  {
    var reps := [Repetition(0, 5), Repetition(MillisPerDay, 5)];
    var rep := Repetition(MillisPerDay, 5);
    ProcessAppendLatest(errorModel, FirstRepetition, reps, rep);
    SortByDateOfSorted(reps);
    var s := Replay(errorModel, FirstRepetition, reps);
    assert s.previous == 0;
    assert 0.0 < s.halfLife;
    assert 0.0 < ErrorProbability(errorModel, s.previous, rep.date, s.halfLife);
    StepAfterForgetting(errorModel, FirstRepetition, s, rep);
  }
}
