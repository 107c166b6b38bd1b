/**
 The per-user daily repetition counter kept under `statistics.dailyRepetitions`
 (internal/rest/cards.go, the two user updates of the repetition handler).

 The calendar-day key is an input: resolving the time zone and formatting the
 date belong to Go's `time` package.
 */
module DailyStats {

  /** Repetitions per calendar day, keyed by the `2006-01-02`-formatted day. */
  type DayCounts = map<string, int>

  /** The stored count of a day, or 0 when the key is absent (what `$inc` starts from). */
  function CountOn(counts: DayCounts, day: string): int {
    if day in counts then counts[day] else 0
  }

  /** First update: `$set` the day to 0, guarded by the filter `{day: {$exists: false}}`. */
  function InitializeDay(counts: DayCounts, day: string): (r: DayCounts)
    ensures r.Keys == counts.Keys + {day}
    ensures r[day] == CountOn(counts, day)
    ensures forall d :: d in counts ==> r[d] == counts[d]
  {
    if day in counts then counts else counts[day := 0]
  }

  /** Second update: `$inc` the day by 1. */
  function IncrementDay(counts: DayCounts, day: string): (r: DayCounts)
    ensures r.Keys == counts.Keys + {day}
    ensures r[day] == CountOn(counts, day) + 1
    ensures forall d :: d in counts && d != day ==> r[d] == counts[d]
  {
    counts[day := CountOn(counts, day) + 1]
  }

  /** Recording one repetition: initialise, then increment. */
  function RecordRepetition(counts: DayCounts, day: string): (r: DayCounts)
    ensures r.Keys == counts.Keys + {day}
    ensures r[day] == CountOn(counts, day) + 1
    ensures forall d :: d in counts && d != day ==> r[d] == counts[d]
    ensures forall d :: d in counts ==> counts[d] <= r[d]
  {
    IncrementDay(InitializeDay(counts, day), day)
  }

  /** The guarded initialisation can be repeated, as a concurrent second review
      of the same day would, without changing anything. */
  lemma InitializeDayIdempotent(counts: DayCounts, day: string)
    ensures InitializeDay(InitializeDay(counts, day), day) == InitializeDay(counts, day)
  {
  }
}
