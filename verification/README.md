# binder-server scheduling, achievements, images and update stamping in Dafny

This project models the deterministic core of the binder-server flash-card backend:

- **Review replay** (`scheduling.dfy`, `scheduling_properties.dfy`). `processRepetitions` sorts a card's repetitions by date. It then folds them into the card's `factor`, `halfLife`, `totalRepetitions`, `correctRepetitions` and `lastRepetition`. `lerp` and the quadratic factor update are modelled exactly. The forgetting curve `errorProbability` is a function parameter, of which only its range [0, 1) is assumed.
- **Daily repetition counter** (`daily_stats.dfy`). The repetition handler makes two user updates: it initialises the day key to 0 when the key is absent, then adds 1 to it. Both are modelled as map updates, with the day key as an input.
- **Achievement ladder** (`achievements.dfy`). It has three fixed threshold tables, one per metric over the daily counts: the total, the number of days, and the best single day. `Level` is the index of the first threshold above the metric. `UpdateAchievements` emits a level only when it is higher than the stored one. The handler stores the emitted levels.
- **Images in card content** (`images.dfy`):
  - `ListImageIDs` and `Diff`, over a parsed HTML tree;
  - the walk of `ReplaceBase64ImagesWithFileLinks`, with its data-URL slicing. Upload, base64 decoding, uuids and download URLs are oracles in a `Storage` value.
- **Update-document stamping** (`collection.dfy`). `UpdateOne` and `UpdateMany` add `updatedAt`/`createdAt` timestamps to `$set` or `$setOnInsert`. `UpdateById` delegates to `UpdateOne` with the filter `{_id: id}`. The clock is the parameter `now`.

`wrappers.dfy` holds `Option` and `Result`.

Two points of the replay follow the code closely:

- **Usefulness is capped from above only** (internal/rest/cards.go:58-60). The error probability is never negative, so a lower clamp would never apply.
- **The delay anchor never moves.** `previousRepetition` is assigned only when `i == 0` (internal/rest/cards.go:50-55), so every delay is measured from the first review. The variable's name says the delay was meant to be measured from the previous review. This is recorded under Findings.

## Model

| member | source | states |
|---|---|---|
| Scheduling.Lerp | internal/rest/cards.go:20-22 | the result moves from `a` towards `b` by the fraction `t`: equal to `a` at 0 and to `b` at 1 |
| Scheduling.ErrorProbability | internal/rest/cards.go:24-27 | with a non-negative delay and a positive half-life, the forgetting probability lies in [0, 1) |
| Scheduling.Usefulness | internal/rest/cards.go:57-60 | usefulness never exceeds 1.5. It is ten times the error probability unless that is above 1.5, and it is non-negative for a non-negative probability |
| Scheduling.FactorUpdate | internal/rest/cards.go:62-63 | grade 5 rewards the factor by 0.1, grade 4 leaves it, grades 0-3 penalise it |
| Scheduling.ClampFactor | internal/rest/cards.go:64-69 | the factor ends in [1.3, 2.5]; a value inside is kept, one below becomes 1.3, one above becomes 2.5 |
| Scheduling.NextHalfLife | internal/rest/cards.go:71-75 | a failed review halves the half-life and a correct one scales it by the growth; a positive half-life stays positive and a growth of at least 1 never shrinks it |
| Scheduling.LerpOneIsGrowth | internal/rest/cards.go:74 | interpolating from 1 towards a factor of at least 1, with non-negative usefulness, never shrinks the half-life |
| Scheduling.First | internal/rest/cards.go:50-55 | the first review sets factor 2.5, half-life 6.58 days in ms and the anchor date, and is counted if correct |
| Scheduling.Step | internal/rest/cards.go:57-75 | a later review leaves the factor in [1.3, 2.5]. A failure halves the half-life and a success multiplies it by `lerp(1, factor, usefulness)`. With a valid curve and no negative delay, the half-life stays positive and does not drop on success. The anchor stays put as written |
| Scheduling.StepFactorFollowsGrade | internal/rest/cards.go:62-69 | from an in-range factor with non-negative usefulness: grade 4 keeps the factor, grade 5 never lowers it and grades 0-3 never raise it. With positive usefulness the change is strict unless the clamp bound is already reached |
| Scheduling.CountCorrectAppend | internal/rest/cards.go:46-48 | one more review adds one to the correct count exactly when its grade is at least 3 |
| Scheduling.Replay | internal/rest/cards.go:40-76 | replaying a sorted history counts the correct reviews. Empty gives the zero state and one review gives the initial values. A non-empty history gives a factor in [1.3, 2.5] for any curve, and a positive half-life for a valid curve |
| Scheduling.Insert | internal/rest/cards.go:30-38 | inserting into a date-sorted list keeps it sorted and adds exactly that repetition |
| Scheduling.SortByDate | internal/rest/cards.go:30-38 | the result is sorted by date and is a permutation of the input |
| Scheduling.CountCorrectSort | internal/rest/cards.go:43-48 | sorting does not change the number of correct reviews |
| Scheduling.SortedLastIsLatest | internal/rest/cards.go:84-86 | the last sorted review carries the latest date in the history |
| Scheduling.Summarize | internal/rest/cards.go:78-88 | the card gets the replayed factor, half-life and correct count and the number of reviews. `lastRepetition` is present exactly for a non-empty history and, for a sorted one, is its latest date |
| Scheduling.ProcessRepetitions | internal/rest/cards.go:29-89 | totals equal the number of reviews and the number with grade at least 3. Empty history gives factor 0, half-life 0 and no last repetition. One review gives the initial values. `lastRepetition` is the latest date. A non-empty history gives a factor in [1.3, 2.5] for any curve, and a positive half-life for a valid curve |
| Scheduling.ProcessRepetitionsCorrected | internal/rest/cards.go:42-57 | the same promises for the replay whose anchor advances to each review |
| SchedulingProperties.ProcessRepetitionsOrderIndependent | internal/rest/cards.go:30-38 | when no two reviews share a date, the card update depends only on which reviews there are, not on their input order |
| SchedulingProperties.SortByDateOfSorted | internal/rest/cards.go:30-38 | sorting an already sorted history changes nothing |
| SchedulingProperties.ProcessRepetitionsOfSorted | internal/rest/cards.go:29-38 | pre-sorting the history does not change the card update |
| SchedulingProperties.SingleReviewScenario | internal/rest/cards.go:50-55 | one grade-5 review gives factor 2.5, half-life 568512000 ms, one total, one correct and that review's date |
| SchedulingProperties.FailureHalvesScenario | internal/rest/cards.go:71-72 | a grade-1 review a day after the first halves the initial half-life and is not counted as correct |
| SchedulingProperties.ProcessAppendLatest | internal/rest/cards.go:45-76 | a review dated no earlier than all others is sorted last and replays as one more step |
| SchedulingProperties.StepWithoutForgetting | internal/rest/cards.go:57-75 | a correct review with zero error probability leaves an in-range factor and the half-life unchanged |
| SchedulingProperties.StepAfterForgetting | internal/rest/cards.go:57-75 | a correct review with positive error probability strictly grows a positive half-life |
| SchedulingProperties.CorrectedStateAtLatest | internal/rest/cards.go:53 | with the advancing anchor, the replay ends anchored at the latest review |
| SchedulingProperties.CorrectedRepeatIsNeutral | internal/rest/cards.go:53 | with the advancing anchor, repeating a correct review at the latest instant changes neither factor nor half-life |
| SchedulingProperties.AsWrittenRepeatIsNotNeutral | internal/rest/cards.go:42-57 | as written, repeating a grade-5 review at the instant of the latest one, a day after the first, still strictly grows the half-life |
| DailyStats.InitializeDay | internal/rest/cards.go:673-687 | the day key exists afterwards, an existing count is kept, and no other day changes |
| DailyStats.IncrementDay | internal/rest/cards.go:689-699 | the day's count becomes the previous count (0 if absent) plus 1, and no other day changes |
| DailyStats.RecordRepetition | internal/rest/cards.go:673-699 | recording a repetition adds one to the day (starting from 0), adds only that key, and leaves every other day unchanged; no count drops |
| DailyStats.InitializeDayIdempotent | internal/rest/cards.go:675-684 | running the guarded initialisation twice is the same as once |
| Achievements.Total | internal/achievements/main.go:52-58 | the total of non-negative counts is non-negative; `TotalWithout` shows it does not depend on which day is summed first |
| Achievements.TotalWithout | internal/achievements/main.go:52-58 | the total is one day's count plus the total of the other days, whichever day is taken first |
| Achievements.TotalAdd | internal/achievements/main.go:52-58 | adding a new day adds its count to the total |
| Achievements.SumInIterationOrder | internal/achievements/main.go:52-58 | summing the counts in any order in which Go may iterate the map gives the total |
| Achievements.SingleDayMax | internal/achievements/main.go:82-90 | the single-day metric is at least 0, bounds every day's count, and is 0 or some day's count |
| Achievements.MaxInIterationOrder | internal/achievements/main.go:82-90 | the maximum loop, in any iteration order, gives the single-day metric |
| Achievements.SingleDayAtMostTotal | internal/achievements/main.go:52-90 | with no negative counts, the single-day metric never exceeds the total, which is non-negative |
| Achievements.LevelFor | internal/achievements/main.go:100-110 | the level is at most the table length; every earlier threshold is met and the threshold at the level is not |
| Achievements.LevelCountsMetRequirements | internal/achievements/main.go:100-110 | on an ascending table, the level equals the number of thresholds at or below the metric |
| Achievements.LevelMonotone | internal/achievements/main.go:100-110 | a larger metric never gives a lower level |
| Achievements.StepsAscending | internal/achievements/main.go:49-51 | a table whose neighbours increase is ascending |
| Achievements.TablesAscending | internal/achievements/main.go:47-94 | all three threshold tables are strictly ascending |
| Achievements.TotalRepetitionsLevels | internal/achievements/main.go:49-51 | on the total table, 9 gives level 0, 10 gives 1, 25 gives 2, and 10000 or more gives 18 |
| Achievements.Level | internal/achievements/main.go:100-110 | an earned level never exceeds the number of thresholds |
| Achievements.LevelCountsThresholds | internal/achievements/main.go:100-110 | the level an achievement earns is the number of its thresholds the metric reaches |
| Achievements.Emit | internal/achievements/main.go:25-35 | the loop emits at most one update per evaluation |
| Achievements.EmitMembers | internal/achievements/main.go:25-35 | exactly the evaluations whose new level exceeds the current one are emitted, each as `{id, newLevel}` |
| Achievements.EmitConcat | internal/achievements/main.go:25-35 | emitting follows the evaluation order: the updates of a concatenation concatenate |
| Achievements.EmitOne | internal/achievements/main.go:29-34 | one evaluation contributes an update exactly when its level rises, and that update is `{id, newLevel}` |
| Achievements.UpdatesFor | internal/achievements/main.go:22-38 | every update raises some achievement to its earned level. An achievement is updated exactly when its earned level exceeds the stored one. Updates follow the list order, so each achievement appears at most once. Nothing is emitted exactly when no level rises |
| Achievements.UpdateAchievements | internal/achievements/main.go:22-38 | for a user, an achievement is reported exactly when its earned level exceeds the stored one, each report carries the earned level, and the list is empty exactly when no level rises |
| Achievements.ApplyUpdates | internal/rest/cards.go:710-718 | storing updates leaves each stored level either unchanged or equal to the level of an update that names it |
| Achievements.ApplyOtherUpdates | internal/rest/cards.go:710-713 | updates that do not name an achievement leave its stored level unchanged |
| Achievements.ApplyOrderedUpdates | internal/rest/cards.go:710-713 | storing updates that name each achievement at most once sets an achievement to its update's level |
| Achievements.StoredLevelsRatchet | internal/rest/cards.go:708-718 | after the handler stores the emitted levels, each stored level is the larger of the old and the earned level |
| Achievements.UpdatesForIdempotent | internal/achievements/main.go:22-38 | evaluating again after storing the emitted levels emits nothing |
| Achievements.UpdateAchievementsIdempotent | internal/rest/cards.go:708-718 | after the handler stores the updates, calling `UpdateAchievements` on the same statistics reports nothing |
| Achievements.RecordRepetitionTotal | internal/achievements/main.go:52-58 | one more recorded repetition raises the total by exactly one |
| Achievements.RecordRepetitionActiveDays | internal/achievements/main.go:69-71 | one more repetition adds an active day exactly when the day is new |
| Achievements.RecordRepetitionPeak | internal/achievements/main.go:82-90 | one more repetition never lowers the single-day metric, which reaches the day's new count |
| Achievements.RecordRepetitionMetrics | internal/achievements/main.go:52-90 | no metric decreases when a repetition is recorded |
| Achievements.RecordRepetitionNeverLowersLevel | internal/achievements/main.go:100-110 | recording a repetition never lowers any earned level |
| Images.BlobIds | internal/rest/image.go:78-82 | an id is collected exactly when an `az-blob-id` attribute carries it, as many times as such attributes carry it |
| Images.BlobIdsConcat | internal/rest/image.go:78-82 | ids are read attribute by attribute, so the ids of concatenated attribute lists concatenate, in order |
| Images.IdsOfConcat | internal/rest/image.go:76-87 | ids of concatenated node lists concatenate |
| Images.ListImageIds | internal/rest/image.go:71-91 | the walk lists the blob ids of `img` elements in document pre-order, keeping duplicates and descending into `img` children too |
| Images.Without | internal/rest/image.go:99-104 | an id is kept exactly when it is in the list and not in the other list |
| Images.WithoutCounts | internal/rest/image.go:99-112 | a kept id occurs as often as in the input, so duplicates survive |
| Images.WithoutConcat | internal/rest/image.go:99-112 | filtering keeps the input order: it distributes over concatenation |
| Images.WithoutCovered | internal/rest/image.go:99-112 | a list filtered against a list containing all its entries is empty |
| Images.FilterOut | internal/rest/image.go:99-104 | the loop appends exactly the entries `slices.Contains` does not find in the other list, in order |
| Images.Diff | internal/rest/image.go:94-115 | `added` is the new ids less the old ones, `removed` the old ids less the new ones; equal contents give two empty lists |
| Images.IndexOf | internal/rest/image.go:27 | the index is that of the first `;`, or the length when there is none |
| Images.ImageType | internal/rest/image.go:26-27 | the image type is the text between `data:image/` and the first `;` or the end, and contains no `;` |
| Images.FindFrom | internal/rest/image.go:30 | the first occurrence of the marker at or after a position, or none at all |
| Images.Payload | internal/rest/image.go:30 | `[1:]` drops one byte after the first `base64`. A Go panic is reported exactly when no `base64` is followed by a character. When that character is ASCII, the payload is the rest of the text. When it is a multi-byte UTF-8 character, the cut leaves continuation bytes outside the base64 alphabet, and the result is the decode failure `CutCharacter` |
| Images.PayloadCutScenario | internal/rest/image.go:30-34 | `data:image/x;base64é` gives `CutCharacter`, while `data:image/x;base64,QQ==` gives the payload `QQ==` |
| Images.RewriteAttr | internal/rest/image.go:24-44 | a non-image attribute is kept. An inline-image `src` becomes the download URL of `<uuid>.<type>`, with one `az-blob-id` attribute holding that name. It fails only on an inline image: with `Panic` when the payload cannot be sliced, `CutCharacter` when the cut splits a character, `DecodeFailed` when decoding fails, and `UploadFailed` when the upload fails. It succeeds when both succeed |
| Images.RewriteAttrs | internal/rest/image.go:22-46 | the attribute list keeps its length, one id is appended and one uuid used per inline image, and a failure needs an inline image |
| Images.RewriteAttrsStopsAtFirstFailure | internal/rest/image.go:32-40 | the first attribute whose rewrite fails ends the loop, and its failure is the loop's result |
| Images.RewriteAttrsKeepsOthers | internal/rest/image.go:43-44 | every attribute other than an inline-image `src` is unchanged, and only `az-blob-id` attributes are appended |
| Images.RewriteAttrsLinksSources | internal/rest/image.go:43-44 | each inline-image `src` now holds the download URL of a blob whose id was appended |
| Images.RewriteNode | internal/rest/image.go:19-56 | node kind and tag stay. An `img` keeps its children and its non-image attributes and only gains `az-blob-id` attributes. Other nodes keep their attributes and their number of children. A failure of the attribute loop or of the children's walk is the node's failure |
| Images.RewriteChildren | internal/rest/image.go:49-53 | a successful walk over the children keeps their number |
| Images.RewriteChildrenStopsAtFirstFailure | internal/rest/image.go:49-53 | the first child whose walk fails ends the walk, and its failure is the result |
| Images.RewriteChildrenPointwise | internal/rest/image.go:49-53 | after a successful walk, child `i` is the rewrite of input child `i`, started with the uuids the earlier children left unused |
| Images.RewriteCleanIsIdentity | internal/rest/image.go:20-24 | a tree without inline images comes back unchanged and uses no uuid |
| Images.RewriteLeavesClean | internal/rest/image.go:43-44 | when download URLs never look like inline images, a successful rewrite leaves no inline image |
| Images.ReplaceBase64ImagesWithFileLinks | internal/rest/image.go:15-68 | a failure anywhere in the walk is the call's failure. A document without inline images comes back unchanged. When download URLs never look like inline images, a successful rewrite leaves none behind |
| Images.ReplaceIsIdempotent | internal/rest/image.go:15-59 | rewriting a rewritten document again succeeds and changes nothing |
| Collection.WithDefault | internal/mongo/collection.go:181-183 | a field is added only when missing, and no existing field changes |
| Collection.Normalize | internal/mongo/collection.go:180-195 | `$set` present: `updatedAt` added if missing and `$setOnInsert` left alone. Otherwise `$setOnInsert` present: missing `createdAt` and `updatedAt` added, and no `$set` created. Neither present: `$set = {updatedAt: now}`. No existing value is overwritten and no other operator changes |
| Collection.NormalizeFixedPoints | internal/mongo/collection.go:180-195 | a document is left unchanged exactly when it is already normalised |
| Collection.NormalizeNormalizes | internal/mongo/collection.go:180-195 | the result is always normalised |
| Collection.NormalizeIdempotent | internal/mongo/collection.go:180-195 | normalising twice, even at a later time, equals normalising once |
| Collection.UpdateOne | internal/mongo/collection.go:175-204 | the driver gets the caller's filter and options unchanged, and exactly the document `Normalize` stamps. That document is normalised and keeps every field the caller gave, so `Normalize`'s three-branch contract and frame hold for what is sent |
| Collection.UpdateMany | internal/mongo/collection.go:206-235 | `UpdateMany` sends the caller's filter and options and the same document `UpdateOne` would |
| Collection.UpdateById | internal/mongo/collection.go:237-239 | `UpdateById` is `UpdateOne` with the filter `{_id: id}`, forwarding the same document and options |

## Left out

- Floating point: `factor`, `halfLife`, `usefulness` and `lerp` are `float32` in the source and `real` here, so rounding is not modelled.
- `math.Pow`: the forgetting curve is a parameter. Only its range [0, 1) for a non-negative delay and a positive half-life is assumed (`ValidErrorModel`). The Findings lemmas also use `ForgetsOnlyWithTime`: exactly 0 at zero delay, positive after.
- Sorting ties: `slices.SortFunc` (pattern-defeating quicksort) is not stable. The model sorts by insertion, which keeps equal dates in input order. Order independence is proved only for histories with distinct dates.
- The nil branch of the sort comparator: the loop dereferences every entry, so histories are sequences of repetitions.
- Time: Go reads `time.Now()` once per missing field, so `createdAt` and `updatedAt` may differ by nanoseconds. The model uses a single `now`.
- Time zones: resolving the user's zone and formatting the day key (internal/rest/cards.go:625-633) are not modelled; the key is an input string.
- HTML: parsing and rendering (golang.org/x/net/html) are not modelled. The operations take the parsed tree, and the render error path is absent.
- Storage: base64 decoding, the uuid generator, blob upload and the download-URL builder are oracles in `Storage`. Decoding and upload errors are `CutCharacter`, `DecodeFailed` and `UploadFailed`, and abort the whole rewrite. The errors' contents are not modelled.
- Go panics: a data URL without a `base64` followed by at least one character makes Go panic on a slice index. This is modelled as the failure `Panic`. The router is `gin.Default()` (cmd/main.go:43), whose recovery middleware turns the panic into a 500 response; the middleware is not modelled.
- Go maps are references: `UpdateOne`/`UpdateMany` modify the caller's update document in place. The model returns the new document. A nil `bson.M` stored under `$set` or `$setOnInsert` would make Go panic; the model treats every operator value as a map.
- Mongo I/O: the driver calls, contexts, result values and error returns of `UpdateOne`/`UpdateMany` are not modelled; the model returns the request sent.
- Update options: the variadic `*options.UpdateOptions` are carried as opaque `UpdateOptions` documents and forwarded unchanged. What the driver does with them, such as an upsert, is not modelled.
- Concurrency: the two counter updates and the achievement update run inside a transaction; isolation is not modelled.
- `Achievements.UpdateAchievementsIdempotent`: stated on the statistics as stored, i.e. on the user after the counter updates. Re-reading the user from Mongo is not modelled.
- `Images.RewriteChildren`: its own contract states only the count of children. `Images.RewriteChildrenPointwise` links each result child to `Images.RewriteNode` of the input child.
- Go's range loop over a map: the total and the maximum are ghost functions over the map. The methods `SumInIterationOrder` and `MaxInIterationOrder` show that the Go loops give them in any key order.

## Findings

| source | as written | input that shows it | evidently intended | confidence | as-written member | corrected member |
|---|---|---|---|---|---|---|
| internal/rest/cards.go:42-57 | `previousRepetition` is assigned only when `i == 0`, so every review's delay is measured from the first review | grade-5 reviews at 0 and one day, then a third grade-5 review at one day: the third sees a delay of a day and grows the half-life again | each delay is measured from the review before it, so a review repeated at the same instant does not count as delayed | not executed | SchedulingProperties.AsWrittenRepeatIsNotNeutral | SchedulingProperties.CorrectedRepeatIsNeutral |

`Scheduling.ProcessRepetitions` models the code as written. `Scheduling.ProcessRepetitionsCorrected` is the corrected replay: every delay is measured from the review before it. Both carry the same proved contract.
