# A verified model of bubblog-AI's algorithmic cores

bubblog-AI answers questions about a user's blog posts. Between the HTTP routes, the database and the language
models sit a handful of algorithms that decide which text is retrieved, which bytes reach the client and which
answer is stored. This project models them in Dafny and proves what they are for.

| part | modules |
|---|---|
| shared vocabulary | `Options`, `Sequences`, `Utf16`, `StableSort`, `Decimals` |
| hybrid retrieval | `CandidateMerge` (keyed merge by maximum), `HybridSearch` (weights, normalising, blending, the two-a-post cap), `ScoreMeaning` (what a score is made of), `SearchOrder`, `PostAggregation` |
| answer channel | `JsonString` (string literals of RFC 8259, section 7), `SseFormat` (event blocks, a subset of section 9.2 of the WHATWG HTML standard, and the two decoders), `LlmRelay` (incremental re-framing), `AnswerChannel` (the two providers and the whole channel) |
| Korean time | `Calendar` (section 21.4.1 of ECMA-262 on all days), `KstRanges`, `KstWindows`, `TimeLabels` (the label grammar), `KstFilters`, `KstMeaning` (what each filter means) |
| search plan | `PlanExtraction` (the brace scanner), `PlanJson` (printed JSON), `PlanNormalForm`, `PlanMeaning` (what becomes of each field) |
| kept data | `EmbeddingQueue` (the workers' protocol), `EmbeddingJob`, `Chunking`, `AnswerCache`, `AskProtocol` (asks beside each other), `KeysetPaging`, `SessionCursor`, `SessionPages` |

Objects whose methods change fields, and loops that build a result, are classes and methods with loop invariants,
each proved against a function or a relation on values; the theorems are lemmas about those. Text is a sequence of
UTF-16 units where units matter (answers, plans) and a string elsewhere. Scores are reals, instants are integers in
milliseconds, and the host zone is UTC, so that the local fields of a shifted `Date` are Korean wall time.

What the outside world supplies is a parameter: rows with their scores, the cut of a stream into chunks, the
interleaving of workers, the order of a vector index, what a model writes, the tokens of a sentence, the outcome of
`JSON.parse` on anything but a string literal, and which calls fail.

## Main results

- **Retrieval is optimal.** Merged scores are maxima over all kept rows in any order; the fused list is, among all
  selections within the caps, best place by place and in total; it does not change when vector scores are rescaled,
  nor do its scores when rows come in another order. Every score is the weighted mean of its two parts, so that the
  bias alone decides between the best hits of the two kinds.
- **The answer channel is faithful.** For any provider events and any cut of the text into chunks, relay and
  collector read exactly the accepted texts; on blocks of at most one data line the two decoders agree if and only if
  the unfinished tail holds no answer.
- **Months tile time**, quarters and years are made of them, and each window and preset has the extent its name
  promises, with the exact exceptions that the `Date` constructor's two-digit years cause: `today` holds exactly the
  instants of the Korean day, `last_month` exactly those of the month before.
- **A plan is found and normalised.** Field by field the normalised plan is the plan's as far as that is in bounds, with
  exactly the rewrites and keywords that are acceptable while there is room. A printed object is dug out of any text
  whose prefix has no opening brace, and normalising is idempotent if and only if every keyword it accepts would be
  accepted again: none shrinks to one unit (`a` and a zero-width space) or lowers to more than letters (`İa`).
- **No job is lost whose attempt can be read.** Every such payload is in exactly one place in every reachable state and
  taken in order. The system comes to rest if and only if no attempt number is below -2^53 - 2, and tries are bounded.
  A job is done if and only if one of its tries succeeded, and given up after exactly the promised number of failures.
  Retried jobs leave the tables a single success would have left, as long as their post stays the same.
- **The cache stays sound** over any interleaving of the steps of any number of asks with invalidations and deletions,
  and it works: a saved answer is replayed to the next like question in its tone, whatever the models yield.
- **Cursors nearly work.** They keep milliseconds of times the database keeps in microseconds. What a client that
  follows them sees, misses and sees twice is stated exactly: the session list repeats nothing and misses only rows
  its cursors skip, forward messages miss nothing and repeat only after cursors that are not whole.

## Where the source differs from what it says

- `src/utils/time.ts:161` promises `YYYY_to_YYYY`; the pattern below it allows two separator pieces and the form has
  three, so it is not understood (`TimeLabels.UnderscoredPairIsUnknown`).
- Years 0 to 99 given to the `Date` constructor mean 1900 to 1999. Ranges, windows and presets that touch such years
  go wrong; each theorem states the exact condition.
- A cursor carries milliseconds (`src/controllers/session.controller.ts:8-9`), `created_at` has microseconds
  (`docs/migrations/2025-02-ask-session-history.sql:14,33`), and both messages of a turn are created at one instant.
  So a forward page admits its cursor's own row again, and with a page or more of rows off the whole in one millisecond
  the walk never ends (`SessionPages.ForwardRunsEnd`); backward pages of one row lose the question of a turn
  (`SessionPages.QuestionIsLost`); and the session list can skip an older session of the same millisecond
  (`SessionPages.SessionListMissesNothing`).
- A queued payload that is the JSON value `null`, or a job whose attempt has no primitive value, makes the handler throw
  where only the loop catches it: it is neither retried nor put into the failed queue (`EmbeddingQueue.RestMeansSettled`).
- An attempt number below -2^53 - 2 is never brought up to the limit by adding 1, so that a job that keeps failing is
  retried for ever (`EmbeddingQueue.ComesToRest`).
- A title that is blanked while its job backs off stays stored (`EmbeddingJob.BlankedTitleStays`).
- `YYYY_to_now` for a year still to come has its ends reversed (`KstFilters.SinceIsOrdered`).
- Between 26 and 49 tokens, the overlap of a chunk is cut short by a negative slice argument (`Chunking.OverlapLength`).
- A keyword is checked before its zero-width units are stripped and before it is lowered
  (`PlanNormalForm.OneLetterIsDroppedLater`, `PlanNormalForm.DottedIIsDroppedLater`).
- The cursor of a backward message page is its newest row, so the next page repeats all its other rows that this
  cursor does not skip (`KeysetPaging.BackwardPagesOverlap`).
- A job that stores a title and finds the content empty keeps the owner's cached answers (`EmbeddingJob.StaleAnswersGone`).
- An ask for post id 0 searches by category but is cached under the post id, so its row may serve another category
  (`AskProtocol.OnlyPostZeroCrosses`).
- An ask under way when an owner's cached answers are dropped may save an older answer afterwards
  (`AskProtocol.SavedAfterInvalidation`).

## Model

| member | source | states |
|---|---|---|
| CandidateMerge.KeysAreChunks | src/services/hybrid-search.service.ts:124-124 | with a chunk index, two rows share a key if and only if they are the same chunk of the same post, even for post ids with colons |
| CandidateMerge.KeysAreTexts | src/services/hybrid-search.service.ts:124-124 | without one, if and only if post and text agree, for post ids without colons |
| CandidateMerge.VectorStep | src/services/hybrid-search.service.ts:125-131 | folding one more vector row into an entry keeps it the maximum over all rows of its key, 0 without any |
| CandidateMerge.TextStep | src/services/hybrid-search.service.ts:154-160 | the same for text rows, the vector score untouched |
| CandidateMerge.CandidateTable.AddVector | src/services/hybrid-search.service.ts:123-132 | the in-place map stays the merge of all rows seen, in order of first appearance |
| CandidateMerge.CandidateTable.AddText | src/services/hybrid-search.service.ts:152-161 | likewise for text rows, from the question and from rewrites |
| CandidateMerge.ListCandidates | src/services/hybrid-search.service.ts:202-202 | the list holds one merged candidate for each key |
| CandidateMerge.MergeIsOrderFree | src/services/hybrid-search.service.ts:98-200 | merged scores depend only on which rows there are, not on query order, row order or repetition |
| CandidateMerge.FirstSeenKeys | src/services/hybrid-search.service.ts:202-202 | candidates are exactly the keys of the rows, each once |
| HybridSearch.WeightRange | src/services/hybrid-search.service.ts:76-83 | rewrite weights lie in [0.6, 1.2], grow with similarity, and a declarative rewrite never weighs below its floor |
| HybridSearch.WeighRewrites | src/services/hybrid-search.service.ts:61-86 | the index-wise arrays hold the weight and the keep flag of each rewrite, and 1 and true for the question |
| HybridSearch.BlendRange | src/services/hybrid-search.service.ts:203-226 | fused scores lie in [0, 1] |
| HybridSearch.BlendRespectsDominance | src/services/hybrid-search.service.ts:203-226 | a candidate at least as good in both raw scores is never scored below |
| HybridSearch.BlendIsScaleFree | src/services/hybrid-search.service.ts:203-224 | scaling all vector scores by one positive constant changes no fused score |
| HybridSearch.Diversify | src/services/hybrid-search.service.ts:239-248 | the counting loop keeps exactly the first two chunks of each post |
| HybridSearch.DiverseCounts | src/services/hybrid-search.service.ts:239-248 | of each post as many chunks are kept as there are, up to two |
| HybridSearch.RankedIsSelection | src/services/hybrid-search.service.ts:238-250 | the ranking respects both caps, draws only from the candidates, and is in score order |
| HybridSearch.RankedIsBestPlacewise | src/services/hybrid-search.service.ts:238-250 | it is at least as long as any selection within the caps and at least as good at each place |
| HybridSearch.RankedIsBest | src/services/hybrid-search.service.ts:238-250 | no selection within the caps has a higher total |
| HybridSearch.FusedIsOptimal | src/services/hybrid-search.service.ts:202-252 | the final result is an optimal selection of the merged candidates |
| HybridSearch.FusedIsScaleFree | src/services/hybrid-search.service.ts:202-252 | rescaled vector scores give the same chunks in the same order |
| HybridSearch.RunHybridSearch | src/services/hybrid-search.service.ts:27-253 | merges the kept queries' rows by maximum and returns the fused result of that merge |
| ScoreMeaning.VecHitsAre | src/services/hybrid-search.service.ts:98-133 | the vector rows merged are exactly the question's as they are and those of the kept rewrites, each times its weight |
| ScoreMeaning.TextHitsAre | src/services/hybrid-search.service.ts:152-200 | the text rows merged are exactly the question's and those of the kept rewrites whose query did not fail |
| ScoreMeaning.WeightFormula | src/services/hybrid-search.service.ts:75-86 | a rewrite weighs 0.9 and 0.3 times its similarity, a declarative one at least its floor; it is kept from -0.3 on |
| ScoreMeaning.ConstantsAre | src/services/retrieval-presets.ts:9-19 | the vector part's weight and both thresholds, for each bias and any weight given |
| ScoreMeaning.ScoreIsWeightedMean | src/services/hybrid-search.service.ts:203-226 | a score is the mean of its two parts, weighted alpha on the vector part; each part is its place between the extremes of its kind, lifted by 0.1, up to 1, from its threshold on |
| ScoreMeaning.PureVectorHit | src/services/hybrid-search.service.ts:203-224 | the best vector hit without a text hit scores exactly alpha |
| ScoreMeaning.PureTextHit | src/services/hybrid-search.service.ts:203-224 | the best text hit without a vector hit scores exactly 1 - alpha |
| ScoreMeaning.BiasDecides | src/services/hybrid-search.service.ts:35-37 | with no alpha given, the best hit of each kind scores 0.75 and 0.25 when semantic, 0.5 each when balanced, 0.3 and 0.7 when lexical |
| ScoreMeaning.BiasOrdersResult | src/services/hybrid-search.service.ts:212-252 | of a vector hit and a text hit merged after it, the vector hit is first when semantic or balanced and the text hit when lexical, with exactly those scores |
| ScoreMeaning.FullWeight | src/services/hybrid-search.service.ts:224-224 | at alpha 1 the text scores do not matter to the result, at alpha 0 the vector scores do not |
| ScoreMeaning.ResultsAreCandidates | src/services/hybrid-search.service.ts:225-250 | each result shows post, title, text, index and date of its candidate, and its score |
| ScoreMeaning.SizeIsNearest | src/services/hybrid-search.service.ts:250-250 | the result's size is the limit of the call, or of the plan, or 5, brought between 1 and 20 |
| SearchOrder.SearchIsOrderFree | src/services/hybrid-search.service.ts:98-252 | the same rows with chunk indexes, in any order, give results of the same length with the same score at each place |
| SearchOrder.RankingOfPermuted | src/services/hybrid-search.service.ts:238-250 | permuted candidates are ranked with the same score at each place |
| StableSort.SortCorrect | src/services/hybrid-search.service.ts:240-240 | sorting orders and neither loses nor repeats an element |
| StableSort.SortStable | src/services/hybrid-search.service.ts:240-240 | elements that tie keep their order, as JavaScript's sort promises |
| PostAggregation.GroupByPost | src/services/search-aggregate.service.ts:29-34 | the map's entries are the groups of chunks of each post, in order of first appearance |
| PostAggregation.AggregatePosts | src/services/search-aggregate.service.ts:20-61 | the page is the slice of the full ranking, the total the number of distinct posts |
| PostAggregation.PageBounds | src/services/search-aggregate.service.ts:24-25 | the page size is the limit brought between 1 and 10, 10 without one, and the offset is not negative |
| PostAggregation.PostIdsDistinct | src/services/search-aggregate.service.ts:29-34 | posts are exactly those of the chunks, each once |
| PostAggregation.ScoreIsBestAndFifthOfSecond | src/services/search-aggregate.service.ts:38-42 | a post's score is its best chunk score plus a fifth of the second best |
| PostAggregation.PostShowsBest | src/services/search-aggregate.service.ts:38-48 | a post shows title, date, chunk index, text and score of the first of its best chunks |
| PostAggregation.ScoreIsOrderFree | src/services/search-aggregate.service.ts:38-50 | a post's score depends on its chunks only as a multiset |
| PostAggregation.AggregationIsOrderFree | src/services/search-aggregate.service.ts:30-60 | shuffled chunks give the same posts and scores, and the same score at each place of the ranking |
| PostAggregation.RankingIsOrdered | src/services/search-aggregate.service.ts:52-57 | the ranking holds each post once, best score first, newest first among equals |
| PostAggregation.PagesMakeUp | src/services/search-aggregate.service.ts:59-59 | pages at successive offsets concatenate to the ranking |
| JsonString.StringRoundTrip | src/llm/providers/gemini.ts:63-63 | a printed string parses back to itself, lone surrogates included |
| JsonString.EscapedHasNoControl | src/llm/providers/gemini.ts:63-63 | a printed string holds no control unit, so no line break |
| JsonString.PrintedWellFormed | src/llm/providers/gemini.ts:61-63 | a printed string has no lone surrogate, so UTF-8 carries it |
| JsonString.EscapesPrinted | src/llm/providers/gemini.ts:63-63 | which units are printed by a short escape, and which by four lower-case digits |
| JsonString.LiteralsRead | src/utils/sse.ts:24-26 | a literal is read unit by unit: escapes as their values, other units as themselves; raw control units and unknown escapes are refused |
| JsonString.HexRead | src/utils/sse.ts:24-26 | four hexadecimal digits in either case are read as their value |
| SseFormat.ExtractAnswerText | src/utils/sse.ts:1-37 | the nested loops return the answer of each block in order |
| SseFormat.EventNameIs | src/utils/sse.ts:12-15 | the last event line of a block names it, trimmed |
| SseFormat.NoEventName | src/utils/sse.ts:9-15 | without an event line a block has no name |
| SseFormat.CountedExactly | src/llm/index.ts:83-98 | a block answers only if its last event line says so; the relay counts its last data line unless that is blank |
| SseFormat.PayloadIs | src/utils/sse.ts:23-32 | a payload that is a string literal stands for its value |
| SseFormat.FrameRoundTrip | src/utils/sse.ts:12-34 | both decoders read one frame back as exactly its text |
| SseFormat.BlockThenBreak | src/llm/index.ts:79-81 | a delimiter ends a block exactly where it was written |
| SseFormat.PartsAreBlocks | src/llm/index.ts:79-81 | no block of a split text contains or straddles a delimiter |
| Sequences.JoinSplit | src/llm/index.ts:79-81 | splitting loses nothing: joining restores the text |
| Sequences.SplitAppend | src/llm/index.ts:103-107 | later text extends only the last part, even when a delimiter straddles the chunks |
| LlmRelay.Relay.ReadBlock | src/llm/index.ts:83-98 | the relay's reading of one block |
| LlmRelay.Relay.EmitBlocks | src/llm/index.ts:82-100 | blocks are written out in order and their answers counted |
| LlmRelay.Relay.FlushBuffer | src/llm/index.ts:77-101 | all finished blocks leave, the unfinished one stays in the buffer |
| LlmRelay.Relay.OnData | src/llm/index.ts:103-107 | after each chunk, output, buffer and count are those of the whole text received so far |
| LlmRelay.Relay.OnEnd | src/llm/index.ts:108-112 | at the end the unfinished rest is written too |
| LlmRelay.RelayStream | src/llm/index.ts:69-112 | output and count depend only on the concatenated input |
| LlmRelay.CollectAnswer | src/services/qa.v2.service.ts:445-452 | the listener's buffered answer |
| LlmRelay.RelayIsLossless | src/llm/index.ts:77-112 | written text plus buffer is the text received, at every step and at the end |
| LlmRelay.SameReading | src/llm/index.ts:83-98 | on a block with at most one data line both decoders read the same |
| LlmRelay.DecodersAgree | src/llm/index.ts:77-113 | with at most one data line a block, stored and counted text agree if and only if the unfinished tail holds no answer |
| LlmRelay.DecodersOnTwoDataLines | src/utils/sse.ts:12-21 | with two data lines the decoders differ, and how |
| LlmRelay.CoalescingIsFree | src/services/qa.v2.service.ts:445-452 | what is collected does not depend on how the relay's writes are grouped into deliveries |
| AnswerChannel.OpenAiStream.SafeWrite | src/llm/providers/openai-responses.ts:101-107 | writes nothing once the stream is closed |
| AnswerChannel.OpenAiStream.WriteAnswer | src/llm/providers/openai-responses.ts:101-107 | two writes make one frame |
| AnswerChannel.OpenAiStream.Handle | src/llm/providers/openai-responses.ts:101-173 | each event's effect on the stream; none after the closing event |
| AnswerChannel.HandleAll | src/llm/providers/openai-responses.ts:101-173 | over all events the stream holds the accepted texts and at most one closing event |
| AnswerChannel.WireShape | src/llm/providers/openai-responses.ts:101-173 | frames come in order, the closing event last |
| AnswerChannel.AcceptedAre | src/llm/providers/openai-responses.ts:101-173 | the accepted text is everything reported before the first closing event, which alone decides how the stream is closed |
| AnswerChannel.PlainFrame | src/llm/providers/openai-responses.ts:104-105 | an answer without special units is written as it stands, quoted, under its event name |
| AnswerChannel.SlicesCover | src/llm/providers/gemini.ts:59-61 | slices of 1 to 400 units that make up the text |
| AnswerChannel.GeminiStream | src/llm/providers/gemini.ts:59-67 | the loop writes one frame a slice, then the end event |
| AnswerChannel.EndToEnd | src/services/qa.v2.service.ts:445-452 | any events, any cut: counted and stored text are the accepted texts |
| AnswerChannel.CoalescedEndToEnd | src/services/qa.v2.service.ts:445-452 | the same when the relay's writes reach the collector several at a time |
| AnswerChannel.RunChannel | src/llm/index.ts:69-112 | the relay and the collector, chained, return exactly the accepted texts |
| AnswerChannel.GeminiEndToEnd | src/llm/providers/gemini.ts:59-67 | the collected answer is the model's, even where a slice splits a surrogate pair |
| AnswerChannel.WireWellFormed | src/llm/providers/gemini.ts:60-67 | all that either provider writes, closing events included, has a UTF-8 form |
| Calendar.MonthStep | src/utils/time.ts:21-31 | months follow each other without gap, with their usual lengths, across leap years and centuries |
| Calendar.GregorianCycle | src/utils/time.ts:18-23 | four centuries have 146,097 days, and 1972 is a leap year |
| Calendar.MonthOfUnique | src/utils/time.ts:21-22 | a day lies in one month only |
| Calendar.FieldsRoundTrip | src/utils/time.ts:18-19 | a day rebuilt from its fields is the same day |
| Calendar.MakeDayRoundTrip | src/utils/time.ts:18-22 | every proper date is the date of the day it makes |
| Calendar.LaterMonthLaterDay | src/utils/time.ts:21-22 | days are ordered as year, month and date are |
| Calendar.Date.SetDate | src/utils/time.ts:52-52 | the day moves by whole days, the time of day stays |
| Calendar.Date.SetMonth | src/utils/time.ts:85-85 | an overflowing date spills into the next month |
| Calendar.Date.SetFullYear | src/utils/time.ts:86-86 | likewise for 29 February |
| KstRanges.MonthRangeContains | src/utils/time.ts:96-102 | a month range holds exactly the instants of that Korean month |
| KstRanges.QuarterRangeContains | src/utils/time.ts:109-115 | a quarter range holds exactly its three months' instants |
| KstRanges.YearRangeContains | src/utils/time.ts:103-108 | a year range holds exactly that Korean year |
| KstRanges.MonthsTile | src/utils/time.ts:21-22 | every instant lies in exactly one month range, two-digit years aside |
| KstRanges.MonthsMeet | src/utils/time.ts:21-22 | consecutive months meet with a step of one millisecond, with the two exact exceptions |
| KstRanges.MonthsMakeUp | src/utils/time.ts:24-31 | three months make a quarter, four quarters a year |
| KstRanges.RebuiltDay | src/utils/time.ts:18-19 | the start and end of a day are on that day if and only if its year has more than two digits |
| KstRanges.TodayContainsNow | src/utils/time.ts:43-48 | `today` contains the base instant, exactly then |
| KstRanges.ThisMonthContainsNow | src/utils/time.ts:63-67 | `this_month` contains the base instant, exactly then |
| KstWindows.YesterdayMeetsToday | src/utils/time.ts:49-53 | yesterday ends a millisecond before today begins, with the exact exception |
| KstWindows.LastMonthMeetsThisMonth | src/utils/time.ts:68-75 | last month ends a millisecond before this month begins, January included, with the exact exceptions |
| KstWindows.YearsAreMonths | src/utils/time.ts:85-86 | n years back is 12n months back |
| KstWindows.WindowsGrow | src/utils/time.ts:78-90 | each further unit starts the window at least a day earlier |
| KstWindows.MonthOverflow | src/utils/time.ts:85-86 | where a window of months or years starts when the date does not exist there |
| KstWindows.DayWindowsCover | src/utils/time.ts:83-84 | n days or weeks cover exactly n or 7n whole days, if and only if the first day has no two-digit year |
| KstWindows.WindowsNotEmpty | src/utils/time.ts:78-90 | exactly when a window is empty; never from a base in 2000 or later |
| KstWindows.WindowsNest | src/utils/time.ts:78-90 | exactly when a larger window strictly contains a smaller one with the same end |
| KstWindows.CenturiesLaterOrder | src/utils/time.ts:18-19 | rebuilt days of two-digit years keep their order, except that 29 February and 1 March of year 0 coincide |
| TimeLabels.PatternsExclusive | src/utils/time.ts:155-200 | no label matches two patterns, so their order does not matter |
| TimeLabels.MonthLabelRoundTrip | src/utils/time.ts:190-197 | a printed month label is read as that month |
| TimeLabels.QuarterLabelRoundTrip | src/utils/time.ts:173-188 | a printed quarter label is read as that quarter |
| TimeLabels.YearLabelRoundTrip | src/utils/time.ts:199-205 | a printed year is read as that year |
| TimeLabels.PairLabelRoundTrip | src/utils/time.ts:162-171 | a year pair is read as such if and only if one or two separator pieces stand between |
| TimeLabels.SinceLabelRoundTrip | src/utils/time.ts:155-160 | `YYYY_to_now` is read as the years since |
| TimeLabels.SinceRunRoundTrip | src/utils/time.ts:155-160 | before `now` may stand any run of underscores, dashes and `to` |
| TimeLabels.RunsGrow | src/utils/time.ts:155-155 | which runs those are |
| TimeLabels.ShortRunsAre | src/utils/time.ts:162-162 | between two years stand one or two of `.`, `_`, `-` and `to`, and nothing else |
| TimeLabels.QuarterFirstRoundTrip | src/utils/time.ts:181-188 | a quarter before its year, with or without a dash, reads as that quarter |
| TimeLabels.LooseMonthRoundTrip | src/utils/time.ts:190-197 | a month of one or two digits, with or without a dash, reads as the nearest month from 1 to 12 |
| TimeLabels.UnderscoredPairIsUnknown | src/utils/time.ts:161-162 | `YYYY_to_YYYY` is not understood, whatever the comment says |
| KstFilters.DaysBackRange | src/utils/time.ts:54-59 | the mutated `Date` yields the last n days |
| KstFilters.ResolvePreset | src/utils/time.ts:41-77 | the ranges of the named presets |
| KstFilters.ResolveWindow | src/utils/time.ts:78-90 | the mutated `Date` yields the window of the unit |
| KstFilters.ToAbsoluteRangeKst | src/utils/time.ts:36-212 | the whole function, over every kind of filter |
| KstMeaning.TodayIsToday | src/utils/time.ts:48-48 | `today` is a whole day from midnight in Korea, and holds exactly the instants of the base's Korean day if and only if that is in no two-digit year |
| KstMeaning.YesterdayIsBefore | src/utils/time.ts:49-53 | `yesterday` is a whole day, and the one that ends 1 ms before `today` begins, if and only if it is in no two-digit year |
| KstMeaning.LastDaysAreDays | src/utils/time.ts:54-62 | `last_n_days`, for 7, 14 and 30, ends with `today` and has exactly n whole days, if and only if it begins in no two-digit year |
| KstMeaning.ThisMonthIsThis | src/utils/time.ts:63-67 | `this_month` holds exactly the instants of the base's Korean month, if and only if that is in no two-digit year |
| KstMeaning.LastMonthIsBefore | src/utils/time.ts:68-75 | `last_month` holds exactly those of the month before, with the like condition |
| KstMeaning.OtherNamesAreNone | src/utils/time.ts:47-76 | `all`, `all_time` and unknown names are no filter |
| KstMeaning.LabelledPreset | src/utils/time.ts:131-153 | a preset as a label, in any case and with any white space, is that preset |
| KstMeaning.UnknownLabelIsNone | src/utils/time.ts:206-206 | a label of no known form is no filter |
| KstMeaning.RelativeEndsToday | src/utils/time.ts:78-90 | a relative window ends with `today`; fewer than one unit are one |
| KstMeaning.RelativeDays | src/utils/time.ts:83-84 | n days or weeks are exactly n or 7n whole days, if and only if they begin in no two-digit year |
| KstMeaning.RelativeMonths | src/utils/time.ts:85-86 | a window of months or years begins on the same date so many months back, surplus days spilling over |
| KstMeaning.UnknownUnitIsToday | src/utils/time.ts:78-90 | a window of an unknown unit is `today` |
| KstMeaning.MonthIsMonth | src/utils/time.ts:96-102 | a month filter holds exactly the instants of the month nearest to it in its year, or in the current one; a two-digit year means 1900 to 1999 |
| KstMeaning.QuarterIsQuarter | src/utils/time.ts:109-115 | likewise for quarters |
| KstMeaning.YearIsYear | src/utils/time.ts:103-108 | and for years |
| KstMeaning.LabelledYears | src/utils/time.ts:155-171 | `YYYY_to_now` runs from that year's begin to `today`'s end, a year pair from the earlier year's begin to the later one's end |
| KstMeaning.AbsoluteIsItself | src/utils/time.ts:91-95 | an absolute filter is its own range if both ends are dates, and else none |
| KstMeaning.PresetsArePresent | src/utils/time.ts:41-77 | on any day near enough to be printed every preset resolves |
| KstMeaning.WindowsArePresent | src/utils/time.ts:78-90 | so does every relative window of up to 10,000 units |
| KstMeaning.MonthsArePresent | src/utils/time.ts:96-115 | and every month, quarter and year from -100,000 to 100,000 |
| KstFilters.LabelsAgreeWithFilters | src/utils/time.ts:96-205 | month, quarter and year labels resolve as the structured filters do |
| KstFilters.PairIsHull | src/utils/time.ts:164-171 | a year pair gives the same range in either order, the hull of both years with the exact exception |
| KstFilters.SinceIsOrdered | src/utils/time.ts:155-160 | `YYYY_to_now` has ordered ends if and only if the year has begun |
| KstFilters.ResolvedIsStable | src/utils/time.ts:91-95 | a resolved filter resolves to itself on any later day |
| PlanExtraction.ExtractObject | src/services/search-plan.service.ts:121-155 | the scanner loop returns the first balanced stretch that parses, else the stretch to the last brace |
| PlanExtraction.ExtractedExactly | src/services/search-plan.service.ts:121-155 | the whole text if it parses, else the first balanced stretch from the first opening brace that parses, else the stretch up to the last closing brace, else nothing |
| PlanExtraction.ExtractedWasParsed | src/services/search-plan.service.ts:121-155 | a result was parsed from the text or a stretch of it between braces |
| PlanExtraction.NodeScan | src/services/search-plan.service.ts:131-148 | well-formed text inside a group, strings with braces and escapes included, closes nothing |
| PlanExtraction.GroupIsFound | src/services/search-plan.service.ts:126-149 | after a brace-free prefix the first balanced stretch is exactly the group, whatever follows |
| PlanJson.PrintedNodes | src/services/search-plan.service.ts:131-148 | every printed JSON value is such well-formed text |
| PlanJson.PrintedObjectIsFound | src/services/search-plan.service.ts:121-155 | a printed object in surrounding text is found as exactly itself |
| PlanNormalForm.CleanList | src/services/search-plan.service.ts:274-286 | the loop over a Set yields the distinct lowered entries, cut to the limit |
| PlanNormalForm.CleanKeywords | src/services/search-plan.service.ts:288-308 | likewise for keywords, with their own conditions |
| PlanNormalForm.NormalizePlan | src/services/search-plan.service.ts:253-345 | the step-by-step assignments yield the normalised plan |
| PlanMeaning.FieldsKept | src/services/search-plan.service.ts:323-345 | mode, sort, switch and bias are the plan's; numbers within bounds are, others go to the nearest bound, 0 to 5 for counts; a missing alpha is the preset's |
| PlanMeaning.WeightsKept | src/services/search-plan.service.ts:253-255 | the weights sum to 1 and keep their proportion; without any they are 0.7 and 0.3 |
| PlanMeaning.TimeKept | src/services/search-plan.service.ts:309-321 | a time filter is there if and only if the plan's resolves, and is then that range |
| PlanMeaning.RewritesKept | src/services/search-plan.service.ts:274-286 | exactly those rewrites are in the list, trimmed and lowered, that have two units, are no filler word and come before the list is full |
| PlanMeaning.KeywordsKept | src/services/search-plan.service.ts:288-308 | exactly those keywords, stripped and lowered, that are one token of two units, of allowed letters, no filler word, and come before the list is full |
| PlanMeaning.RewriteKeyIs | src/services/search-plan.service.ts:276-284 | when a rewrite is accepted, and as what |
| PlanMeaning.KeywordKeyIs | src/services/search-plan.service.ts:290-304 | when a keyword is accepted, and as what |
| PlanMeaning.StopwordsAre | src/services/search-plan.service.ts:262-272 | the filler words |
| PlanNormalForm.DistinctKeys | src/services/search-plan.service.ts:275-285 | a cleaned list holds exactly the accepted entries, none twice |
| PlanNormalForm.DistinctInOrder | src/services/search-plan.service.ts:275-285 | and in order of first appearance |
| PlanNormalForm.RewriteKeyFixed | src/services/search-plan.service.ts:276-284 | a cleaned rewrite is accepted again unchanged |
| PlanNormalForm.KeywordKeyFixed | src/services/search-plan.service.ts:290-304 | a cleaned keyword is accepted again if and only if it still has two units and allowed letters |
| PlanNormalForm.KeptKeywordsLast | src/services/search-plan.service.ts:288-308 | the kept keywords all have two units and allowed letters if and only if those accepted before the list is full have, stripped and lowered |
| PlanNormalForm.OneLetterIsDroppedLater | src/services/search-plan.service.ts:296-299 | a keyword that does not survive a second pass |
| PlanNormalForm.DottedIIsDroppedLater | src/services/search-plan.service.ts:299-300 | another: `İa` lowers to a text with a combining dot |
| PlanNormalForm.AsciiLowers | src/services/search-plan.service.ts:281-302 | lowering the letters of ASCII meets all that is assumed of lowering |
| PlanNormalForm.NormalizedIsNormal | src/services/search-plan.service.ts:253-345 | weights sum to 1, every bound holds, lists are distinct and short enough, time is absolute or absent |
| PlanNormalForm.NormalizeTwice | src/services/search-plan.service.ts:253-345 | normalising is idempotent, on any later day, if and only if every keyword of the plan accepted before the list is full still has two units and allowed letters when stripped and lowered |
| EmbeddingQueue.PlacesStep | src/worker/queue-consumer.ts:172-259 | each step keeps every payload in as many places as before, being dropped counted as one; a new job adds its one |
| EmbeddingQueue.StepInv | src/worker/queue-consumer.ts:172-259 | each step keeps conservation, order and the attempt counts |
| EmbeddingQueue.OnlyUnreadableLostStep | src/worker/queue-consumer.ts:172-191 | each step drops nothing but payloads whose attempt cannot be read, and brings those to no end |
| EmbeddingQueue.RunsKeepInv | src/worker/queue-consumer.ts:172-259 | so does every run of any number of workers |
| EmbeddingQueue.AttemptsAreBounded | src/worker/queue-consumer.ts:172-229 | in every reachable state a payload whose attempt can be read is in exactly one place, and one that is not hopeless has been tried at most max(1, maxRetries - first attempt) times |
| EmbeddingQueue.OutcomesDecide | src/worker/queue-consumer.ts:192-228 | in every reachable state a job is done if and only if a try of it succeeded, and failed if and only if all its tries failed and the last brought it to the limit, which is exactly max(1, maxRetries - first attempt) tries, one less for -2^53 - 2 |
| EmbeddingQueue.GivenUpAfter | src/worker/queue-consumer.ts:200-227 | how many failures a job that is not hopeless is given |
| EmbeddingQueue.PopTakesOldest | src/worker/queue-consumer.ts:240-244 | a pop takes the oldest waiting push |
| EmbeddingQueue.PopsFollowPushes | src/worker/queue-consumer.ts:208-244 | over any run pops return the pushes in order: no retry overtakes a waiting job |
| EmbeddingQueue.MeasureShrinks | src/worker/queue-consumer.ts:172-259 | without new and hopeless jobs every step brings the system nearer to rest |
| EmbeddingQueue.RunsAreFinite | src/worker/queue-consumer.ts:232-253 | so such runs are bounded by the measure |
| EmbeddingQueue.ComesToRest | src/worker/queue-consumer.ts:200-219 | without new jobs the workers can go on for ever if and only if some job is hopeless, its attempt number being below -2^53 - 2 |
| EmbeddingQueue.PlusOneGrows | src/worker/queue-consumer.ts:201-201 | where adding 1 to an attempt number, as a double, brings it on |
| EmbeddingQueue.RestMeansSettled | src/worker/queue-consumer.ts:172-253 | at rest a payload is done or failed if and only if its attempt could be read |
| EmbeddingQueue.EmbeddingWorker.HandlePayload | src/worker/queue-consumer.ts:172-229 | after a success the job is done; after a failure it is queued again with its next attempt, below the limit, or else first in the failed list; a malformed payload is in the failed list at once |
| EmbeddingQueue.EmbeddingWorker.Drain | src/worker/queue-consumer.ts:232-253 | a single worker without hopeless jobs comes to wait on an empty queue; a job is done if and only if one of its tries, as `outcome` decides them, succeeded, and failed if and only if it was given up |
| EmbeddingJob.JobTables.ProcessJob | src/worker/queue-consumer.ts:53-151 | a job's effect on titles, chunks and cached answers under any failures |
| EmbeddingJob.FlagIsSet | src/worker/queue-consumer.ts:59-67 | a flag is set if and only if it is true or the word `true` in any case between any white space |
| EmbeddingJob.JobSucceeds | src/worker/queue-consumer.ts:53-151 | exactly when a job succeeds |
| EmbeddingJob.JobWrites | src/worker/queue-consumer.ts:92-133 | a successful job stores the trimmed title and the chunks it was asked for and that are there, of its post and no other |
| EmbeddingJob.ChunksAre | src/worker/queue-consumer.ts:88-125 | the chunks are those of the trimmed content, none when it is blank |
| EmbeddingJob.StaleAnswersGone | src/worker/queue-consumer.ts:93-150 | when a successful job leaves no cached answer of the owner, exactly |
| EmbeddingJob.JobKeepsAnswersSound | src/worker/queue-consumer.ts:133-150 | the cache stays sound and other owners' rows stay |
| EmbeddingJob.SuccessOverwrites | src/worker/queue-consumer.ts:93-131 | what a success writes does not depend on what tries before it left |
| EmbeddingJob.RetryConverges | src/worker/queue-consumer.ts:188-229 | tries with changing posts and faults end, at the first success, as if that had been the only try, but for a title or chunks that an earlier try came to write and it does not |
| EmbeddingJob.RetryOfSamePost | src/worker/queue-consumer.ts:188-229 | with unchanged posts the tables are those of a single success |
| EmbeddingJob.BlankedTitleStays | src/worker/queue-consumer.ts:93-105 | a title blanked while the job backs off stays stored |
| EmbeddingJob.StoredChunksHoldTheText | src/worker/queue-consumer.ts:116-131 | the stored chunks hold exactly the text's tokens |
| Chunking.ChunkText | src/services/embedding.service.ts:19-43 | the loop cuts the token stream as specified |
| Chunking.ChunkingIsGreedy | src/services/embedding.service.ts:28-43 | every sentence but one that opens a chunk fitted when it was added, and a chunk is closed only because the next did not fit |
| Chunking.OverlapLength | src/services/embedding.service.ts:36-36 | overlaps are at most 50 tokens, and when they fall short |
| Chunking.ChunksRebuild | src/services/embedding.service.ts:28-43 | from any buffer on, dropping the overlaps rebuilds buffer and remaining tokens |
| Chunking.ChunkingLosesNothing | src/services/embedding.service.ts:19-43 | dropping the overlaps rebuilds the token stream; each chunk starts with the tail of the one before |
| Chunking.ChunksAreBounded | src/services/embedding.service.ts:32-39 | no chunk is over max(512, 50 + longest sentence) |
| Chunking.EmptyChunks | src/services/embedding.service.ts:28-43 | only the first chunk can be empty, exactly when the text opens with an overlong sentence |
| AnswerCache.PersistKeepsInv | src/services/session-history.service.ts:86-126 | storing a fitting answer keeps every cache row sound, and fails as a whole for a deleted session |
| AnswerCache.PersistAddsOneTurn | src/services/session-history.service.ts:86-126 | storing adds one question, one non-empty answer and the row that ties them, or nothing |
| AnswerCache.InvalidationKeepsInv | src/repositories/ask-question-cache.repository.ts:164-167 | dropping an owner's rows keeps the others sound |
| AnswerCache.DeletionKeepsInv | src/repositories/ask-session.repository.ts:209-215 | deleting a session keeps the rows sound, and no message of it is left |
| AnswerCache.CacheServesOwnScope | src/services/session-history.service.ts:145-181 | what the cache offers is the text of an answer generated for the same owner and scope, in the tone it is offered in |
| AnswerCache.FirstInToneIsThere | src/services/session-history.service.ts:36-49 | the matching candidate has the requested tone, and there is none exactly if no candidate has it |
| AnswerCache.ChoiceFits | src/services/qa.v2.service.ts:174-221 | replay, tone rewrite and fresh generation all yield an answer in the requested tone that fits the request |
| AnswerCache.ChosenExactly | src/services/qa.v2.service.ts:174-221 | the first candidate in the requested tone is replayed whatever the models yield; else the rewrite of the first candidate, if it succeeds, else the generation; nothing exactly if all three are missing |
| AnswerCache.CachedExactly | src/services/session-history.service.ts:145-181 | what is offered is exactly the answers to the first three ranked questions of owner and scope, as far as they reach 0.93 and their messages are there |
| AnswerCache.FirstOffered | src/services/session-history.service.ts:152-180 | an answer whose question is ranked first is offered first |
| AnswerCache.AskTables.InsertMessage | src/repositories/ask-message.repository.ts:44-72 | a new message under a new id |
| AnswerCache.AskTables.UpsertEmbedding | src/repositories/ask-question-cache.repository.ts:45-104 | the row of a message, keeping owner and requester on conflict |
| AnswerCache.AskTables.DeleteEmbeddingsByOwner | src/repositories/ask-question-cache.repository.ts:164-167 | removes exactly the owner's rows and counts them |
| AnswerCache.AskTables.DropSession | src/repositories/ask-session.repository.ts:209-215 | removes the session's messages and, with its questions, their rows |
| AnswerCache.AskTables.PersistConversation | src/services/session-history.service.ts:72-127 | the tables after storing a turn |
| AnswerCache.AskTables.FindCachedAnswer | src/services/session-history.service.ts:145-181 | the hydrated candidates, in the index's order |
| AnswerCache.AskTables.AnswerAsk | src/services/qa.v2.service.ts:165-221 | replay, rewrite or fresh answer, as the specification branches |
| AskProtocol.StepKeepsInv | src/services/qa.v2.service.ts:93-221 | every step of any ask, every invalidation and every deletion keeps the tables sound and the other asks on track |
| AskProtocol.RunsKeepInv | src/services/qa.v2.service.ts:93-221 | so does every interleaving of any number of asks |
| AskProtocol.CacheIsSound | src/services/qa.v2.service.ts:93-221 | in every reachable state each row's question and answer share a session, and the answer has the row's owner, tone and, unless the post id is 0, scope |
| AskProtocol.SaveAddsOneTurn | src/services/qa.v2.service.ts:121-137 | in every reachable state what a save adds is one turn of its ask, in the requested tone, or nothing |
| AskProtocol.SavedAnswerIsOffered | src/services/session-history.service.ts:145-181 | after a save, as long as owner and session are left alone, an ask alike whose ranking begins with that question at 0.93 or more is offered the saved answer first; below, never |
| AskProtocol.SavedAnswerIsReplayed | src/services/qa.v2.service.ts:165-193 | so an ask in the same tone stores the saved text again, whatever the models yield |
| AskProtocol.DroppedStaysEmpty | src/repositories/ask-session.repository.ts:209-215 | once a session is deleted no message of it is ever there again, whatever asks are still under way |
| AskProtocol.AsksEndOnce | src/services/qa.v2.service.ts:93-221 | an ask is saved or abandoned at most once each time it began |
| AskProtocol.UninterruptedAsk | src/services/qa.v2.service.ts:155-221 | an ask whose steps follow each other directly does what the one-step specification says |
| AskProtocol.SavedAfterInvalidation | src/worker/queue-consumer.ts:133-150 | after an owner's cache is dropped a save brings rows of the owner back if and only if it is of that owner and has something to store |
| AskProtocol.OnlyPostZeroCrosses | src/repositories/ask-question-cache.repository.ts:131-141 | a request can be offered an answer of another scope in some reachable state if and only if its post id is 0 |
| KeysetPaging.PageUnique | src/repositories/ask-session.repository.ts:119-150 | the query has at most one answer |
| KeysetPaging.PageExists | src/repositories/ask-session.repository.ts:119-150 | and at least one |
| KeysetPaging.CutCursor | src/controllers/session.controller.ts:8-23 | exactly which older rows a cursor cut to its millisecond skips going backward, and which it replays going forward |
| KeysetPaging.CursorAdmitsItself | src/repositories/ask-message.repository.ts:116-119 | a forward cursor admits its own row if and only if that is off the whole millisecond; a backward cursor never does |
| KeysetPaging.SentAdvances | src/repositories/ask-session.repository.ts:119-126 | backward cursors move strictly on |
| KeysetPaging.SessionWalkOrdered | src/repositories/ask-session.repository.ts:119-150 | whatever comes and goes between pages, a walk through sessions is in order |
| KeysetPaging.SessionWalkShows | src/repositories/ask-session.repository.ts:119-150 | an ended walk has shown a row that was there throughout if and only if no cursor skipped it |
| KeysetPaging.ForwardWalkIsComplete | src/repositories/ask-message.repository.ts:111-138 | an ended forward walk has shown every row that was there throughout |
| KeysetPaging.ForwardWalkOrdered | src/repositories/ask-message.repository.ts:111-138 | a forward walk is in order if and only if no cursor replays an older row |
| KeysetPaging.ForwardWalkRepeats | src/repositories/ask-message.repository.ts:111-138 | on an unchanged table it repeats no row if and only if all its cursors are on whole milliseconds |
| KeysetPaging.BackwardWalkShows | src/controllers/session.controller.ts:128-132 | an ended backward walk has shown every row that had, at each request, less than a page of newer rows in its millisecond or was not skipped by the newest |
| KeysetPaging.BackwardWalkHides | src/controllers/session.controller.ts:128-132 | a row with a page of them or more, skipped by the newest, at each request is never shown |
| KeysetPaging.BackwardWalkExact | src/controllers/session.controller.ts:128-132 | on an unchanged table exactly which rows an ended backward walk has shown |
| KeysetPaging.BackwardPagesOverlap | src/controllers/session.controller.ts:128-132 | exactly which rows of a backward page the next one repeats, and when the two are disjoint |
| KeysetPaging.BackwardWalksEnd | src/controllers/session.controller.ts:73-77 | on an unchanged table a backward walk takes at most one request more than there are rows |
| KeysetPaging.ForwardWalkIsStuck | src/repositories/ask-message.repository.ts:116-119 | a forward walk never ends before a millisecond with a page or more of rows off the whole millisecond |
| KeysetPaging.ForwardWalksEnd | src/repositories/ask-message.repository.ts:111-138 | with less than a page of rows in every millisecond, or of rows off it where the row on it has the smaller id, a forward walk ends after at most one request more than there are rows |
| SessionCursor.IsoRoundTrip | src/controllers/session.controller.ts:8-16 | a printed instant reads back as itself |
| SessionCursor.CursorRoundTrip | src/controllers/session.controller.ts:8-23 | decoding an encoded cursor gives its row cut to the millisecond, so the row itself if and only if it is on one |
| SessionCursor.PrintableRange | src/controllers/session.controller.ts:8-9 | every instant a date can hold can be printed |
| SessionPages.CursorIsUnderstood | src/controllers/session.controller.ts:58-77 | a cursor the server made is never refused, and yields the page after its row as cut |
| SessionPages.CursorIsRefused | src/controllers/session.controller.ts:11-23 | a text without a bar, or with nothing before its first bar or after it up to the next, is refused |
| SessionPages.ZeroIdStartsOver | src/repositories/ask-session.repository.ts:119-126 | the session list takes a cursor with id 0 for none |
| SessionPages.PageIsSent | src/controllers/session.controller.ts:65-82 | a page is sent newest first for sessions and oldest first for messages, and tells of more exactly if it is full |
| SessionPages.RunIsWalk | src/controllers/session.controller.ts:65-77 | a client following cursor texts performs a walk |
| SessionPages.EndIsTold | src/controllers/session.controller.ts:73-82 | there is no next cursor if and only if the walk has ended |
| SessionPages.ListingIsExact | src/controllers/session.controller.ts:50-83 | such a client sees no session twice and all in order, and at the end exactly those there throughout that no cursor skips |
| SessionPages.SessionListMissesNothing | src/controllers/session.controller.ts:50-83 | with every accepted limit it sees all of an unchanged table if and only if no row of it skips another |
| SessionPages.LosingRun | src/controllers/session.controller.ts:73-77 | where a row skips another, a run page by page of one row ends without some row |
| SessionPages.ForwardListing | src/controllers/session.controller.ts:121-140 | listing messages forward it sees at the end every row there throughout, and rows in order if and only if no cursor replays one |
| SessionPages.ForwardListingRepeats | src/controllers/session.controller.ts:121-140 | on an unchanged table none twice if and only if its cursors are whole |
| SessionPages.ForwardListingNeverRepeats | src/controllers/session.controller.ts:121-140 | with every accepted limit none twice, and every listing can end, if and only if all rows are on whole milliseconds |
| SessionPages.RepeatingRun | src/controllers/session.controller.ts:128-140 | with a row off the whole millisecond a run page by page of one row repeats a row |
| SessionPages.BackwardListing | src/controllers/session.controller.ts:121-140 | listing messages backward, on changing tables, which rows it surely sees and which it surely does not |
| SessionPages.BackwardListingIsComplete | src/controllers/session.controller.ts:121-140 | and exactly which on an unchanged one |
| SessionPages.QuestionIsLost | src/services/session-history.service.ts:88-123 | a question created at one instant with its answer is never shown backward with pages of one row |
| SessionPages.RunsEnd | src/controllers/session.controller.ts:73-82 | on an unchanged table a backward run is done after at most one request more than there are rows |
| SessionPages.ForwardRunsEnd | src/controllers/session.controller.ts:128-140 | for one limit, a forward run can end if and only if every millisecond has less than a page of rows off it, where the row on it has the smaller id |

## Left out

- CandidateMerge.KeysAreChunks: does not hold for global searches, whose text rows carry no chunk index while vector rows do; merging is then by text and the two kinds do not meet.
- HybridSearch.WeightRange: takes the cosine similarity as given, and whether a rewrite is declarative as a flag; dot products, norms and the Korean sentence endings are not modelled.
- HybridSearch.RunHybridSearch: takes the rows of each query as given; the boost counters and the debug log are not modelled.
- PlanNormalForm.NormalizeTwice: takes `toLowerCase` and the test for letters and digits as given functions on texts; of the former it assumes what PlanNormalForm.IsLowering says, which PlanNormalForm.AsciiLowers shows can be met.
- PlanJson.PrintedObjectIsFound: takes `JSON.parse` as a given parser that reads the printed object and not the whole text.
- AnswerChannel.RunChannel: takes each write of the relay as one delivery, and AnswerChannel.CoalescedEndToEnd any grouping of whole writes; a delivery that cuts a write in two is not modelled on that side.
- AnswerChannel.OpenAiStream.Handle: takes deltas as text; deltas that are objects, and the answer of a call without streaming, are not modelled.
- Chunking.ChunkText: takes the tokens of each sentence as given and keeps chunks as tokens; sentence splitting, encoding and decoding are not modelled.
- AskProtocol.CacheIsSound: says nothing for rows with post id 0 about their category, because there the property fails.
- AnswerCache.AskTables.PersistConversation: does not touch the session's time of the last question, which nothing here reads; the foreign key of a deleted session is written out as a branch.
- SessionCursor.CursorRoundTrip: works on the text before Base64; texts that no server made are not read exactly as JavaScript reads them (other number and date formats, fields out of range).
- SessionPages.ForwardRunsEnd: is exact for tables on which a row on a whole millisecond has a smaller id than the later rows of that millisecond; for others less than a page of rows in each millisecond is shown to be enough, and less than a page of rows off it to be needed.
- EmbeddingQueue.EmbeddingWorker.Drain: ends where the source goes on to wait for the next job, and says nothing of queues with hopeless jobs, where it may not end.
- EmbeddingQueue.AttemptsAreBounded: takes attempt numbers and the number of retries as whole, the latter within 2^53; attempts that convert to no number (the first failure is then final), to a fraction or to an infinity are not modelled.
- EmbeddingJob.RetryConverges: lets posts change between the tries, but no other job change the tables.
- KstFilters.ToAbsoluteRangeKst: takes integers for years, months, quarters and values; unparsable numbers and dates, and intermediate dates beyond the limits of ECMA-262, are not modelled.
- Floating-point rounding: scores and weights are reals.
- SQL ranking, trigram and vector similarity, embeddings: their results are arbitrary rows with scores.
- The owner filter of the session list and the session filter of messages: a table is the rows that pass them.
- Transactions spread over a connection pool: a failed write of chunks may leave the old ones deleted, and nothing else.
- Redis failures, process crashes and shutdown in the worker: a popped job would be lost.
- Freshness of cached answers: none is claimed.
- Trimming of a fresh answer before it is stored: the stored text is given.
- The `session_saved` event: it is also sent for an empty answer, for which nothing is stored.
- Search plans and retrieval data stored beside messages: payloads that are passed through.
- The calls to other models when no plan can be parsed, and the prompts: no algorithm.
- The schema's own checks and defaults: plans enter the model after them.
- `perPostMax` of the post aggregation: computed and never used.
- src/services/qa.service.ts: the same cache and stream logic as qa.v2.service.ts.
- Routes, authentication, configuration, token counts, costs and logs: plumbing.
