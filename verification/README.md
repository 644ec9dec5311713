# Verified model of the atlas-go schedulers, caches and backfills

This project models the stateful and date-arithmetic parts of atlas-go: the tasks that decide
when to fetch, the tools that merge and backfill data files, the per-stock industry cache, the
drift log, the request timeout wrapper, and the client helpers of `scripts/jevkit.py`. Whatever
lies behind a package boundary (store, provider, importer, HTTP service, clock) is a parameter
whose answers are arbitrary. `dafny verify dfyconfig.toml` checks everything.

How the pieces are modelled:

- Code that updates state in place is a class (`SblTask.Task`, `HistoryCursor.Backfill`,
  `IndustryCache.Substrate`, `RequestTimeout.TimeoutResponseWriter`, `DriftLog.Recorder`,
  `ReplaySync.Replay`, `OutcomePeriod.OutcomesTable`, `PeriodHistory.Store`). Each method's
  contract gives the whole new state through a specification function, and the lemmas about
  whole runs are about that function.
- Concurrency is a step relation: one step for each critical section and for each access outside
  it, in any order (`IndustryCacheInterleavings`, `RequestTimeout`). A crash is a step that may
  follow any other (`DriftLog`).
- A time is an instant in seconds with a fixed zone offset, so Asia/Taipei is UTC+8. Dates are
  day numbers, tied to Go's `2006-01-02` strings by a proved one-to-one, order-preserving
  correspondence (`Calendar`, `DateText`).
- Strings compare character by character; where bytes matter a char stands for a byte.

Where the code and its own comments disagree, the model follows the code. The differences found,
each with the exact condition under which the documented behaviour does hold:

- `CoverageAsOf` documents "no instant" as "the view is empty". After an invalidation not yet
  followed by a successful load the old view is still served (`UndatedYetServedIff`).
- `Invalidate` is called so that new rows are visible at once. A load that read before the write
  can still install the old rows as fresh ones (`InvalidationTakesEffectIff`).
- The quota deferral is commented as preventing hourly retries for the rest of the day. The gate
  stays open that day (`DeferralLeavesTheGateOpen`), and a Friday's deferral is never caught up.
- FinMind symbols foreign to the replay target must not leak in. With an empty target, or a
  flag of commas and blanks, they all do (`ForeignSymbolsStayOutIff`).
- The history backfill is to get every day from 2026-03-01 on. Its providers step from the
  cursor's time of day, so a chunk cut at the present earlier in the day than its cursor never
  reaches its own last day, and the cursor passes over it (`CommittedChunksTileIff`,
  `DayPassedOver`).
- The replay backfill is to fetch every missing trading day. One for which the upstream has
  nothing, in a fetch that goes on to record a later one, is never asked for again
  (`NonePassedOverIff`, `EmptyDayIsPassedOver`).
- "Any disagreement converges" compares newest dates only: corrected rows behind the newest date
  are not carried over (`ContentConvergesIff`).
- A drift record longer than the scanner's buffer makes the log unreadable, and every later record
  call fails (`ReadableIff`, `UnreadableForGood`). A carriage return at the end of an initial line
  is lost in rewriting (`LogIsExactIff`, `CarriageReturnIsLost`).
- After the timeout's status check the handler can still write: the response then mixes both
  sides, or goes on after the middleware has returned (`RefusalIsCleanIff`, `MixedResponse`).
- The exemption for `/api/tasks/{id}/events` also matches `/api/tasks/events` (`ExemptPaths`).
- The calibrated threshold is the best over all thresholds that select a score, whatever the
  floors, exactly when each score has a rounded score at least as precise that recalls at least as
  much (`ChoiceIsBestIff`, `RoundingCanLoseTheBest`).
- A period backfill promises never to clobber a live row. It does so when the lookup fails
  (`LiveRowSurvivesIff`).

## Model

| member | source | states |
|---|---|---|
| Calendar.CalendarIsAnOrderIsomorphism | cmd/atlas/capital_tasks.go:307-318 | the calendar the tasks' date arithmetic relies on: days and valid Gregorian dates correspond one to one and in order |
| Calendar.NextMonthIsLater | cmd/atlas/capital_tasks.go:318 | a month step, overflow normalised as Go does it, lands 28 to 31 days on, whatever the day of month and leap year |
| Calendar.WeekdaysInTurn | cmd/atlas/operations_tasks.go:770-775 | weekdays on the calendar's own dates: 6 March 2026 is a Friday, and they follow one another in sevens |
| Calendar.DaysCountFromTheEpoch | cmd/atlas/capital_tasks.go:307-318 | day 0 is 1 January 1970, and each next date, across months and years, is the next day |
| Calendar.MonthsOfTheCalendar | cmd/atlas/capital_tasks.go:318 | the Gregorian month lengths and leap years |
| DateText.FormattedDayParses | cmd/atlas/capital_task_gates.go:43-56 | a day written as a date string parses back to that day, so guard strings are equal exactly when the days are |
| DateText.ParsedDayFormats | cmd/append-fundamentals-history/main.go:101-104 | only a real date of four, two and two digits parses: what parses is what its day is written as |
| DateText.WindowIsARangeOfDays | cmd/backfill-outcome-period/window.go:34-44 | testing a date string against a window of date strings, either end open, tests the day against the range of days |
| TradingDay.LastSettledIsGreatest | cmd/atlas/operations_tasks.go:736-777 | the roll-back arithmetic yields the greatest weekday whose cutoff is not after now, and only that day |
| TradingDay.FridayOverTheWeekend | cmd/atlas/operations_tasks.go:755-777 | at given UTC instants over the weekend of 7 March 2026, to the second about either cutoff, the answer is the right calendar date |
| TradingDay.CurrentTaipeiTradingDate | cmd/atlas/operations_tasks.go:755-777 | the stepwise computation returns midnight in Taipei of the last day settled at 15:30 |
| TradingDay.ResolveTradingDate | cmd/append-fundamentals-history/main.go:96-124 | a non-empty flag is returned if it parses and refused otherwise; without one the date is the last day settled at 13:30 |
| TradingDay.PreviousWeekday | cmd/append-fundamentals-history/main.go:126-135 | the backward walk stops at the nearest weekday on or before its start |
| TradingDay.SimulationClose | cmd/atlas/main.go:1871-1882 | the conditional and the weekend loop give the 13:30 instant of the last settled day, the same day as the fundamentals history at every instant |
| TradingDay.CutoffsDisagreeBetweenThem | cmd/atlas/operations_tasks.go:762-776 | two cutoffs give different days exactly on weekdays between them, and there the later one gives the previous weekday |
| ReplayWindow.MidnightZoneDoesNotMatter | cmd/atlas/replay_backfill_window.go:35-42 | a date means the same Taipei day as UTC midnight and as Taipei midnight; exactly which other midnights agree |
| ReplayWindow.NextTradingDate | cmd/atlas/replay_backfill_window.go:44-50 | the forward loop stops at the first weekday on or after its start |
| ReplayWindow.ReplayBackfillWindow | cmd/atlas/replay_backfill_window.go:52-66 | the window holds exactly the settled weekdays after the newest record, and start is after end exactly when there are none |
| ReplayWindow.CaughtUpMeansEmptyWindow | cmd/atlas/replay_backfill_window.go:60-66 | once the newest record has reached the window's end, later windows are empty exactly until another day settles |
| ReplayRuns.FetchWindow | cmd/daily-replay-sync/main.go:329-408 | the fetch command records the trading days with rows until appending breaks, an empty one notwithstanding, and succeeds exactly when every trading day of its window had rows |
| ReplayRuns.AskedAgainIff | cmd/atlas/operations_tasks.go:545-570 | a settled weekday one run asks for, a later run asks for again exactly as long as neither it nor a later day has been recorded, whatever the fetches did |
| ReplayRuns.NonePassedOverIff | cmd/atlas/operations_tasks.go:545-570 | over any runs, no trading day is left missing behind the newest record exactly when every fetch records the trading days of its window in order |
| ReplayRuns.FetchIsInOrderIff | cmd/daily-replay-sync/main.go:357-405 | a fetch is in order exactly when no empty trading day preceded a recorded one; one that succeeds always is |
| ReplayRuns.PassedOverForGood | cmd/atlas/replay_backfill_window.go:60-66 | a day passed over is neither asked for nor recorded by any later run |
| ReplayRuns.EmptyDayIsPassedOver | cmd/daily-replay-sync/main.go:389-405 | a run in which an empty Tuesday before a recorded Wednesday is lost |
| ReplaySync.NewestIsTheMaximum | cmd/atlas/bootstrap_helpers.go:88-119 | on a readable CSV the scan returns the newest date, and fails only on an empty file |
| ReplaySync.Convert | internal/importer/twmarket.go:56-103 | the conversion writes one line per date and symbol, holding its last bar, in date then symbol order |
| ReplaySync.ConversionCatchesUp | internal/importer/twmarket.go:30-48 | because of that order the JSONL's last line carries the CSV's newest date |
| ReplaySync.ConversionIsUnique | internal/importer/twmarket.go:40-55 | one CSV has one conversion, so converting again gives the same lines |
| ReplaySync.Replay.Sync | cmd/atlas/operations_tasks.go:669-734 | the JSONL is rebuilt exactly when the two newest dates differ, either way, or it has none; otherwise, or if the import fails, it is untouched |
| ReplaySync.Replay.RunAutoBackfill | cmd/atlas/operations_tasks.go:530-577 | the error is exactly the fetch's (or the CSV's unreadability); the fetch runs exactly when settled weekdays newer than the newest record exist, over a window of exactly those, and does not decide whether the JSONL follows |
| ReplaySync.DatesConvergeIff | cmd/atlas/operations_tasks.go:622-643 | afterwards the newest dates agree exactly when the CSV loads and any needed import worked, whatever the fetch did |
| ReplaySync.SecondPassWritesNothing | cmd/atlas/operations_tasks.go:669-676 | a second pass over the same CSV writes nothing |
| ReplaySync.ContentConvergesIff | cmd/atlas/operations_tasks.go:625-631 | over any history of CSV changes and passes, a JSONL once in step stays the CSV's conversion exactly when every change of content moves the newest date and is imported |
| ReplaySync.CorrectionIsNotCarriedOver | cmd/atlas/operations_tasks.go:635-643 | a bar corrected without a newer date leaves the gate closed and the JSONL stale |
| SblTask.Task.Run | cmd/atlas/capital_tasks.go:232-274 | one tick updates the two guards as the step function says, and reports an error exactly for an attempted fetch that failed other than by quota |
| SblTask.LogRefines | cmd/atlas/capital_task_gates.go:43-81 | on any orderly run the guards kept as date strings attempt the same fetches as guards kept as days |
| SblTask.LogInTurn | cmd/atlas/capital_tasks.go:241-248 | the log of a run has one entry for each tick that passes the gate, with its day, hour and outcome |
| SblTask.FailureIsRetried | cmd/atlas/capital_tasks.go:272 | after a fetch that failed otherwise than by quota a tick of the same day from 15:00 on attempts again |
| SblTask.SuccessfulFetchEndsTheDay | cmd/atlas/capital_tasks.go:249-258 | after a successful fetch nothing more is attempted that Taipei day: at most one success a day, catch-ups included |
| SblTask.EveryAttemptIsJustified | cmd/atlas/capital_task_gates.go:58-81 | no attempt falls on a weekend; one before 15:00 is from 08:00 on, on the day after a quota deferral with no success between |
| SblTask.DeferralIsCaughtUpIff | cmd/atlas/capital_task_gates.go:36-56 | a deferral not made good on its own day is caught up exactly when the next day is a weekday with a tick from 08:00 on |
| SblTask.FridayDeferralIsNeverCaughtUp | cmd/atlas/capital_task_gates.go:66-73 | a Friday's deferral never reaches its catch-up |
| SblTask.DeferralLeavesTheGateOpen | cmd/atlas/capital_tasks.go:259-272 | a retry on the deferral's own day is let through exactly when it comes from 15:00 on, contrary to the comment |
| HistoryCursor.Backfill.Run | cmd/atlas/capital_tasks.go:314-375 | a visit commits its chunk and moves the cursor exactly when neither segment raised an error and the quota allows; the other verdicts by cause |
| HistoryCursor.OnlyErrorsHoldTheCursor | cmd/atlas/capital_tasks.go:315-373 | the cursor stays exactly if it is ahead of the clock, a walk failed or a provider is missing on either channel, or the quota is short |
| HistoryCursor.WalkSbl | internal/marketdata/twse_sbl_provider.go:303-336 | an undisturbed walk asks for the weekdays without a file among the days stepped through in 24 hours from the chunk's start |
| HistoryCursor.WalkTdcc | internal/marketdata/tdcc_provider.go:130-150 | stepping by weeks from the first Friday asks for exactly the Fridays of that same walk |
| HistoryCursor.CommittedChunksTileIff | cmd/atlas/capital_tasks.go:306-375 | after any run in any process zone the committed chunks have walked every day from 2026-03-01 up to the cursor, once each and in order, exactly when every commit was seamless |
| HistoryCursor.SeamIff | cmd/atlas/capital_tasks.go:318-373 | a commit is seamless unless cut at the present earlier in the day than its cursor (for the first cut, on a date other than UTC's); then exactly the day of the cut is passed over, or, west of Greenwich only, one may be walked again |
| HistoryCursor.MonthChunksTile | cmd/atlas/capital_tasks.go:318-373 | chunks of whole months always tile |
| HistoryCursor.DayPassedOver | cmd/atlas/capital_tasks.go:318-373 | two visits in UTC after which no later run ever asks for a Tuesday the cursor has passed |
| HistoryCursor.CursorMovesOnlyForward | cmd/atlas/capital_tasks.go:315-373 | a step moves the cursor strictly later exactly on a commit, and otherwise changes nothing |
| HistoryCursor.EveryChunkWalks | cmd/atlas/capital_tasks.go:315-321 | every committed chunk of every run walks at least its first day, in any zone |
| ReplayMerge.KeySeparates | cmd/backfill-replay-history/main.go:58-66 | keys are equal exactly when symbol and calendar date are, with any time of day or none behind the date, as long as dates hold no 'T' and no bar character |
| ReplayMerge.FurtherDayIsAdded | cmd/backfill-replay-history/main.go:116-136 | a symbol's bar of another day is let in, one of the same day is not |
| ReplayMerge.BarsGoByDay | cmd/backfill-replay-history/main.go:137-142 | bars with date strings sort by day, and within a day by symbol |
| ReplayMerge.ConversionKeepsTheKey | cmd/backfill-replay-history/main.go:91-111 | a FinMind row converts exactly when its date is in the window, to the same symbol, prices and volume, and collides with what it collided with before |
| ReplayMerge.MergeBars | cmd/backfill-replay-history/main.go:113-144 | the result is an ascending permutation of the existing rows and the accepted additions; added and skipped account for every addition that passes the filter |
| ReplayMerge.AcceptedIff | cmd/backfill-replay-history/main.go:123-136 | exactly those additions are let in that pass the filter, whose key is not taken, and that no earlier passing one has |
| ReplayMerge.EarliestSourceWins | cmd/backfill-replay-history/main.go:113-136 | a key finds in the merge what it finds first in the existing rows followed by the filtered additions |
| ReplayMerge.EarliestSourceWinsInTheOutput | cmd/backfill-replay-history/main.go:15-19 | the same in the sorted output when existing keys are unique |
| ReplayMerge.UniqueKeysStay | cmd/backfill-replay-history/main.go:123-136 | unique existing keys stay unique |
| ReplayMerge.UniqueKeysForceTheOrder | cmd/backfill-replay-history/main.go:137-142 | with unique keys the sort has one possible result, although it is not stable |
| ReplayMerge.SequentialMergesAreOneMerge | cmd/backfill-replay-history/main.go:260-270 | merging source after source gives the rows of one merge of the concatenated sources, and the same list when existing keys are unique |
| ReplayMerge.MergingAgainAddsNothing | cmd/backfill-replay-history/main.go:127-132 | merging the same additions again accepts none |
| ReplayMerge.MergeSources | cmd/backfill-replay-history/main.go:228-270 | the command's conversion and successive merges amount to one merge of all sources, and its total of added rows is that merge's |
| ReplayMerge.ForeignSymbolsStayOutIff | cmd/backfill-replay-history/main.go:231-247 | no symbol outside the filter is let in, whatever the source, exactly when the flag names a symbol or, without a flag, the target has a row |
| ReplayMerge.FilterNames | cmd/backfill-replay-history/main.go:231-247 | the filter names exactly the non-blank trimmed pieces of the flag, or without one the target's symbols |
| ReplayMerge.SplitAtCommas | cmd/backfill-replay-history/main.go:234 | the pieces hold no comma and, joined by commas, are the flag |
| IndustryCache.CoverageFromEntries | cmd/atlas/symbol_industry_substrate.go:266-317 | the loop counts every row, the resolved ones and the two gap buckets, and lists the distinct trimmed reasons of unresolved rows in strict order |
| IndustryCache.BucketsAndMisfits | cmd/atlas/symbol_industry_substrate.go:273-287 | the three buckets make up the population exactly up to rows that fit both or neither |
| IndustryCache.ViewIsWhole | cmd/atlas/symbol_industry_substrate.go:81-123 | a view answers for exactly the symbols it lists and counts them as it lists them, within the population |
| IndustryCache.Substrate.Reload | cmd/atlas/symbol_industry_substrate.go:226-264 | a successful load replaces map, list, accounting and instant together and clears the error; a failed one records its error only, and nothing without a store |
| IndustryCache.Substrate.ResolveL1 | cmd/atlas/symbol_industry_substrate.go:81-92 | the answer is the sector of the symbol's last resolvable row in the rows in force; a reload was attempted in this call exactly unless the view was non-empty and younger than the TTL |
| IndustryCache.Substrate.Symbols | cmd/atlas/symbol_industry_substrate.go:94-103 | the list is that of the resolvable rows in force |
| IndustryCache.Substrate.Coverage | cmd/atlas/symbol_industry_substrate.go:116-123 | the accounting is that of the rows in force |
| IndustryCache.Substrate.CoverageAsOf | cmd/atlas/symbol_industry_substrate.go:145-153 | the instant is the one in force after the reload decision |
| IndustryCache.Substrate.LastReloadError | cmd/atlas/symbol_industry_substrate.go:155-172 | the recorded message, with no reload attempted |
| IndustryCache.Substrate.Invalidate | cmd/atlas/symbol_industry_substrate.go:191-196 | only the instant is dropped |
| IndustryCache.CacheTellsItsHistory | cmd/atlas/symbol_industry_substrate.go:145-264 | after any calls the view is the last successful load's, the instant exists exactly if a load succeeded since creation or the last invalidation, and the error exactly if the last attempt failed |
| IndustryCache.UndatedYetServedIff | cmd/atlas/symbol_industry_substrate.go:133-153 | the old rows are served without an instant exactly after a load that an invalidation and no load has followed |
| IndustryCacheInterleavings.NeverTorn | cmd/atlas/symbol_industry_substrate.go:202-264 | in every interleaving the view and every answer ever given come from one snapshot the store really held, or from before anything was loaded, and list and count agree |
| IndustryCacheInterleavings.AnswersAreBacked | cmd/atlas/symbol_industry_substrate.go:81-123 | in every interleaving an answer is to its question, and what its call did last before was to find the view non-empty and younger than the TTL or to see a load of its own through, installed or failed |
| IndustryCacheInterleavings.GetterLoads | cmd/atlas/symbol_industry_substrate.go:202-264 | from any state a getter facing an empty view can load and answer from what it loaded |
| IndustryCacheInterleavings.FreshViewNeedsNoLoad | cmd/atlas/symbol_industry_substrate.go:206-212 | from any state a getter facing a view younger than the TTL can answer from it without the store |
| IndustryCacheInterleavings.InvalidationSendsToTheStore | cmd/atlas/symbol_industry_substrate.go:191-212 | from an invalidation to the next installation every getter that decides goes to the store |
| IndustryCacheInterleavings.InvalidationTakesEffectIff | cmd/atlas/symbol_industry_substrate.go:191-264 | after an invalidation every dated view shows the store's present rows, in all continuations without a write, exactly when no call holds outdated rows |
| IndustryCacheInterleavings.OutdatedRowsCanBeInHand | cmd/atlas/symbol_industry_substrate.go:231-262 | for any rows some view tells apart, a run in which a reload still holds the former ones after the write and the invalidation |
| IndustryCacheInterleavings.DeletedRowCanBeInHand | cmd/atlas/symbol_industry_substrate.go:231-262 | such a run where the store's only row is deleted |
| DriftLog.ReadLines | cmd/atlas/stage3_drift_record.go:106-129 | the scanner loop yields the non-empty lines, less a trailing carriage return, or fails at the first line beyond its buffer |
| DriftLog.ReadingBackIff | cmd/atlas/stage3_drift_record.go:106-162 | reading what was written returns the same lines exactly when each fits the scanner |
| DriftLog.Recorder.WriteLines | cmd/atlas/stage3_drift_record.go:131-162 | the log becomes the printed lines on success and is untouched by every failure; what each failure leaves of the temporary file |
| DriftLog.Recorder.Record | cmd/atlas/stage3_drift_record.go:89-104 | a call that succeeds leaves the last 1000 of the lines read and its own; one that fails leaves the log alone |
| DriftLog.TrimAsYouGo | cmd/atlas/stage3_drift_record.go:99-102 | trimming after every append keeps what one trim at the end keeps |
| DriftLog.KeepsAThousand | cmd/atlas/stage3_drift_record.go:99-102 | what is kept is the last thousand lines |
| DriftLog.LogIsNeverPartial | cmd/atlas/stage3_drift_record.go:89-162 | with failures anywhere and a crash between any two file operations, from any initial file, the log is always its initial contents or what rewriting once for each recorded line makes of them |
| DriftLog.LogIsTheLastLines | cmd/atlas/stage3_drift_record.go:95-102 | that is the last 1000 of the initial and the recorded lines whenever those are lines as record calls write them |
| DriftLog.LogIsExactIff | cmd/atlas/stage3_drift_record.go:106-129 | until it is trimmed, the log is its initial and recorded lines exactly when at most one was recorded or no initial line ends in a carriage return |
| DriftLog.CarriageReturnIsLost | cmd/atlas/stage3_drift_record.go:117-128 | an initial line ending in two carriage returns loses the second one with the second record |
| DriftLog.ReadableIff | cmd/atlas/stage3_drift_record.go:117-128 | the log a run leaves can be read exactly when no line it holds exceeds the scanner's limit |
| DriftLog.UnreadableForGood | cmd/atlas/stage3_drift_record.go:95-98 | from an unreadable log no run ever records another line |
| DriftLog.UninterruptedCall | cmd/atlas/stage3_drift_record.go:89-161 | every uninterrupted call, however its writing is split up, leaves the log alone until it finishes and then has done what a record call does |
| DriftLog.CallCanFinish | cmd/atlas/stage3_drift_record.go:89-161 | such a call exists from every idle state with a readable log |
| RequestTimeout.TimeoutResponseWriter.WriteHeader | cmd/atlas/timeout_middleware.go:75-84 | one critical section: the first status is recorded and forwarded, later ones are dropped |
| RequestTimeout.TimeoutResponseWriter.Write | cmd/atlas/timeout_middleware.go:86-94 | a body write claims the header if nobody has, and is forwarded |
| RequestTimeout.EachSideBehaves | cmd/atlas/timeout_middleware.go:75-158 | in every interleaving the handler forwards at most one status and none after a body, the wrapper at most one 503 with its body and only after the deadline |
| RequestTimeout.StatusIsTheFirstCalls | cmd/atlas/timeout_middleware.go:75-94 | in every interleaving the handler's forwarded status is the code of its first call, exactly if that call sets one |
| RequestTimeout.BodiesAreConserved | cmd/atlas/timeout_middleware.go:86-94 | every body the handler writes is forwarded once or still on its way |
| RequestTimeout.RefusesOnlyTheSilent | cmd/atlas/timeout_middleware.go:145-149 | the status check goes on to refuse exactly when nothing was forwarded and no write was under way |
| RequestTimeout.RefusalIsCleanIff | cmd/atlas/timeout_middleware.go:145-156 | a refused response is the wrapper's alone exactly when the handler made no call after the status check |
| RequestTimeout.OtherwiseTheHandlersOwn | cmd/atlas/timeout_middleware.go:142-149 | a response never refused is the handler's alone |
| RequestTimeout.WritesAfterReturnNeedTheDeadline | cmd/atlas/timeout_middleware.go:137-158 | calls forwarded after the middleware returned occur only where the deadline branch was taken |
| RequestTimeout.MixedResponse | cmd/atlas/timeout_middleware.go:146-155 | a run whose response is the 503 and its body followed by the handler's status and body |
| RequestTimeout.ExemptPaths | cmd/atlas/timeout_middleware.go:160-169 | which paths are exempt: the zero overrides, every task's event path, and the one path naming no task; the others get their override or the default |
| StateTruncation.TruncationOnlyCuts | scripts/jevkit.py:173-184 | truncation keeps the shape, makes every string a prefix of itself, and changes nothing the second time |
| StateTruncation.EveryPlaceIsCut | scripts/jevkit.py:173-184 | at every place of any nested value there is what there was, keys included, a string whole if it fits the budget that reaches it and else cut to exactly that |
| StateTruncation.SharesAreEven | scripts/jevkit.py:179-183 | a member's budget is the container's divided evenly, or 200 if that is more |
| StateTruncation.TruncationBound | scripts/jevkit.py:173-184 | at most the budget (or 200 if larger) plus 200 for each string after the first is left, hence at most the budget plus 200 a string |
| StateTruncation.TightBound | scripts/jevkit.py:173-184 | the sharper bound: the budget, or 200 a string plus what halving the budget leaves over the floor |
| StateTruncation.MostLeftIsExact | scripts/jevkit.py:234 | at the budget of 40000 the code sets, the greatest number of characters left is known exactly for every number of strings, and attained |
| StateTruncation.FloorIsMet | scripts/jevkit.py:179-183 | for budgets up to the floor of 200 the bound is attained for every number of strings |
| WafSanitizer.SanitizeString | scripts/jevkit.py:130-134 | the loop over the rewrites applies the three replacements in order |
| WafSanitizer.SanitizedTextIsFree | scripts/jevkit.py:121-134 | no pattern is left in a sanitised string: no replacement recreates one |
| WafSanitizer.ReplacesLeftmost | scripts/jevkit.py:131-133 | replacing goes from the leftmost match on behind it, and keeps the rest |
| WafSanitizer.WhatIsSentInstead | scripts/jevkit.py:121-125 | the three patterns and what stands in for them |
| WafSanitizer.EveryPlaceIsSanitized | scripts/jevkit.py:128-139 | at every place of any nested value there is what there was, keys included, with a string sanitised |
| WafSanitizer.SanitizedIsHarmless | scripts/jevkit.py:128-139 | no string at any depth of a sanitised value holds one of the three patterns |
| WafSanitizer.SanitizeIsIdempotent | scripts/jevkit.py:128-139 | sanitising any nested value again changes nothing |
| WafSanitizer.Ask | scripts/jevkit.py:243-286 | on any replies at most retries + 1 requests; each carries the original state, or after the first 403 the sanitised one, which holds no pattern at any depth; exactly when the state is rewritten, at most once; the result is the last reply's, and stopping early needs an answer or a fatal reply |
| Calibration.RecallDescends | scripts/jevkit.py:313-317 | raising the threshold never raises the recall |
| Calibration.CalibrateThreshold | scripts/jevkit.py:298-330 | stated over sets of positions: the search returns the least rounded score whose chosen and labelled positions meet the floors, with the sizes of their overlap and differences, and none exactly when no rounded score meets them |
| Calibration.CountsAreSizes | scripts/jevkit.py:313-315 | the three counts are the sizes of those sets |
| Calibration.RoundsToNearest | scripts/jevkit.py:310-321 | rounding goes to the nearest multiple, on a tie to the even one |
| Calibration.ChoiceIsBestIff | scripts/jevkit.py:304-330 | whatever the floors, every real threshold that selects a score and meets them is matched in recall by the one chosen, exactly when every score has a grid value at least as precise that recalls at least as much |
| Calibration.HarmlessRoundingIsBest | scripts/jevkit.py:310 | that is so where rounding moves no score past another |
| Calibration.HarmfulRoundingCanBeBest | scripts/jevkit.py:310 | but may be so elsewhere: an input where rounding moves a score and nothing is lost |
| Calibration.ChosenHasTheBestRecall | scripts/jevkit.py:304-307 | where rounding is harmless, no real threshold meeting the floors, selecting a score or not, has a larger recall |
| Calibration.SomethingFeasibleIff | scripts/jevkit.py:324-329 | there, a real threshold that selects a score and meets the floors exists exactly when a grid value meets them |
| Calibration.GridReachesEveryCutIff | scripts/jevkit.py:310-315 | the grid can split the scores in every way a real threshold can exactly when rounding moves no score past another |
| Calibration.RoundingCanLoseTheBest | scripts/jevkit.py:310-323 | a concrete input on which the chosen threshold has recall 0 and another has recall 1 |
| OutcomePeriod.OutcomesTable.Backfill | cmd/backfill-outcome-period/main.go:304-348 | the counts, the refusal before writing, the whole new table: a row changes exactly if it had no period and its day, the timestamp's first ten characters, lies in the window and has a history; as many changed rows as matched, over 1000 only when forced |
| OutcomePeriod.FillingIsExact | cmd/backfill-outcome-period/main.go:335-343 | the same for one row, and that it gets that history's period and "synthetic" or "live", nothing else |
| OutcomePeriod.FillingChangesMatches | cmd/backfill-outcome-period/main.go:335-343 | the update changes exactly the rows with no period whose day is in the window and has a history |
| OutcomePeriod.SecondPassChangesNothing | cmd/backfill-outcome-period/main.go:304-306 | a second update matches and changes nothing |
| OutcomePeriod.BackfillJsonl | cmd/backfill-outcome-period/main.go:414-506 | line by line what the file becomes, order and number of lines kept; the counts; no replacement on a malformed line, a dry run, or nothing filled |
| OutcomePeriod.LineIsExact | cmd/backfill-outcome-period/main.go:452-492 | what any line becomes, spelled out by its own fields, the window and the history |
| OutcomePeriod.OnlyEmptyRowsChange | cmd/backfill-outcome-period/main.go:468-492 | a line that changes had neither period nor source and a day in the window with a history |
| OutcomePeriod.SecondPassFillsNothing | cmd/backfill-outcome-period/main.go:469-474 | a second pass over a rewritten file fills nothing |
| PeriodHistory.Load | cmd/backfill-period-history-range/main.go:376-417 | the pass totals each date's volume and keeps the proxy's last close, and fails exactly on a line that does not parse |
| PeriodHistory.VolumesAdd | cmd/backfill-period-history-range/main.go:404-409 | a day's volume is the sum over its bars, in whatever order |
| PeriodHistory.LastCloseCounts | cmd/backfill-period-history-range/main.go:406-408 | a day's index is the close of the proxy's last bar, or zero |
| PeriodHistory.Store.UpsertDay | cmd/backfill-period-history-range/main.go:528-549 | a live row that the lookup finds is skipped; any other row is written as synthetic if the upsert works |
| PeriodHistory.Store.Backfill | cmd/backfill-period-history-range/main.go:255-359 | the loop's effect on every date: the period detected from the series up to that date, recorded at that date's clock reading; how many days are written, skipped and errors; a range without trading days fails and writes nothing |
| PeriodHistory.SeriesUpTo | cmd/backfill-period-history-range/main.go:301-318 | the series grown so far is the whole series of the range that ends there |
| PeriodHistory.NoLookAhead | cmd/backfill-period-history-range/main.go:305-359 | two datasets with the same rows from start to a date leave the same row for that date, whatever follows |
| PeriodHistory.LiveRowSurvivesIff | cmd/backfill-period-history-range/main.go:528-534 | a live row outlives any number of runs exactly when every run that has a period to write over it can look it up |
| PeriodHistory.RunningAgainKeepsPeriods | cmd/backfill-period-history-range/main.go:56-58 | running again, with any operations failing, keeps the periods the first run wrote |

## Left out

- What a walked day of the history backfill yields: a report not yet published counts as walked, as in the providers.
- daily-replay-sync's daily sync and its own gap scan, which also write the replay CSV and may recover a day the task passed over: ReplayRuns has the task's fetches as the CSV's only writer.
- Daylight saving and missing time zone data: zones are fixed offsets. Instants are whole seconds; every cutoff modelled falls on one.
- Go's time.Duration saturation: a dropped cache instant is treated as older than every TTL, as the saturated subtraction makes it.
- tdccFetchGate and the government-flow gates: the same once-a-day guard as the modelled task, without its catch-up.
- The fetch itself, its subprocess, and process contexts and cancellation: a fetch is an arbitrary outcome and an arbitrary new CSV.
- CSV and JSON syntax: rows and lines arrive parsed, marked as bad, or through an arbitrary codec. DriftLog does model the bytes of lines.
- CSV date columns: a row's date is good or bad for both readers alike; header and column handling are not modelled.
- universeNames, summarize and the printed reports of the replay merge: the names map is a parameter.
- The internals of sort.Slice: Sorting.Sort promises an ascending permutation only, and is a sort on sequences, not in place.
- Power loss as distinct from a crash of the process: a completed rename is taken as durable.
- RequestTimeout: informational (1xx) statuses, panics, and net/http's own treatment of superfluous headers; the log is of the calls forwarded. withTimeout's defaulting of its configuration is assumed done.
- The lookup counter and the dated answers in IndustryCacheInterleavings: they are in the sequential class only.
- jevkit's size check before the first request: Ask starts from the state it lets through, truncated or not; its refusal of an oversized one is not modelled.
- jevkit's key handling, request headers and sleeping: they do not change the body that is sent.
- Floating point: quotients and scores are real numbers.
- OutcomePeriod: file-system and database failures, and lines beyond the scanner's 4 MiB buffer, which abort a pass without replacing the file.
- The Postgres mode of the outcome backfill: the same window, guard and update as the SQLite one, on another clock column.
- PeriodHistory: dry runs and cancelled contexts, which write nothing or stop early, and the indicator arithmetic, which is the detector's.
- HTTP routes, authentication, start-up, flags, logging and dashboards.
