# Check status history — a Dafny model

This project models the logic of the `Check` model of the ping uptime monitor
(`app/models/Check.php`). A prober records one row per probe in the
`checks_results` table: the check it belongs to, its `created_at` time and
whether it succeeded. On top of those rows `Check` offers:

- **the episode log** (`getLog`): maximal runs of one outcome, each reported
  with its first and last time, an inclusive duration in seconds
  (`end - start + 1`) and a humanised duration, newest first, paginated with
  `LIMIT offset, limit` *after* grouping;
- **the duration humaniser** (`minutesToHuman`): whole days, leftover hours and
  leftover minutes as `"<n> <label>"` fragments, zero parts left out;
- **the current status** (`getStatusOkAttribute`): the outcome of the newest
  result, or `null` without results;
- **windowed counts** (`statusCount`, `successCount`, `errorCount`): results of
  one outcome no older than a number of hours, one hour by default;
- **the title** (`getTitleAttribute`): the URL without scheme, `www.` and
  trailing slash.

Modules, one per component:

| file | module | models |
|---|---|---|
| `sequences.dfy` | `Sequences` | `Last` and `DropLast` on sequences |
| `wrappers.dfy` | `Wrappers` | `Option` for PHP's `null`, `Result` for a refused query |
| `samples.dfy` | `Samples` | the result row, time order, the `results()` selection of one check |
| `runs.dfy` | `Runs` | the partition that the `@group` numbering induces: maximal runs, proved unique |
| `episode_log.dfy` | `EpisodeLog` | grouping fold, the row scan as a loop, newest-first order, pagination, `getLog` |
| `humanize.dfy` | `Humanize` | `minutesToHuman`, decimal notation of counts |
| `status.dfy` | `Status` | current status and the windowed counters |
| `title.dfy` | `Title` | `str_replace`, `str_finish` and the title |

How the SQL is expressed. The inner query of `getLog` walks the rows in
`created_at` order and bumps `@group` whenever `success` differs from the
previous row; the outer query groups by that number. `EpisodeLog.Compact` is
that grouping as a left-to-right fold whose last element is the current run,
and `EpisodeLog.ScanEpisodes` is the same scan as a loop over an array with the
current run's `MIN(created_at)`, `MAX(created_at)` and outcome in variables.
`Runs.RunsOf` gives the groups themselves; `EpisodeLog.CompactPartitions` ties
each episode to its group and proves the groups to be the only decomposition of
the rows into maximal runs. `ORDER BY start DESC` is the reversal of the
time-ordered list of groups (`EpisodeLog.EpisodesNewestFirst` proves it sorted),
and `LIMIT offset, limit` is `EpisodeLog.Page`.

Parameters instead of I/O: the rows are a `seq<Sample>` given in the order
`ORDER BY created_at` yields (times in whole seconds); `NOW()` is the parameter
`now`; `Lang::choice` is the parameter `lang: (Unit, nat) -> string`.

Behaviour taken from the code where a reader might expect otherwise:
- the newest-first order is non-strict in general: on time-ordered rows an
  episode starts at the first row of its group, so two episodes share a `start`
  only when every row from the first row of the older group up to the first row
  of the newer one has the same timestamp (`EpisodeLog.EpisodesNewestFirst`
  proves the non-strict order in general and the strict one when timestamps are
  distinct);
- a negative offset or limit is not clamped: `intval` passes it into `LIMIT`,
  which MySQL refuses, so the model returns `Failure(NegativeLimit)`;
- a window of zero or negative hours is not refused; the counters simply count
  results with `created_at >= now - hours * 3600`;
- `getLog`'s query reads the whole results table (see Findings).

## Model

| member | source | states |
|---|---|---|
| `Samples.ResultsOf` | app/models/Check.php:158-161 | the results of a check are the table rows with its id and no others, each row as many times as it occurs in the table |
| `Samples.ResultsOfAppend` | app/models/Check.php:158-161 | the selection of `a + b` is the selection of `a` followed by that of `b`, so table order is kept |
| `Samples.ResultsOfSingle` | app/models/Check.php:158-161 | a single row is selected exactly when it has the check's id |
| `Samples.ResultsOfOrdered` | app/models/Check.php:132 | selecting one check's rows keeps them in `created_at` order (strict order too) |
| `Runs.RunsOf` | app/models/Check.php:101-112 | the groups are non-empty, there are none exactly for no rows, and the last group ends with the last row |
| `Runs.RunsOfDecomposes` | app/models/Check.php:104-112 | the groups concatenate back to the rows, each has one outcome, neighbouring groups have different outcomes |
| `Runs.RunsOfUnique` | app/models/Check.php:104-112 | any decomposition into non-empty one-outcome runs with differing neighbours is the grouping itself |
| `Runs.RunsOfOrdered` | app/models/Check.php:110 | on time-ordered rows every group is time-ordered and every row of a group precedes every row of a later group |
| `EpisodeLog.Compact` | app/models/Check.php:96-112 | the fold yields no more episodes than rows, none exactly for no rows, each with `start <= end` and `duration = end - start + 1`, neighbours differing in outcome, the last one with the newest row's outcome |
| `EpisodeLog.MinTime` | app/models/Check.php:96 | `MIN(created_at)`: no later than any row of the group and equal to one of them |
| `EpisodeLog.MaxTime` | app/models/Check.php:97 | `MAX(created_at)`: no earlier than any row of the group and equal to one of them |
| `EpisodeLog.EpisodeOf` | app/models/Check.php:96-99 | a group's episode has `start <= end`, `duration = end - start + 1 >= 1`, and duration 1 for a single row |
| `EpisodeLog.CompactIsEpisodesOfRuns` | app/models/Check.php:96-112 | the k-th episode of the fold is the episode (MIN, MAX, duration, outcome) of the k-th group |
| `EpisodeLog.CompactPartitions` | app/models/Check.php:104-112 | the episodes are those of the unique decomposition of the rows into maximal one-outcome runs |
| `EpisodeLog.CompactBoundaries` | app/models/Check.php:96-110 | on time-ordered rows an episode starts at the first and ends at the last row of its group |
| `EpisodeLog.EpisodesNewestFirst` | app/models/Check.php:113 | the full list is sorted by `start` descending, strictly when timestamps are distinct |
| `EpisodeLog.Page` | app/models/Check.php:114 | `LIMIT offset, limit`: at most `limit` items, item i is item `offset + i` of the list, and exactly as many as remain |
| `EpisodeLog.PageSplit` | app/models/Check.php:114 | page (0, n) followed by page (n, k) is page (0, n + k) |
| `EpisodeLog.Episodes` | app/models/Check.php:96-113 | the newest-first episode list: no more episodes than rows, none exactly for no rows, the first with the newest row's outcome, each with `start <= end` and `duration = end - start + 1 >= 1`, neighbours differing in outcome |
| `EpisodeLog.EntryOf` | app/models/Check.php:117-124 | an entry copies `start`, `end`, `duration` and `success` of its episode, `duration_locale` is the humanised duration, empty exactly when the duration is under 60 seconds |
| `EpisodeLog.GetLogUnfiltered` | app/models/Check.php:89-128 | the query as written, offset 0 and limit 20 by default: refused exactly for a negative offset or limit, else `min(limit, episodes - min(offset, episodes))` entries, entry i being the entry of episode `offset + i` of all table rows; empty for no rows |
| `EpisodeLog.GetLog` | app/models/Check.php:89-128 | the same over the rows of one check: refused exactly for a negative offset or limit, else exactly the slice `offset .. offset + limit` (cut at the end) of that check's newest-first episodes, as entries |
| `EpisodeLog.ScanEpisodes` | app/models/Check.php:101-110 | the row-by-row scan with current-run variables yields exactly the fold's episodes |
| `EpisodeLog.PagesOfRows` | app/models/Check.php:91-125 | for any rows, the entries of pages (0, n) and (n, k) concatenate to those of page (0, n + k) |
| `EpisodeLog.GetLogPages` | app/models/Check.php:91-114 | consecutive pages (0, n) and (n, k) concatenate to page (0, n + k) |
| `EpisodeLog.GetLogNewestFirst` | app/models/Check.php:113 | when the check's own results are time-ordered, every page lists entries by `start` descending, strictly when timestamps are distinct |
| `EpisodeLog.GetLogEntriesWellFormed` | app/models/Check.php:98-124 | every entry has `start <= end`, `duration = end - start + 1 >= 1`, `duration_locale` the humanised duration, and neighbouring entries differ in outcome |
| `EpisodeLog.ScenarioEpisodes` | app/models/Check.php:96-113 | failures at 0 and 1 then successes at 2, 3, 4 give the episodes (2, 4, 3, success) then (0, 1, 2, failure) |
| `EpisodeLog.UnfilteredLogMixesChecks` | app/models/Check.php:106 | with one result of check 1 and a newer failure of check 2, the as-written log changes and shows a failure first, while check 1's own log shows its success |
| `EpisodeLog.GetLogOwnResultsOnly` | app/models/Check.php:132 | the corrected log of a check depends on that check's results only |
| `Humanize.Decimal` | app/models/Check.php:78 | the decimal notation of a count is a non-empty digit string without a leading zero |
| `Humanize.DecimalRoundTrip` | app/models/Check.php:78 | reading the decimal notation back gives the count |
| `Humanize.PartsOf` | app/models/Check.php:70-74 | with M the whole minutes, `days * 1440 + hours * 60 + minutes == M`, `hours < 24`, `minutes < 60` |
| `Humanize.PartsUnique` | app/models/Check.php:70-74 | no other days/hours/minutes with those bounds add up to M |
| `Humanize.Humanized` | app/models/Check.php:76-86 | a non-empty text starts with a digit, namely the decimal count of its largest non-zero unit (days, else hours, else minutes) |
| `Humanize.MinutesToHuman` | app/models/Check.php:68-87 | the successive appends build the fragments of the non-zero parts, days and hours each followed by a space |
| `Humanize.HumanizedEmptyIff` | app/models/Check.php:76-86 | the text is empty exactly when the duration is under 60 seconds |
| `Humanize.HumanizedTrailingSpace` | app/models/Check.php:77-84 | for a minutes label that is non-empty and does not end in a space, the text ends with a space exactly when the minutes part is 0 and days or hours is not |
| `Humanize.Humanized90000` | app/models/Check.php:77-81 | 90000 seconds give a one-day and a one-hour fragment, each followed by a space |
| `Status.StatusOk` | app/models/Check.php:36-47 | `None` exactly when the check has no results, otherwise the outcome of one of its results |
| `Status.StatusOkIsNewest` | app/models/Check.php:38-46 | on time-ordered rows the status is the outcome of a result no other result of the check is newer than |
| `Status.StatusOkMatchesLog` | app/models/Check.php:38-46 | no results means an empty first page; otherwise the first entry of the first page has the current outcome |
| `Status.StatusCount` | app/models/Check.php:130-136 | the count is the number of rows of the check with the outcome and `created_at >= now - hours * 3600`; at most the check's number of results, and 0 exactly when no such row exists |
| `Status.WindowCount` | app/models/Check.php:132-135 | the number of rows of the check with `created_at >= now - hours * 3600`, whatever their outcome |
| `Status.SuccessCount` | app/models/Check.php:138-141 | the number of successful rows of the check in the window, one hour by default, at most the window's rows |
| `Status.ErrorCount` | app/models/Check.php:143-146 | the number of failed rows of the check in the window, one hour by default, at most the window's rows |
| `Status.SuccessPlusError` | app/models/Check.php:138-146 | for one window `successCount + errorCount` is the number of the check's results in the window |
| `Status.StatusCountMonotone` | app/models/Check.php:134 | a wider window never counts fewer results |
| `Status.ScenarioCounts` | app/models/Check.php:130-146 | successes 30 and 90 minutes ago and a failure 30 minutes ago: one success and one error in the default hour, two successes in two hours |
| `Title.RemoveAll` | app/models/Check.php:27-28 | deleting occurrences never lengthens the text |
| `Title.RemoveAllFirstOccurrence` | app/models/Check.php:27-28 | the text before the first occurrence is kept, the occurrence is deleted and deletion resumes right after it |
| `Title.RemoveAllSinglePass` | app/models/Check.php:28 | the output is not rescanned: deleting `ab` from `aabb` leaves `ab` |
| `Title.RemoveAllChanges` | app/models/Check.php:27-28 | deleting a non-empty pattern changes the text exactly when the pattern occurs in it |
| `Title.Finish` | app/models/Check.php:29 | the result ends with `/`, and is the input plus `/` when the input did not end with `/` |
| `Title.Stripped` | app/models/Check.php:27-28 | removing scheme and `www.` never lengthens the URL |
| `Title.TitleOf` | app/models/Check.php:25-34 | the title is a prefix of the stripped URL followed there only by slashes and does not itself end with `/` |
| `Title.TitleKeepsUnslashed` | app/models/Check.php:29-31 | a stripped URL without trailing slash is the title unchanged |
| `Title.TitleExample` | app/models/Check.php:25-34 | `https://www.example.com/` has the title `example.com` |

## Findings

| source | as written | input that shows it | evidently intended | confidence | as-written member | corrected member |
|---|---|---|---|---|---|---|
| app/models/Check.php:106 | the grouping query reads `checks_results` without a `check_id` condition, so the log of a check mixes in every other check's results | a success of check 1 at t=0 and a failure of check 2 at t=60: check 1's log starts with a failure while its status is "up" | only the results of this check, as `results()` and `statusCount` select | not executed | `EpisodeLog.UnfilteredLogMixesChecks` | `EpisodeLog.GetLog` |

The corrected `EpisodeLog.GetLog` is the one the rest of the model uses;
`EpisodeLog.GetLogOwnResultsOnly` and `Status.StatusOkMatchesLog` are proved of it.

## Left out

- Eloquent configuration (`$table`, `$softDelete`, `$fillable`) and the relations `theUser`, `theCompany`: ORM set-up without behaviour; `results()` appears only as `Samples.ResultsOf`.
- `scopeForUser`: an access-scoping join of the query builder, nothing to compute.
- `getIntervalFormattedAttribute` and `isPaused`: a one-line label wrapper and a cast.
- Database access, `DB::raw`, `NOW()`, Carbon conversion: rows, `now` and times are parameters in whole seconds; `start` and `end` stay integers.
- `Lang::choice`: the label of each unit is the parameter `lang`.
- Fractional `hours` spliced in by `sprintf`: the window is a whole number of hours.
- The MySQL session-variable technique: its evaluation order is not guaranteed by MySQL; the model takes the intended row-by-row order. The initialiser sets `@last_status` instead of `@last_success`, which can only change whether group numbers start at 0 or 1, not the groups, so numbers are not modelled.
- `ORDER BY created_at` has no tie-breaker, and `ORDER BY start DESC` leaves the order of groups with equal `start` open: the model fixes the given row order and the reversal of the groups.
- `Status.StatusOkMatchesLog`: holds because one row sequence fixes the tie order for both the status and the log; `getStatusOkAttribute` (`orderBy('created_at', 'desc')->take(1)`) and `getLog` (`ORDER BY created_at`) are separate queries that break ties independently, so when the two newest results share a timestamp and differ in outcome the source's status and first log entry can disagree.
- `minutesToHuman` for negative seconds: `getLog` only passes durations of at least 1, so seconds are `nat`; PHP's float notation of very large day counts is not modelled (counts are written in plain decimal).
- `str_finish` is a framework helper whose source is not part of this model; `Title.Finish` follows its documented behaviour, a single trailing `/` after deleting any already there.
- `intval` coercion of `$offset` and `$limit` (strings, fractions, `null`): offset and limit are integers in the model; the defaults 0 and 20 are `EpisodeLog.DefaultOffset` and `EpisodeLog.DefaultLimit`.
