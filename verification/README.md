# Daily priority and streak updates of a to-do plugin, modelled in Dafny

The plugin (`main.js`, an Obsidian plugin) runs two passes over the lines of
each `ToDo…` note when the workspace is ready:

- `updatePrio` (lines 26-128) looks at each line in turn.
  - A 🔁 task whose block of indented metadata lines holds a
    `daysOfWeek::` list gets priority `[🎯:: 1]` on the listed days and
    `[🎯:: /]` on the others. This is the weekly rule; the day letters come
    from the ISO table of line 29.
  - Any other open task `- [ ] … [🎯:: …] … [⏳:: YYYY-MM-DD]` falls to the
    deadline rule. A `/` priority becomes `1` once the deadline has
    arrived. A numeric priority is meant to age from `start_prio::`, counted
    from `created::`, and to become `1` within two days of the deadline.
- `updateStreaks` (lines 132-228) handles each 🔁 task with a checkbox whose
  block holds `streak::` and `streak_start::`.
  - It reads the ✅ date.
  - It grows the streak when the task was ticked yesterday, and restarts it
    after a gap.
  - It unticks the task and strips its ✅ date unless the date is today.

The model keeps main.js's structure:

| module (file) | what it holds |
|---|---|
| `Text` (text.dfy) | JavaScript's white space, `trim`, `split`/`join`, decimal numbers, zero fill |
| `Patterns` (patterns.dfy) | every regular expression of the two passes; a leftmost match and `String.prototype.replace` |
| `Calendar` (calendar.dfy) | moment.js dates as day numbers, `YYYY-MM-DD` parsing and formatting, the ISO weekday and its letter |
| `Blocks` (blocks.dfy) | a file as lines; the metadata block below a task line; which task owns a line |
| `Priority`, `PriorityFacts` (priority.dfy) | the priority pass as a fold over the lines, and its properties |
| `FieldFacts` (fieldfacts.dfy), `MetadataFacts` (metadata.dfy) | how a written priority field and a metadata line read back |
| `Streak` (streak.dfy) | the streak pass: block scan, decision, rewrites, fold |
| `StreakFacts`, `StreakDays`, `StreakLines` (streakfacts.dfy, streakdays.dfy, streaklines.dfy) | its properties: the last hit wins, the loop is pointwise, the count over many days, written text reads back |

Strings are sequences of Unicode code points. Each of 🎯 ⏳ 🔁 ✅ is a single
character; main.js's literals carry no variation selectors. Dates are day
numbers of the proleptic Gregorian calendar, and "today" is an input.

A ✅ date later than today matches neither branch of lines 185-197, so such
a task is only unticked (lines 199-203): see `StreakDays.OtherTickOnlyUnticks`.

## Model

| member | source | states |
|---|---|---|
| Text.SplitJoin | main.js:62 | `daysField.split(',')` loses nothing: no piece holds a comma, and the pieces joined with commas give back the list |
| Text.SplitHasSingle | main.js:62 | `split(',').includes(letter)` holds exactly when the letter stands alone between commas (or the ends) somewhere in the list |
| Calendar.IsoLetter | main.js:29 | the table maps ISO weekdays 1-7 to one of the letters `MTWRFSU` |
| Calendar.IsoLettersDistinct | main.js:29 | different weekdays get different letters (`T`/`R`, `S`/`U`) |
| Calendar.WeekdayCycles | main.js:29 | the ISO weekday of the next day is one more, wrapping from 7 to 1, and repeats every seven days |
| Calendar.WeekdayAnchor | main.js:29 | the numbering matches the calendar: day 0 is Thursday 1970-01-01, 2024-01-01 is a Monday, and 2024-01-02 and 2024-01-04 get `T` and `R` |
| Calendar.YearLength | main.js:107-108 | consecutive day numbers of 1 March are 365 or 366 days apart, 366 exactly when the February in between has a leap day |
| Calendar.NextDayIsNextNumber | main.js:136 | the calendar day after a valid date is valid, and its day number is one more; so moment.js's whole-day `diff`, `isSame` and `isBefore` become arithmetic on day numbers |
| Calendar.FormatThenParse | main.js:192-196 | today's date, as `format('YYYY-MM-DD')` writes it, parses back to today's day number |
| Patterns.FirstMatch | main.js:44 | the match `String.prototype.match` reports is the leftmost one: nothing matches before it, and nothing at all when it reports none |
| Patterns.ReplaceFirstAt | main.js:66 | `replace` with a regular expression rewrites exactly the leftmost match and keeps the text on both sides |
| Patterns.Checkbox | main.js:150-153 | a line is seen as ticked exactly when it starts with `- [x]`, and as open exactly when it starts with `- [ ]` |
| Patterns.TaskMatch | main.js:74-78 | a captured priority is `/` or digits, and digits also match `[🎯:: (\d+)]`; a captured deadline has the `YYYY-MM-DD` shape |
| Patterns.TaskMatchNone | main.js:74-75 | `match` reports null exactly when the line holds no `- [ ] `, `[🎯:: /]`-or-number field and `[⏳:: YYYY-MM-DD]` field in that order with no line break between them |
| Patterns.TaskMatchOfShape | main.js:74-78 | when the pattern matches, the captures are those of the match a backtracking search tries first: the leftmost box, then the nearest priority field, then the nearest deadline field |
| Patterns.DayListHasNoSpace | main.js:55 | a list that `[MTRFSWU,]+` accepts holds no white space, so `replace(/\s+/g, '')` leaves it unchanged |
| Blocks.BlockLength | main.js:51 | the block scanned below a task is the longest run of indented `- ` lines directly under it |
| Blocks.FirstHit | main.js:51-59 | the loop that `break`s at the first hit returns the first block line that has a value, and none when no block line has one |
| Blocks.OwnerOfBlock | main.js:166 | a line lies in the block below task line `i` exactly when `i` is the nearest non-metadata line at or above it |
| Priority.WeeklyDaysFirstWins | main.js:48-59 | the day list is the one on the first `daysOfWeek::` line of the block; earlier block lines have none, and without a hit no block line has one |
| Priority.AgedPriority | main.js:107-113 | the aged priority is never below 1, and is 1 once the deadline is at most two days away |
| PriorityFacts.AgedPriorityNeverRises | main.js:108-109 | a day later, the aged priority is never higher |
| PriorityFacts.AgedPriorityDecaysDaily | main.js:108-109 | away from the deadline and above the floor, the priority is `start_prio` minus the days since creation, and drops by one each day |
| PriorityFacts.WeeklyRuleDecides | main.js:43-69 | a 🔁 task with a priority field and a day list gets `1` when today's letter stands alone in the list and `/` otherwise; the leftmost priority field is rewritten only when it differs, and the deadline rule is not consulted |
| PriorityFacts.WeeklyRuleDefers | main.js:43-45 | a 🔁 task with no day list falls through to the deadline rule; one with no priority field is skipped; a line without 🔁 goes to the deadline rule |
| PriorityFacts.LowercaseListMeansPending | main.js:53-62 | the list is read case-insensitively but compared exactly, so a lower-case list never puts today on it |
| PriorityFacts.PendingBecomesOneOnDeadline | main.js:74-88 | a line whose first match of the task pattern is `- [ ] … [🎯:: /] … [⏳:: d]` is rewritten exactly when `d` is a valid date that is today or past; the rewrite puts `[🎯:: 1]` in place of the leftmost `/`-or-number field, which then reads `1` |
| PriorityFacts.NoTaskNoDeadlineRule | main.js:74-75 | a line the task pattern does not match is left alone by the deadline rule, as written and as intended |
| PriorityFacts.AgeingScanFindsNothing | main.js:97-104 | the scan with `^start_prio::` and `^created::` finds nothing in any block: every block line starts with `-` once trimmed |
| PriorityFacts.NumericAgeingNeverFires | main.js:91-118 | so a task whose priority is a number is never rewritten by the deadline rule as written |
| PriorityFacts.OnlyPendingFires | main.js:74-118 | the deadline rule as written fires only on a task whose captured priority is `/` |
| PriorityFacts.AgeingScanMissesMetadata | main.js:97-102 | on the block `- start_prio:: n`, `- created:: date` the scan as written reads nothing, while the intended scan reads both values |
| PriorityFacts.IntendedAgeingFires | main.js:105-118 | with the intended scan, a numeric task whose block has `start_prio` and a valid `created` date is rewritten exactly when the aged priority differs from its current one |
| PriorityFacts.IntendedAgeingWrites | main.js:115-117 | that rewrite writes the aged priority into the leftmost `[🎯:: n]` field and keeps the rest of the line |
| PriorityFacts.AgedFieldReadsBack | main.js:116 | after the rewrite, the leftmost numeric field holds the aged number's digits, which read back as that number |
| PriorityFacts.WeeklyRewriteSettled | main.js:61-69 | after a weekly rewrite, the weekly rule keeps the line, as long as its 🔁 survives |
| PriorityFacts.DeadlineRewriteSettled | main.js:82-88 | after a deadline rewrite, the weekly rule still defers, and the deadline rule at most writes the same text again |
| PriorityFacts.PrioRuleIdempotent | main.js:39-119 | a second run of the rule on the rewritten line writes nothing new, as long as a 🔁 survives the rewrite |
| PriorityFacts.PrioPassIsPointwise | main.js:39-119 | the loop keeps the line count and turns each line into what the rule makes of the original line and the original lines below it; `changed` is set exactly when some line's rule fires |
| PriorityFacts.PrioPassIntendedIsPointwise | main.js:39-119 | the same for the pass with the intended ageing scan |
| Streak.ReadTask | main.js:149-179 | a task is read only when it has 🔁 and a checkbox, and its count and start lines are lines of its block |
| Streak.Decide | main.js:184-217 | every edit sets `changed`; a restart always writes count 0; only a ticked task is unticked; an unticked task is never unticked, and its count is written exactly when it restarts |
| Streak.Rewrite | main.js:186-215 | the lines below the task other than the count and start lines are untouched, and with no edit nothing changes |
| Streak.TaskStreak | main.js:147-217 | lines past the task's block are untouched, any change sets `changed`, and a line the loop skips is left as it is |
| StreakFacts.ScanTakesLastHits | main.js:165-176 | the scan returns, for each of `streak::` and `streak_start::`, the last block line that matches, since later hits overwrite earlier ones |
| StreakFacts.TaskStreakKeepsBlock | main.js:188-196 | after the rewrites, every line of the task's block is still an indented `- ` line, so the block keeps its extent |
| StreakFacts.StreakPassIsPointwise | main.js:146-219 | the loop keeps the line count, leaves each line as its owning task rewrites it when run on the original text, and sets `changed` exactly when some task on the original text does |
| StreakDays.StreakCountsTickedDays | main.js:184-217 | with a run every morning, a freshly started streak counts exactly the days ticked in a row up to yesterday; the task is unticked after each run, and the streak's last day is never after yesterday |
| StreakDays.TickedTodayStays | main.js:185-203 | a task ticked today is left unchanged |
| StreakDays.TickedYesterdayExtends | main.js:186-189 | a task ticked yesterday gains one day, keeps its start, and is unticked with its ✅ date removed |
| StreakDays.LateTickRestarts | main.js:190-197 | a task last ticked before yesterday restarts at 0 from today and is unticked |
| StreakDays.OtherTickOnlyUnticks | main.js:185-203 | a ✅ date after today, or one moment.js rejects, only unticks the task; count and start date stay |
| StreakDays.TickedWithoutDateStays | main.js:184-207 | a ticked task without a ✅ date is left unchanged: no count, start or checkbox edit |
| StreakDays.UntickedRestarts | main.js:207-217 | an unticked task restarts exactly when its count is non-zero, its start date is valid, and a whole day lies between its last day and yesterday |
| MetadataFacts.NumberLineReads | main.js:169 | a line `<indent>- key:: digits` is a metadata line, and its number reads back as the digits' value |
| MetadataFacts.DaysLineReads | main.js:51-52 | a line `<indent>- daysOfWeek:: <list><tail>`, with the key in any ASCII case, is a metadata line. Whatever tail follows the list, provided it does not start with a day code, `DaysOn` (the match of line 52 on the trimmed line) reads back the whole list and nothing of the tail |
| MetadataFacts.DateLineReads | main.js:172 | a line `<indent>- key:: YYYY-MM-DD` is a metadata line, and its date reads back as that text |
| FieldFacts.RewrittenFieldStaysFirst | main.js:66 | a priority field written over the leftmost match stays the leftmost match, and now holds the written value |
| StreakLines.WriteCountLine | main.js:188 | on a count line in the usual form, the rewrite replaces the number and keeps the line's form |
| StreakLines.WriteStartLine | main.js:194-196 | on a start line in the usual form, the rewrite puts today's date in and keeps the line's form |
| StreakLines.UncheckKeepsTask | main.js:201 | unticking leaves an open box and keeps the 🔁, so the next run reads the task again |
| StreakLines.UncheckSteps | main.js:201 | unticking turns the leading `- [x]` into `- [ ]`, cuts out the first `✅ YYYY-MM-DD` of the result when there is one, and trims the end |
| StreakLines.UncheckRemovesDate | main.js:199-203 | a task line `- [x] … ✅ YYYY-MM-DD` with no other ✅ and only white space after the date becomes the same text with an open box, the date gone and the end trimmed; the next run reads no ✅ date on it |
| StreakLines.WrittenShows | main.js:147-217 | what one run writes on a task in the usual form holds the decided count and start date as the last hits of its block, and the task line ticked as decided |
| StreakLines.ShownIsRead | main.js:149-179 | the next run reads such lines as a state that agrees with the decided one |
| StreakLines.TaskStreakReadsBack | main.js:147-217 | the lines one run writes are read by the next run as the state the run decided on (the ✅ date of an unticked task aside, which nothing reads) |

## Left out

- Plugin registration, the `layout-ready` event and the error handler (lines 9-23): event wiring only.
- Choosing the files (`getMarkdownFiles`, `ToDo` prefix), reading and writing them, and `split('\n')`/`join('\n')` (lines 31-37, 121-125, 138-144, 221-225). These are vault I/O. The model is one file's lines, and each pass returns the new lines with the `changed` flag that decides the write.
- `Notice` and `console.log` (lines 27, 127, 133, 227): output only.
- The clock: `moment()` and `startOf('day')` become the input `today`, a calendar date. Time zones and daylight-saving shifts of moment.js's day arithmetic are not modelled; every difference is in whole days.
- moment.js's lenient parsing beyond the `\d{4}-\d{2}-\d{2}` texts the regular expressions hand it: `ParseDate` accepts exactly those texts with a valid month and day.
- JavaScript numbers: `parseInt` and the arithmetic of lines 92-113 and 182-208 are on unbounded integers. Precision loss above 2^53 is not modelled.
- Strings as UTF-16: code points stand for characters. The regular expressions have no `u` flag, so `\S+?` (lines 44, 66) and `.*?` (line 74) step over UTF-16 code units and can stop between the two halves of an emoji such as 🔁. Each of them must be followed by `]` or `[`, which never matches a lone surrogate. So every match still ends on a character boundary, and the results are those of matching on code points.
- Priority.UpdatePrio: one file only; the outer loop over files is the same fold repeated per file.
- Streak.UpdateStreaks: one file only, for the same reason.
- PriorityFacts.PrioRuleIdempotent: assumes the 🔁 of a weekly task survives the rewrite. A 🔁 written inside the very priority field being replaced would vanish, and is left unstated.

## Findings

| source | as written | input that shows it | evidently intended | confidence | as-written member | corrected member |
|---|---|---|---|---|---|---|
| main.js:97-104 | the loop only visits lines matching `/^[ \t]+- /`, so each trimmed line starts with `-`; the anchored `/^start_prio:: (\d+)/` and `/^created:: …/` can never match, so numeric priorities never age | a task `- [ ] a [🎯:: 5] [⏳:: 2030-01-01]` with block `  - start_prio:: 5` and `  - created:: 2024-01-01`: nothing is read and the priority stays 5 | read the key after the list item's dash, `^-+\s*start_prio::\s*(\d+)`, like the other metadata readers of lines 53, 169 and 172 | high, not executed | PriorityFacts.AgeingScanMissesMetadata | PriorityFacts.IntendedAgeingFires |
