/** The streak pass, `updateStreaks` (main.js lines 132-228): per 🔁 task with
    a checkbox, the block below it is scanned for `streak::` and
    `streak_start::`, the task's state is decided on, and the count, the start
    date and the task line are rewritten; folded over the lines of one file. */
module Streak {
  import opened Wrappers
  import opened Text
  import opened Patterns
  import opened Calendar
  import opened Blocks

  /* ---------- the block scan (lines 159-176) ---------- */

  /** What the scan has found so far: the last streak count and the last
      start-date text, each with the block index of the line it came from. */
  datatype Scan = Scan(count: Option<(nat, nat)>, start: Option<(string, nat)>)

  /** The `while` loop of lines 165-176 from block index `j` on: every line is
      trimmed and tried against both readers, and a later hit overwrites an
      earlier one. */
  function ScanBlock(block: seq<string>, j: nat, acc: Scan): (r: Scan)
    requires j <= |block|
    requires acc.count.Some? ==> acc.count.value.1 < j
    requires acc.start.Some? ==> acc.start.value.1 < j
    ensures r.count.Some? ==> r.count.value.1 < |block|
    ensures r.start.Some? ==> r.start.value.1 < |block|
    decreases |block| - j
  {
    if j == |block| then acc
    else
      var sub := Trim(block[j]);
      var count := match StreakField(sub) case Some(n) => Some((n, j)) case None => acc.count;
      var start := match StreakStartField(sub) case Some(d) => Some((d, j)) case None => acc.start;
      ScanBlock(block, j + 1, Scan(count, start))
  }

  /* ---------- the task's state and the decision (lines 152-217) ---------- */

  /** What the pass knows about a task: whether its box is ticked, its ✅ date
      (None without one, Some(None) for a date moment.js rejects), the streak
      count and the start day (None for an invalid start date). */
  datatype TaskState = TaskState(checked: bool, done: Option<Option<int>>, streak: nat, start: Option<int>)

  /** Where the state came from: the state, and the indices (in the task's
      slice of lines, the task line being 0) of the count and start lines. */
  datatype Reading = Reading(state: TaskState, countAt: nat, startAt: nat)

  /** Lines 156-157: the first `✅ YYYY-MM-DD` of the line, parsed. */
  function DoneField(line: string): Option<Option<int>> {
    match FirstMatch(DoneDate, line, 0)
    case None => None
    case Some(m) => Some(ParseDate(line[m.0 + 2..m.1]))
  }

  /** The lines the loop of lines 165-176 visits below the task line `rest[0]`. */
  function TaskBlock(rest: seq<string>): (block: seq<string>)
    requires |rest| >= 1
    ensures |block| == BlockLength(rest[1..])
  {
    rest[1..][..BlockLength(rest[1..])]
  }

  /** Lines 149-179 on the task line `rest[0]` and the lines below it: the
      task's state, or None when the loop skips the line (no 🔁, no checkbox,
      or no count or no start date in its block). */
  function ReadTask(rest: seq<string>): (r: Option<Reading>)
    requires |rest| >= 1
    ensures r.Some? ==> Repeat in rest[0] && Checkbox(rest[0]) == Some(r.value.state.checked)
    ensures r.Some? ==> 1 <= r.value.countAt <= BlockLength(rest[1..]) && 1 <= r.value.startAt <= BlockLength(rest[1..])
  {
    var line := rest[0];
    if Repeat !in line then None
    else match Checkbox(line)
      case None => None
      case Some(checked) =>
        var scan := ScanBlock(TaskBlock(rest), 0, Scan(None, None));
        if scan.count.None? || scan.start.None? then None
        else
          var state := TaskState(checked, DoneField(line), scan.count.value.0, ParseDate(scan.start.value.0));
          Some(Reading(state, 1 + scan.count.value.1, 1 + scan.start.value.1))
  }

  /** The edits lines 184-217 make: the count to write, whether the start date
      becomes today, whether the task is unchecked, and whether `changed` is set. */
  datatype Edit = Edit(count: Option<nat>, restart: bool, uncheck: bool, changed: bool)

  /** The last day the streak covers (line 182): start plus count minus one. */
  function LastDone(start: int, streak: nat): int {
    start + streak - 1
  }

  /** Lines 184-217 on day numbers, `today` being the day the pass runs.
      A ticked task with a ✅ date grows its streak when the date is
      yesterday, restarts it when the date is earlier, and is unticked unless
      the date is today. An unticked task restarts a non-zero streak once a
      day has been missed since the streak's last day; an invalid start date
      makes that difference NaN, and nothing happens. */
  function Decide(t: TaskState, today: int): (e: Edit)
    ensures e.count.Some? || e.restart || e.uncheck ==> e.changed
    ensures e.restart ==> e.count == Some(0)
    ensures e.uncheck ==> t.checked
    ensures !t.checked ==> !e.uncheck && e.count.Some? == e.restart
  {
    if t.checked && t.done.Some? then
      var d := t.done.value;
      var extend := d == Some(today - 1);
      var lapse := d.Some? && d.value < today - 1;
      var uncheck := d != Some(today);
      Edit(if extend then Some(t.streak + 1) else if lapse then Some(0) else None, lapse, uncheck, uncheck)
    else if !t.checked && t.start.Some? && (today - 1) - LastDone(t.start.value, t.streak) >= 1 && t.streak != 0 then
      Edit(Some(0), true, false, true)
    else Edit(None, false, false, false)
  }

  /** The state the edits leave behind. Unticking removes the ✅ date. */
  function Apply(t: TaskState, e: Edit, today: int): TaskState {
    TaskState(if e.uncheck then false else t.checked, if e.uncheck then None else t.done,
              e.count.GetOr(t.streak), if e.restart then Some(today) else t.start)
  }

  /** One run of the pass on the task's state. */
  function Run(t: TaskState, today: int): TaskState {
    Apply(t, Decide(t, today), today)
  }

  /* ---------- the rewrites (lines 188, 193-196, 201, 212-215) ---------- */

  /** `.replace(/streak:: \d+/, `streak:: ${n}`)` */
  function WriteCount(s: string, n: nat): string {
    ReplaceFirst(StreakCount, s, "streak:: " + Decimal(n))
  }

  /** `.replace(/streak_start:: \d{4}-\d{2}-\d{2}/, `streak_start:: ${today}`)` */
  function WriteStart(s: string, today: Civil): string {
    ReplaceFirst(StreakStartDate, s, "streak_start:: " + FormatDate(today))
  }

  /** Line 201: `line.replace('- [x]', '- [ ]').replace(/✅ \d{4}-\d{2}-\d{2}/, '').trimEnd()` */
  function Uncheck(line: string): string {
    TrimEnd(ReplaceFirst(DoneDate, ReplaceFirst(CheckedBox, line, "- [ ]"), ""))
  }

  /** Lines 186-215 in main.js's order: the count line `countAt`, then the
      start line `startAt`, then the task line 0, each rewritten when `e`
      says so; no other line is touched. */
  function Rewrite(rest: seq<string>, countAt: nat, startAt: nat, e: Edit, today: Civil): (w: seq<string>)
    requires 1 <= countAt < |rest| && 1 <= startAt < |rest|
    ensures |w| == |rest|
    ensures forall k :: 0 < k < |rest| && k != countAt && k != startAt ==> w[k] == rest[k]
    ensures e.count.None? && !e.restart && !e.uncheck ==> w == rest
  {
    var w1 := if e.count.Some? then rest[countAt := WriteCount(rest[countAt], e.count.value)] else rest;
    var w2 := if e.restart then w1[startAt := WriteStart(w1[startAt], today)] else w1;
    if e.uncheck then w2[0 := Uncheck(rest[0])] else w2
  }

  /** Lines 147-217 for the task line `rest[0]`: the slice with the count
      line, the start line and the task line rewritten as decided, and the
      `changed` flag. */
  function TaskStreak(rest: seq<string>, today: Civil): (r: PassResult)
    requires |rest| >= 1
    ensures |r.lines| == |rest|
    ensures forall k :: 1 + BlockLength(rest[1..]) <= k < |rest| ==> r.lines[k] == rest[k]
    ensures r.lines != rest ==> r.changed
    ensures ReadTask(rest).None? ==> r == PassResult(rest, false)
  {
    match ReadTask(rest)
    case None => PassResult(rest, false)
    case Some(rd) =>
      var e := Decide(rd.state, DayNumber(today));
      PassResult(Rewrite(rest, rd.countAt, rd.startAt, e, today), e.changed)
  }

  /* ---------- the loop (lines 146-219) ---------- */

  /** The loop from index `i` on, rewriting the array as it goes. */
  function StreakFrom(w: seq<string>, i: nat, today: Civil): (r: PassResult)
    requires i <= |w|
    ensures |r.lines| == |w|
    decreases |w| - i
  {
    if i == |w| then PassResult(w, false)
    else
      var t := TaskStreak(w[i..], today);
      var rest := StreakFrom(w[..i] + t.lines, i + 1, today);
      PassResult(rest.lines, t.changed || rest.changed)
  }

  /** `updateStreaks` on the lines of one file. */
  function UpdateStreaks(lines: seq<string>, today: Civil): PassResult {
    StreakFrom(lines, 0, today)
  }
}
