/** The priority pass, `updatePrio` (main.js lines 39-119): per line, the
    weekly rule for 🔁 tasks with a `daysOfWeek::` list, otherwise the deadline
    rule, folded over the lines of one file. */
module Priority {
  import opened Wrappers
  import opened Text
  import opened Patterns
  import opened Calendar
  import opened Blocks

  /** What the weekly rule makes of a line: not its business (`Defer`, the
      deadline rule runs), settled without a change (`Keep`), or rewritten. */
  datatype Verdict = Defer | Keep | Replace(line: string)

  /* ---------- 1A. weekly recurring tasks (lines 43-70) ---------- */

  /** What the loop of lines 48-59 reads off one line below the task: the
      `daysOfWeek::` list of the trimmed line. */
  function DaysOn(line: string): Option<string> {
    DaysField(Trim(line))
  }

  /** Lines 48-59: the day list of the first `daysOfWeek::` line in the block
      below the task line (white space removed, of which it has none). */
  function WeeklyDays(below: seq<string>): (r: Option<string>)
    ensures r.Some? ==> |r.value| >= 1 && forall k :: 0 <= k < |r.value| ==> IsDayCode(r.value[k])
  {
    match FirstHit(below, DaysOn)
    case None => None
    case Some((d, _)) =>
      DayListHasNoSpace(d);
      Some(RemoveSpaces(d))
  }

  /** The scan stops at the first `daysOfWeek::` line of the block: later ones
      and lines after the block are never consulted. */
  lemma WeeklyDaysFirstWins(below: seq<string>)
    ensures WeeklyDays(below).Some? ==>
              exists k :: 0 <= k < BlockLength(below) && DaysField(Trim(below[k])) == WeeklyDays(below)
                          && forall m :: 0 <= m < k ==> DaysField(Trim(below[m])).None?
    ensures WeeklyDays(below).None? ==> forall k :: 0 <= k < BlockLength(below) ==> DaysField(Trim(below[k])).None?
  {
    var h := FirstHit(below, DaysOn);
    if h.Some? {
      var k := h.value.1;
      assert DaysOn(below[k]) == Some(h.value.0);
      DayListHasNoSpace(h.value.0);
    }
  }

  /** Today is on the list: its letter stands alone between commas. The
      comparison is exact, so a lower-case code never matches. */
  predicate Listed(days: string, letter: char) {
    exists j :: 0 <= j < |days| && days[j] == letter && StandsAlone(days, j, ',')
  }

  /** The day list's verdict on today: `1` when today's letter is a piece of it, else `/`. */
  function WeeklyTarget(days: string, letter: char): string {
    if [letter] in Split(days, ',') then "1" else "/"
  }

  /** Lines 43-70 on one line. */
  function WeeklyRule(line: string, below: seq<string>, letter: char): Verdict {
    if Repeat !in line then Defer
    else match FirstMatch(AnyPriority, line, 0)
      case None => Keep
      case Some(m) =>
        match WeeklyDays(below)
        case None => Defer
        case Some(days) =>
          var target := WeeklyTarget(days, letter);
          if FieldValue(line, m) == target then Keep
          else Replace(ReplaceFirst(AnyPriority, line, PriorityText(target)))
  }

  /* ---------- 1B. the deadline rule (lines 74-118) ---------- */

  /** Lines 107-113: the priority falls by one for every day since creation,
      never below 1, and is 1 once the deadline is two days away or less. */
  function AgedPriority(startPrio: nat, created: int, deadline: Option<int>, today: int): (p: nat)
    ensures p >= 1
    ensures deadline.Some? && deadline.value - today <= 2 ==> p == 1
  {
    var decayed := startPrio - (today - created);
    var newPrio := if decayed > 1 then decayed else 1;
    if deadline.Some? && deadline.value - today <= 2 then 1 else newPrio
  }

  /** Lines 95-104: the block below the task line is read to its end, and the
      last line each reader accepts supplies `start_prio` and `created`. */
  function AgeingScanBy(below: seq<string>, startPrio: string -> Option<nat>, created: string -> Option<string>)
    : (Option<nat>, Option<string>)
    decreases |below|
  {
    if |below| == 0 || !IsSubLine(below[0]) then (None, None)
    else
      var rest := AgeingScanBy(below[1..], startPrio, created);
      var sub := Trim(below[0]);
      (if rest.0.Some? then rest.0 else startPrio(sub), if rest.1.Some? then rest.1 else created(sub))
  }

  /** Lines 95-104 as written: the patterns of lines 99-100 are anchored at the
      start of the trimmed line. */
  function AgeingScan(below: seq<string>): (Option<nat>, Option<string>) {
    AgeingScanBy(below, StartPrioField, CreatedField)
  }

  /** Lines 95-104 as evidently intended: `start_prio::` and `created::` read
      after the dash of the list item, as the other metadata readers do. */
  function AgeingScanIntended(below: seq<string>): (Option<nat>, Option<string>) {
    AgeingScanBy(below, StartPrioIntended, CreatedIntended)
  }

  /** `/^-+\s*start_prio::\s*(\d+)/` */
  function StartPrioIntended(sub: string): Option<nat> {
    NumberField(sub, "start_prio::", false)
  }

  /** `/^-+\s*created::\s*(\d{4}-\d{2}-\d{2})/` */
  function CreatedIntended(sub: string): Option<string> {
    DateField(sub, "created::", false)
  }

  /** Lines 107-113 with `created` as text: the aged priority, or None for the
      NaN an invalid `created` date produces (which the deadline override
      still turns into 1). */
  function FreshPriority(startPrio: nat, created: string, deadline: Option<int>, today: int): (r: Option<nat>)
    ensures r.Some? ==> r.value >= 1
  {
    match ParseDate(created)
    case Some(c) => Some(AgedPriority(startPrio, c, deadline, today))
    case None => if deadline.Some? && deadline.value - today <= 2 then Some(1) else None
  }

  /** Lines 105-118 once the block is scanned: nothing unless both `start_prio`
      and `created` were found; otherwise the fresh priority replaces the first
      numeric priority field whenever it differs from the current priority. */
  function NumericUpdate(line: string, prio: nat, startPrio: Option<nat>, created: Option<string>,
                         deadline: Option<int>, today: int): Option<string>
  {
    if startPrio.None? || created.None? then None
    else
      var aged := FreshPriority(startPrio.value, created.value, deadline, today);
      if aged == Some(prio) then None
      else Some(ReplaceFirst(NumberPriority, line, PriorityText(match aged case Some(p) => Decimal(p) case None => "NaN")))
  }

  /** Lines 74-118 on one line, given what the block scan of lines 95-104
      found: the replacement, when one is made. */
  function DeadlineRuleWith(line: string, today: int, ageing: (Option<nat>, Option<string>)): Option<string> {
    match TaskMatch(line)
    case None => None
    case Some((prio, deadlineText)) =>
      var deadline := ParseDate(deadlineText);
      if prio == "/" then
        if deadline.Some? && today >= deadline.value then Some(ReplaceFirst(PendingOrNumber, line, PriorityText("1")))
        else None
      else
        NumericUpdate(line, DecimalValue(prio), ageing.0, ageing.1, deadline, today)
  }

  /** Lines 74-118 as written. */
  function DeadlineRule(line: string, below: seq<string>, today: int): Option<string> {
    DeadlineRuleWith(line, today, AgeingScan(below))
  }

  /** Lines 74-118 with the block read as evidently intended. */
  function DeadlineRuleIntended(line: string, below: seq<string>, today: int): Option<string> {
    DeadlineRuleWith(line, today, AgeingScanIntended(below))
  }

  /* ---------- the loop (lines 39-119) ---------- */

  /** One iteration of the loop: the line's new text when a replacement is made
      (which sets `changed`). */
  function PrioRule(line: string, below: seq<string>, today: int, letter: char): Option<string> {
    match WeeklyRule(line, below, letter)
    case Keep => None
    case Replace(l) => Some(l)
    case Defer => DeadlineRule(line, below, today)
  }

  /** Lines 43-118 with the block below a numeric task read as evidently
      intended (see AgeingScanIntended). */
  function PrioRuleIntended(line: string, below: seq<string>, today: int, letter: char): Option<string> {
    match WeeklyRule(line, below, letter)
    case Keep => None
    case Replace(l) => Some(l)
    case Defer => DeadlineRuleIntended(line, below, today)
  }

  /** The rule one iteration applies: as written, or as evidently intended. */
  function LineRule(intended: bool, line: string, below: seq<string>, today: int, letter: char): Option<string> {
    if intended then PrioRuleIntended(line, below, today, letter) else PrioRule(line, below, today, letter)
  }

  /** The loop from index `i` on, rewriting the array as it goes. */
  function PrioFrom(lines: seq<string>, i: nat, today: Civil, intended: bool): (r: PassResult)
    requires i <= |lines|
    ensures |r.lines| == |lines|
    decreases |lines| - i
  {
    if i == |lines| then PassResult(lines, false)
    else
      var fired := LineRule(intended, lines[i], lines[i + 1..], DayNumber(today), TodayLetter(today));
      var next := if fired.Some? then lines[i := fired.value] else lines;
      var rest := PrioFrom(next, i + 1, today, intended);
      PassResult(rest.lines, fired.Some? || rest.changed)
  }

  /** `updatePrio` on the lines of one file. */
  function UpdatePrio(lines: seq<string>, today: Civil): PassResult {
    PrioFrom(lines, 0, today, false)
  }

  /** `updatePrio` on the lines of one file, numeric ageing as evidently intended. */
  function UpdatePrioIntended(lines: seq<string>, today: Civil): PassResult {
    PrioFrom(lines, 0, today, true)
  }
}

/** What the priority pass promises, rule by rule and for the whole file. */
module PriorityFacts {
  import opened Wrappers
  import opened Text
  import opened Patterns
  import opened Calendar
  import opened Blocks
  import opened Priority
  import opened FieldFacts
  import opened MetadataFacts

  /* ---------- numeric ageing as written ---------- */

  /** The scan of a block none of whose lines either reader accepts finds nothing. */
  lemma {:induction false} ScanOfNothing(below: seq<string>, startPrio: string -> Option<nat>, created: string -> Option<string>)
    requires forall k :: 0 <= k < BlockLength(below) ==> startPrio(Trim(below[k])).None? && created(Trim(below[k])).None?
    ensures AgeingScanBy(below, startPrio, created) == (None, None)
    decreases |below|
  {
    if |below| > 0 && IsSubLine(below[0]) {
      forall k | 0 <= k < BlockLength(below[1..])
        ensures startPrio(Trim(below[1..][k])).None? && created(Trim(below[1..][k])).None?
      {
        assert below[1..][k] == below[k + 1];
      }
      ScanOfNothing(below[1..], startPrio, created);
    }
  }

  /** A metadata line starts with `-` once trimmed, so neither anchored
      pattern of lines 99-100 matches it. */
  lemma AnchoredMiss(s: string)
    requires IsSubLine(s)
    ensures StartPrioField(Trim(s)).None? && CreatedField(Trim(s)).None?
  {
    SubLineTrim(s);
    DashBeforeLiteral(Trim(s), "start_prio:: ");
    DashBeforeLiteral(Trim(s), "created:: ");
  }

  /** A text starting with `-` does not start with a literal that does not. */
  lemma DashBeforeLiteral(t: string, lit: string)
    requires |t| >= 1 && t[0] == '-' && |lit| >= 1 && lit[0] != '-'
    ensures !LiteralAt(t, 0, lit)
  {
  }

  /** The anchored `^start_prio::` and `^created::` patterns of lines 99-100
      never match: every line the scan visits starts with `-` once trimmed. */
  lemma AgeingScanFindsNothing(below: seq<string>)
    ensures AgeingScan(below) == (None, None)
  {
    forall k | 0 <= k < BlockLength(below)
      ensures StartPrioField(Trim(below[k])).None? && CreatedField(Trim(below[k])).None?
    {
      AnchoredMiss(below[k]);
    }
    ScanOfNothing(below, StartPrioField, CreatedField);
  }

  /** Hence a numeric priority is never rewritten: only `/` priorities change
      under the deadline rule. */
  lemma NumericAgeingNeverFires(line: string, below: seq<string>, today: int, prio: string, deadline: string)
    requires TaskMatch(line) == Some((prio, deadline)) && prio != "/"
    ensures DeadlineRule(line, below, today) == None
  {
    AgeingScanFindsNothing(below);
  }

  /** So the deadline rule as written only ever rewrites a `/` task. */
  lemma OnlyPendingFires(line: string, below: seq<string>, today: int)
    requires DeadlineRule(line, below, today).Some?
    ensures TaskMatch(line).Some? && TaskMatch(line).value.0 == "/"
  {
    if TaskMatch(line).Some? && TaskMatch(line).value.0 != "/" {
      NumericAgeingNeverFires(line, below, today, TaskMatch(line).value.0, TaskMatch(line).value.1);
    }
  }

  /* ---------- numeric ageing as evidently intended ---------- */

  /** The metadata block the ageing rule is written for, `<indent>- start_prio:: n`
      and `<indent>- created:: YYYY-MM-DD`: the as-written scan reads nothing
      from it, the intended scan reads both values. */
  lemma AgeingScanMissesMetadata(ind: string, digits: string, date: string)
    requires WellFormed(ind, "start_prio::", digits) && AllDigits(digits)
    requires WellFormed(ind, "created::", date) && |date| == 10 && DateShapeAt(date, 0)
    ensures var block := [MetadataText(ind, "start_prio::", digits), MetadataText(ind, "created::", date)];
            AgeingScan(block) == (None, None)
            && AgeingScanIntended(block) == (Some(DecimalValue(digits)), Some(date))
  {
    var s0 := MetadataText(ind, "start_prio::", digits);
    var s1 := MetadataText(ind, "created::", date);
    AgeingScanFindsNothing([s0, s1]);
    IntendedScanReadsMetadata(ind, digits, date, s0, s1);
  }

  /** The intended scan reads both values of the metadata block. */
  lemma IntendedScanReadsMetadata(ind: string, digits: string, date: string, s0: string, s1: string)
    requires WellFormed(ind, "start_prio::", digits) && AllDigits(digits)
    requires WellFormed(ind, "created::", date) && |date| == 10 && DateShapeAt(date, 0)
    requires s0 == MetadataText(ind, "start_prio::", digits) && s1 == MetadataText(ind, "created::", date)
    ensures AgeingScanIntended([s0, s1]) == (Some(DecimalValue(digits)), Some(date))
  {
    NumberLineReads(ind, "start_prio::", digits, false);
    DateLineReads(ind, "created::", date, false);
    OtherKeyLineAbsent(ind, "created::", date, "start_prio::", false);
    IntendedScanOfTwo(s0, s1, DecimalValue(digits), date);
  }

  /** The intended scan of a two-line block whose second line holds only the date. */
  lemma IntendedScanOfTwo(s0: string, s1: string, p: nat, d: string)
    requires IsSubLine(s0) && IsSubLine(s1)
    requires StartPrioIntended(Trim(s0)) == Some(p) && StartPrioIntended(Trim(s1)) == None
    requires CreatedIntended(Trim(s1)) == Some(d)
    ensures AgeingScanIntended([s0, s1]) == (Some(p), Some(d))
  {
    ScanTwo(s0, s1, StartPrioIntended, CreatedIntended);
  }

  /** The scan of a two-line block: the later line wins where it has a value. */
  lemma ScanTwo(s0: string, s1: string, startPrio: string -> Option<nat>, created: string -> Option<string>)
    requires IsSubLine(s0) && IsSubLine(s1)
    ensures AgeingScanBy([s0, s1], startPrio, created)
            == (if startPrio(Trim(s1)).Some? then startPrio(Trim(s1)) else startPrio(Trim(s0)),
                if created(Trim(s1)).Some? then created(Trim(s1)) else created(Trim(s0)))
  {
    assert [s0, s1][1..] == [s1];
    assert [s1][1..] == [];
    assert AgeingScanBy([s1], startPrio, created) == (startPrio(Trim(s1)), created(Trim(s1)));
  }

  /** With the intended scan the rule does what lines 105-118 mean: when the
      block holds `start_prio` and a valid `created` date, the task is
      rewritten exactly when the aged priority differs from its current one. */
  lemma IntendedAgeingFires(line: string, below: seq<string>, today: int, prio: string, deadline: string,
                            sp: nat, created: string, c: int)
    requires TaskMatch(line) == Some((prio, deadline)) && prio != "/"
    requires AgeingScanIntended(below) == (Some(sp), Some(created)) && ParseDate(created) == Some(c)
    ensures DeadlineRuleIntended(line, below, today).Some?
            <==> AgedPriority(sp, c, ParseDate(deadline), today) != DecimalValue(prio)
  {
    NumericRuleShape(line, today, AgeingScanIntended(below), prio, deadline);
    var m := FirstMatch(NumberPriority, line, 0).value;
    IntendedAgeingShape(line, below, today, prio, deadline, sp, created, c, m, AgedPriority(sp, c, ParseDate(deadline), today));
  }

  /** ... and the rewrite puts the aged priority `p` into the first numeric
      field `m`. */
  lemma IntendedAgeingWrites(line: string, below: seq<string>, today: int, prio: string, deadline: string,
                             sp: nat, created: string, c: int, m: (nat, nat), p: nat, l: string)
    requires TaskMatch(line) == Some((prio, deadline)) && prio != "/"
    requires AgeingScanIntended(below) == (Some(sp), Some(created)) && ParseDate(created) == Some(c)
    requires FirstMatch(NumberPriority, line, 0) == Some(m)
    requires p == AgedPriority(sp, c, ParseDate(deadline), today)
    requires DeadlineRuleIntended(line, below, today) == Some(l)
    ensures l == line[..m.0] + PriorityText(Decimal(p)) + line[m.1..]
  {
    IntendedAgeingShape(line, below, today, prio, deadline, sp, created, c, m, p);
  }

  /** The aged number written over the leftmost `[🎯:: n]` field is what the
      next run reads back from that field. */
  lemma AgedFieldReadsBack(line: string, m: (nat, nat), p: nat, l: string)
    requires FirstMatch(NumberPriority, line, 0) == Some(m)
    requires l == line[..m.0] + PriorityText(Decimal(p)) + line[m.1..]
    ensures FirstFieldReads(NumberPriority, l, m.0, Decimal(p)) && DecimalValue(Decimal(p)) == p
  {
    NumberRewriteStaysFirst(line, m, Decimal(p), l);
  }

  lemma IntendedAgeingShape(line: string, below: seq<string>, today: int, prio: string, deadline: string,
                            sp: nat, created: string, c: int, m: (nat, nat), p: nat)
    requires TaskMatch(line) == Some((prio, deadline)) && prio != "/"
    requires AgeingScanIntended(below) == (Some(sp), Some(created)) && ParseDate(created) == Some(c)
    requires FirstMatch(NumberPriority, line, 0) == Some(m)
    requires p == AgedPriority(sp, c, ParseDate(deadline), today)
    ensures DeadlineRuleIntended(line, below, today)
              == if p == DecimalValue(prio) then None else Some(line[..m.0] + PriorityText(Decimal(p)) + line[m.1..])
  {
    NumericRuleShape(line, today, AgeingScanIntended(below), prio, deadline);
    assert FreshPriority(sp, created, ParseDate(deadline), today) == Some(p);
  }

  /** The deadline rule on a line whose task pattern captured a number. */
  lemma NumericRuleShape(line: string, today: int, ageing: (Option<nat>, Option<string>), prio: string, deadline: string)
    requires TaskMatch(line) == Some((prio, deadline)) && prio != "/"
    ensures FirstMatch(NumberPriority, line, 0).Some?
    ensures DeadlineRuleWith(line, today, ageing) == NumericUpdate(line, DecimalValue(prio), ageing.0, ageing.1, ParseDate(deadline), today)
  {
  }

  /* ---------- the ageing formula ---------- */

  /** Waiting a day never makes a task less urgent. */
  lemma AgedPriorityNeverRises(startPrio: nat, created: int, deadline: Option<int>, today: int)
    ensures AgedPriority(startPrio, created, deadline, today + 1) <= AgedPriority(startPrio, created, deadline, today)
  {
  }

  /** Away from the deadline and above the floor, each day lowers the priority by one. */
  lemma AgedPriorityDecaysDaily(startPrio: nat, created: int, deadline: Option<int>, today: int)
    requires deadline.None? || deadline.value - today > 3
    requires startPrio - (today + 1 - created) >= 1
    ensures AgedPriority(startPrio, created, deadline, today + 1) == AgedPriority(startPrio, created, deadline, today) - 1
    ensures AgedPriority(startPrio, created, deadline, today) == startPrio - (today - created)
  {
  }

  /* ---------- the weekly rule ---------- */

  /** Today's letter is never the list separator. */
  lemma TodayLetterIsNoComma(today: Civil)
    ensures TodayLetter(today) != ',' && TodayLetter(today) in "MTWRFSU"
  {
  }

  /** A 🔁 task with a priority field and a day list in its block gets `1` when
      today's letter stands alone in the list and `/` otherwise; the first
      priority field is rewritten to that value unless it already holds it,
      and the deadline rule is never consulted. */
  lemma WeeklyRuleDecides(line: string, below: seq<string>, today: Civil, m: (nat, nat), days: string)
    requires Repeat in line
    requires FirstMatch(AnyPriority, line, 0) == Some(m)
    requires WeeklyDays(below) == Some(days)
    ensures var target := if Listed(days, TodayLetter(today)) then "1" else "/";
            PrioRule(line, below, DayNumber(today), TodayLetter(today))
              == if FieldValue(line, m) == target then None
                 else Some(line[..m.0] + PriorityText(target) + line[m.1..])
  {
    TodayLetterIsNoComma(today);
    SplitHasSingle(days, ',', TodayLetter(today));
  }

  /** A 🔁 task whose block has no day list is left to the deadline rule, and
      one with a day list but no priority field is left alone. */
  lemma WeeklyRuleDefers(line: string, below: seq<string>, today: int, letter: char)
    ensures Repeat in line && FirstMatch(AnyPriority, line, 0).Some? && WeeklyDays(below).None?
            ==> PrioRule(line, below, today, letter) == DeadlineRule(line, below, today)
    ensures Repeat in line && FirstMatch(AnyPriority, line, 0).None? ==> PrioRule(line, below, today, letter) == None
    ensures Repeat !in line ==> PrioRule(line, below, today, letter) == DeadlineRule(line, below, today)
  {
  }

  /** The list is read with `/i` but compared exactly: a list written in
      lower case never puts today on it. */
  lemma LowercaseListMeansPending(days: string, today: Civil)
    requires forall k :: 0 <= k < |days| ==> days[k] !in "MTWRFSU"
    ensures !Listed(days, TodayLetter(today))
  {
    TodayLetterIsNoComma(today);
  }

  /* ---------- the deadline rule ---------- */

  /** The deadline rule on a line whose task pattern captured `/`. */
  lemma PendingRuleShape(line: string, below: seq<string>, today: int, deadline: string)
    requires TaskMatch(line) == Some(("/", deadline))
    ensures FirstMatch(PendingOrNumber, line, 0).Some?
    ensures DeadlineRule(line, below, today)
              == if ParseDate(deadline).Some? && today >= ParseDate(deadline).value
                 then var m := FirstMatch(PendingOrNumber, line, 0).value; Some(line[..m.0] + PriorityText("1") + line[m.1..])
                 else None
  {
  }

  /** The first `/`-or-number priority field of `l` starts at `a` and reads `1`. */
  predicate OneFieldAt(l: string, a: nat) {
    FirstMatch(PendingOrNumber, l, 0) == Some((a, a + 7)) && FieldAt(l, a, "1")
  }

  /** A line of the shape `- [ ] … [🎯:: /] … [⏳:: d]` (the match of line 74
      that JavaScript reports, `d` its deadline text) becomes priority 1
      exactly when `d` is a valid date that has arrived; the edit writes
      `[🎯:: 1]` over the first `[🎯:: /]`-or-number field and touches nothing
      else. A line the pattern does not match is left to itself. */
  lemma PendingBecomesOneOnDeadline(line: string, below: seq<string>, today: int, b: nat, a: nat, d: nat)
    requires LeftmostTaskShape(line, b, a, d) && TaskCaptures(line, b, a, d).0 == "/"
    ensures var deadline := line[d + 5..d + 15];
            DeadlineRule(line, below, today).Some? <==> ParseDate(deadline).Some? && today >= ParseDate(deadline).value
    ensures FirstMatch(PendingOrNumber, line, 0).Some?
    ensures DeadlineRule(line, below, today).Some? ==>
              var m := FirstMatch(PendingOrNumber, line, 0).value;
              && DeadlineRule(line, below, today).value == line[..m.0] + PriorityText("1") + line[m.1..]
              && OneFieldAt(DeadlineRule(line, below, today).value, m.0)
  {
    TaskMatchOfShape(line, b, a, d);
    PendingCaptureBecomesOne(line, below, today, TaskCaptures(line, b, a, d).1);
  }

  /** Without a match of line 74 the deadline rule, as written or as
      intended, does nothing. */
  lemma NoTaskNoDeadlineRule(line: string, below: seq<string>, today: int)
    requires forall b, a, d :: !TaskShapeAt(line, b, a, d)
    ensures DeadlineRule(line, below, today).None? && DeadlineRuleIntended(line, below, today).None?
  {
    TaskMatchNone(line);
  }

  /** The same on the captures `match` reports. */
  lemma PendingCaptureBecomesOne(line: string, below: seq<string>, today: int, deadline: string)
    requires TaskMatch(line) == Some(("/", deadline))
    ensures DeadlineRule(line, below, today).Some? <==> ParseDate(deadline).Some? && today >= ParseDate(deadline).value
    ensures FirstMatch(PendingOrNumber, line, 0).Some?
    ensures DeadlineRule(line, below, today).Some? ==>
              var m := FirstMatch(PendingOrNumber, line, 0).value;
              && DeadlineRule(line, below, today).value == line[..m.0] + PriorityText("1") + line[m.1..]
              && OneFieldAt(DeadlineRule(line, below, today).value, m.0)
  {
    PendingRuleShape(line, below, today, deadline);
    var m := FirstMatch(PendingOrNumber, line, 0).value;
    OneWrittenFirst(line, m);
  }

  /** `[🎯:: 1]` written over the first `/`-or-number field is that field afterwards. */
  lemma OneWrittenFirst(line: string, m: (nat, nat))
    requires FirstMatch(PendingOrNumber, line, 0) == Some(m)
    ensures OneFieldAt(line[..m.0] + PriorityText("1") + line[m.1..], m.0)
  {
    var l := line[..m.0] + PriorityText("1") + line[m.1..];
    RewrittenFieldStaysFirst(PendingOrNumber, line, m, "1", l);
    MatchIsField(PendingOrNumber, l, m.0, m.0 + 7);
  }

  /** A line whose first `/`-or-number priority field already reads `1` is
      settled for the deadline rule: at most it is rewritten to itself. */
  lemma DeadlineRuleSettled(line: string, below: seq<string>, today: int, a: nat)
    requires OneFieldAt(line, a)
    ensures DeadlineRule(line, below, today) == None || DeadlineRule(line, below, today) == Some(line)
  {
    if TaskMatch(line).Some? {
      var (prio, deadline) := TaskMatch(line).value;
      if prio == "/" {
        PendingSettled(line, below, today, a, deadline);
      } else {
        NumericAgeingNeverFires(line, below, today, prio, deadline);
      }
    }
  }

  /** The `/` case of the above: the rewrite writes the field's own text. */
  lemma PendingSettled(line: string, below: seq<string>, today: int, a: nat, deadline: string)
    requires OneFieldAt(line, a) && TaskMatch(line) == Some(("/", deadline))
    ensures DeadlineRule(line, below, today) == None || DeadlineRule(line, below, today) == Some(line)
  {
    PendingRuleShape(line, below, today, deadline);
    RewriteSameField(line, a, "1");
  }

  /** A weekly rewrite puts the target into the leftmost priority field. */
  lemma WeeklyReplaceShape(line: string, below: seq<string>, letter: char, l: string) returns (m: (nat, nat))
    requires WeeklyRule(line, below, letter) == Replace(l)
    ensures Repeat in line && WeeklyDays(below).Some? && FirstMatch(AnyPriority, line, 0) == Some(m)
    ensures l == line[..m.0] + PriorityText(WeeklyTarget(WeeklyDays(below).value, letter)) + line[m.1..]
  {
    m := FirstMatch(AnyPriority, line, 0).value;
  }

  /** A 🔁 line whose leftmost priority field holds the target is kept. */
  lemma TargetKept(l: string, below: seq<string>, letter: char, a: nat)
    requires Repeat in l && WeeklyDays(below).Some?
    requires FirstFieldReads(AnyPriority, l, a, WeeklyTarget(WeeklyDays(below).value, letter))
    ensures WeeklyRule(l, below, letter) == Keep
  {
  }

  /** A weekly rewrite is settled: the field now holds the target, so the
      weekly rule keeps the line (while its 🔁 survives). */
  lemma WeeklyRewriteSettled(line: string, below: seq<string>, letter: char, l: string)
    requires WeeklyRule(line, below, letter) == Replace(l)
    requires Repeat in l
    ensures WeeklyRule(l, below, letter) == Keep
  {
    var m := WeeklyReplaceShape(line, below, letter, l);
    var target := WeeklyTarget(WeeklyDays(below).value, letter);
    RewrittenFieldStaysFirst(AnyPriority, line, m, target, l);
    TargetKept(l, below, letter, m.0);
  }

  /** Writing `[🎯:: 1]` over a field of a line the weekly rule defers on
      leaves it deferring: no 🔁 appears, and the day list is unchanged. */
  lemma StillDefers(line: string, below: seq<string>, letter: char, a: nat, b: nat, l: string)
    requires WeeklyRule(line, below, letter) == Defer
    requires a <= b <= |line| && LiteralAt(line, a, PriorityOpen)
    requires l == line[..a] + PriorityText("1") + line[b..]
    ensures WeeklyRule(l, below, letter) == Defer
  {
    SplicedField(line, a, b, "1", l);
    if Repeat in line {
      assert LiteralAt(l, a, PriorityOpen);
      FieldMatchesAt(AnyPriority, l, a, "1");
      assert FirstMatch(AnyPriority, l, 0).Some?;
    } else {
      RepeatNotAdded(line, a, b, l);
    }
  }

  /** Writing a priority field brings in no 🔁. */
  lemma RepeatNotAdded(line: string, a: nat, b: nat, l: string)
    requires a <= b <= |line| && l == line[..a] + PriorityText("1") + line[b..]
    requires Repeat !in line
    ensures Repeat !in l
  {
    assert Repeat !in PriorityText("1");
    if Repeat in l {
      InSplice(line, a, b, PriorityText("1"), Repeat);
    }
  }

  /** What a firing of the deadline rule as written looks like: `[🎯:: 1]`
      written over a priority field, after which the rule is settled. */
  lemma DeadlineRewriteShape(line: string, below: seq<string>, today: int, l: string)
    requires DeadlineRule(line, below, today) == Some(l)
    ensures exists a: nat, b: nat :: a <= b <= |line| && LiteralAt(line, a, PriorityOpen)
                                    && l == line[..a] + PriorityText("1") + line[b..]
    ensures DeadlineRule(l, below, today) == None || DeadlineRule(l, below, today) == Some(l)
  {
    OnlyPendingFires(line, below, today);
    PendingCaptureBecomesOne(line, below, today, TaskMatch(line).value.1);
    var m := FirstMatch(PendingOrNumber, line, 0).value;
    DeadlineRuleSettled(l, below, today, m.0);
  }

  /** A deadline rewrite is settled: the weekly rule still defers, and the
      deadline rule at most writes the same text again. */
  lemma DeadlineRewriteSettled(line: string, below: seq<string>, today: int, letter: char, l: string)
    requires WeeklyRule(line, below, letter) == Defer
    requires DeadlineRule(line, below, today) == Some(l)
    ensures WeeklyRule(l, below, letter) == Defer
    ensures DeadlineRule(l, below, today) == None || DeadlineRule(l, below, today) == Some(l)
  {
    DeadlineRewriteShape(line, below, today, l);
    var a: nat, b: nat :| a <= b <= |line| && LiteralAt(line, a, PriorityOpen)
                          && l == line[..a] + PriorityText("1") + line[b..];
    StillDefers(line, below, letter, a, b, l);
  }

  /** Running the rule on its own output changes nothing more (the second
      run at most writes the same text again), provided a 🔁 of the line is
      not the one inside the rewritten field. */
  lemma PrioRuleIdempotent(line: string, below: seq<string>, today: int, letter: char, l: string)
    requires PrioRule(line, below, today, letter) == Some(l)
    requires Repeat in line ==> Repeat in l
    ensures PrioRule(l, below, today, letter) == None || PrioRule(l, below, today, letter) == Some(l)
  {
    if WeeklyRule(line, below, letter).Replace? {
      WeeklyRewriteSettled(line, below, letter, l);
    } else {
      DeadlineRewriteSettled(line, below, today, letter, l);
    }
  }

  /* ---------- the pass as a whole ---------- */

  /** The replacement the loop makes at index `k`, judged on the original lines. */
  function RuleAt(lines: seq<string>, k: nat, today: Civil, intended: bool): Option<string>
    requires k < |lines|
  {
    LineRule(intended, lines[k], lines[k + 1..], DayNumber(today), TodayLetter(today))
  }

  /** Line `k` once the loop has been through the lines before index `i`. */
  function RuledText(orig: seq<string>, k: nat, today: Civil, i: nat, intended: bool): string
    requires k < |orig|
  {
    if k < i then RuleAt(orig, k, today, intended).GetOr(orig[k]) else orig[k]
  }

  /** `w` is what the loop holds on reaching index `i` of `orig`. */
  predicate RuledUpTo(orig: seq<string>, w: seq<string>, i: nat, today: Civil, intended: bool) {
    |w| == |orig| && forall k :: 0 <= k < |orig| ==> w[k] == RuledText(orig, k, today, i, intended)
  }

  /** Some line at index `i` or later makes a replacement. */
  predicate FiresFrom(orig: seq<string>, i: nat, today: Civil, intended: bool) {
    exists k :: i <= k < |orig| && RuleAt(orig, k, today, intended).Some?
  }

  /** On reaching index `i`, the loop sees line `i` and the lines below it as
      they were. */
  lemma ReadsOriginal(orig: seq<string>, w: seq<string>, i: nat, today: Civil, intended: bool)
    requires i < |orig| && RuledUpTo(orig, w, i, today, intended)
    ensures LineRule(intended, w[i], w[i + 1..], DayNumber(today), TodayLetter(today)) == RuleAt(orig, i, today, intended)
  {
    assert w[i] == RuledText(orig, i, today, i, intended);
    assert w[i + 1..] == orig[i + 1..] by {
      forall j | i + 1 <= j < |orig| ensures w[j] == orig[j] {
        assert w[j] == RuledText(orig, j, today, i, intended);
      }
    }
  }

  /** Iteration `i` advances the loop's array by line `i`. */
  lemma RuleStep(orig: seq<string>, w: seq<string>, i: nat, today: Civil, intended: bool, next: seq<string>)
    requires i < |orig| && RuledUpTo(orig, w, i, today, intended)
    requires next == if RuleAt(orig, i, today, intended).Some? then w[i := RuleAt(orig, i, today, intended).value] else w
    ensures RuledUpTo(orig, next, i + 1, today, intended)
  {
    forall k | 0 <= k < |orig| ensures next[k] == RuledText(orig, k, today, i + 1, intended) {
      if k != i {
        assert next[k] == w[k];
      }
    }
  }

  lemma FiresFromStep(orig: seq<string>, i: nat, today: Civil, intended: bool)
    requires i < |orig|
    ensures FiresFrom(orig, i, today, intended) <==> RuleAt(orig, i, today, intended).Some? || FiresFrom(orig, i + 1, today, intended)
  {
    if FiresFrom(orig, i, today, intended) && RuleAt(orig, i, today, intended).None? {
      var k :| i <= k < |orig| && RuleAt(orig, k, today, intended).Some?;
      assert k != i;
    }
  }

  lemma {:induction false} PrioFromPointwise(orig: seq<string>, w: seq<string>, i: nat, today: Civil, intended: bool)
    requires i <= |orig| && RuledUpTo(orig, w, i, today, intended)
    ensures |PrioFrom(w, i, today, intended).lines| == |orig|
    ensures forall k :: 0 <= k < |orig| ==> PrioFrom(w, i, today, intended).lines[k] == RuledText(orig, k, today, |orig|, intended)
    ensures PrioFrom(w, i, today, intended).changed <==> FiresFrom(orig, i, today, intended)
    decreases |orig| - i
  {
    if i < |orig| {
      ReadsOriginal(orig, w, i, today, intended);
      var fired := RuleAt(orig, i, today, intended);
      var next := if fired.Some? then w[i := fired.value] else w;
      RuleStep(orig, w, i, today, intended, next);
      PrioFromPointwise(orig, next, i + 1, today, intended);
      FiresFromStep(orig, i, today, intended);
    }
  }

  /** The loop rewrites each line from the ORIGINAL text: only line `i` is
      replaced in iteration `i`, and the lines it reads below it are still
      untouched. The line count is kept, and `changed` is set exactly when some
      line's rule made a replacement. */
  lemma PrioPassIsPointwise(lines: seq<string>, today: Civil)
    ensures |UpdatePrio(lines, today).lines| == |lines|
    ensures forall k :: 0 <= k < |lines| ==>
              UpdatePrio(lines, today).lines[k] == PrioRule(lines[k], lines[k + 1..], DayNumber(today), TodayLetter(today)).GetOr(lines[k])
    ensures UpdatePrio(lines, today).changed <==>
              exists k :: 0 <= k < |lines| && PrioRule(lines[k], lines[k + 1..], DayNumber(today), TodayLetter(today)).Some?
  {
    PassIsPointwise(lines, today, false);
  }

  /** The same holds for the pass with numeric ageing as evidently intended. */
  lemma PrioPassIntendedIsPointwise(lines: seq<string>, today: Civil)
    ensures |UpdatePrioIntended(lines, today).lines| == |lines|
    ensures forall k :: 0 <= k < |lines| ==>
              UpdatePrioIntended(lines, today).lines[k]
                == PrioRuleIntended(lines[k], lines[k + 1..], DayNumber(today), TodayLetter(today)).GetOr(lines[k])
    ensures UpdatePrioIntended(lines, today).changed <==>
              exists k :: 0 <= k < |lines| && PrioRuleIntended(lines[k], lines[k + 1..], DayNumber(today), TodayLetter(today)).Some?
  {
    PassIsPointwise(lines, today, true);
  }

  lemma PassIsPointwise(lines: seq<string>, today: Civil, intended: bool)
    ensures |PrioFrom(lines, 0, today, intended).lines| == |lines|
    ensures forall k :: 0 <= k < |lines| ==> PrioFrom(lines, 0, today, intended).lines[k] == RuleAt(lines, k, today, intended).GetOr(lines[k])
    ensures PrioFrom(lines, 0, today, intended).changed <==> FiresFrom(lines, 0, today, intended)
  {
    PrioFromPointwise(lines, lines, 0, today, intended);
    assert forall k :: 0 <= k < |lines| ==> RuledText(lines, k, today, |lines|, intended) == RuleAt(lines, k, today, intended).GetOr(lines[k]);
  }
}
