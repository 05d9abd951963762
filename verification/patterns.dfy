/** The regular expressions of main.js, each matched by hand over a string.
    Unanchored patterns are `Token`s searched leftmost-first; anchored ones
    (`^...`) are functions of the whole string. */
module Patterns {
  import opened Wrappers
  import opened Text

  const Target: char := '\U{1F3AF}'     // 🎯, the priority field
  const Hourglass: char := '\U{23F3}'   // ⏳, the deadline field
  const Repeat: char := '\U{1F501}'     // 🔁, the recurrence marker
  const Check: char := '\U{2705}'       // ✅, the completion date

  /** `[🎯:: ` and `[⏳:: `, the openings of the priority and deadline fields. */
  const PriorityOpen: string := ['[', Target, ':', ':', ' ']
  const DeadlineOpen: string := ['[', Hourglass, ':', ':', ' ']

  predicate LiteralAt(s: string, i: nat, lit: string) {
    i + |lit| <= |s| && s[i..i + |lit|] == lit
  }

  /** `lit` at `i` under `/i`: equal after ASCII upper-casing. */
  predicate LiteralAtIgnoringCase(s: string, i: nat, lit: string) {
    i + |lit| <= |s| && forall k :: 0 <= k < |lit| ==> UpperAscii(s[i + k]) == UpperAscii(lit[k])
  }

  /** `\d{4}-\d{2}-\d{2}` at `i`. */
  predicate DateShapeAt(s: string, i: nat) {
    && i + 10 <= |s|
    && IsDigit(s[i]) && IsDigit(s[i + 1]) && IsDigit(s[i + 2]) && IsDigit(s[i + 3])
    && s[i + 4] == '-' && IsDigit(s[i + 5]) && IsDigit(s[i + 6])
    && s[i + 7] == '-' && IsDigit(s[i + 8]) && IsDigit(s[i + 9])
  }

  /** The unanchored patterns main.js searches for or replaces. */
  datatype Token =
    | AnyPriority       // /\[🎯:: (\S+?)\]/            lines 44, 66
    | PendingOrNumber   // /\[🎯:: (\/|\d+)\]/          lines 74, 85
    | NumberPriority    // /\[🎯:: (\d+)\]/             line 116
    | DeadlineField     // /\[⏳:: (\d{4}-\d{2}-\d{2})\]/ line 74
    | StreakCount       // /streak:: \d+/               lines 188, 193, 212
    | StreakStartDate   // /streak_start:: \d{4}-\d{2}-\d{2}/  lines 195, 214
    | DoneDate          // /✅ (\d{4}-\d{2}-\d{2})/       lines 156, 201
    | CheckedBox        // the plain string '- [x]'       line 201

  predicate IsPriorityToken(t: Token) {
    t == AnyPriority || t == PendingOrNumber || t == NumberPriority
  }

  /** `\d+\]` from `i`: the end of the `]` that follows a maximal run of at least one digit. */
  function DigitsThenClose(s: string, i: nat): (r: Option<nat>)
    requires i <= |s|
    ensures r.Some? ==> i + 2 <= r.value <= |s| && AllDigits(s[i..r.value - 1]) && s[r.value - 1] == ']'
  {
    var e := SpanEnd(s, i, IsDigit);
    if i < e < |s| && s[e] == ']' then Some(e + 1) else None
  }

  /** The lazy `\S+?\]` once its first character is taken: the end of the first
      `]` from `i` on, provided no white space comes before it. */
  function LazyClose(s: string, i: nat): (r: Option<nat>)
    ensures r.Some? ==> i < r.value <= |s| && s[r.value - 1] == ']'
    ensures r.Some? ==> forall k :: i <= k < r.value - 1 ==> !IsSpace(s[k]) && s[k] != ']'
    decreases |s| - i
  {
    if i >= |s| || IsSpace(s[i]) then None
    else if s[i] == ']' then Some(i + 1)
    else LazyClose(s, i + 1)
  }

  /** End of the match of `t` that starts at `q`, if `t` matches there. Every
      pattern here is deterministic once its start is fixed. */
  function MatchAt(t: Token, s: string, q: nat): (r: Option<nat>)
    ensures r.Some? ==> q < r.value <= |s|
    ensures r.Some? && IsPriorityToken(t) ==> LiteralAt(s, q, PriorityOpen) && q + 7 <= r.value && s[r.value - 1] == ']'
    ensures r.Some? && t == AnyPriority ==> !IsSpace(s[q + 5]) && forall k :: q + 6 <= k < r.value - 1 ==> !IsSpace(s[k]) && s[k] != ']'
    ensures r.Some? && t == PendingOrNumber ==> s[q + 5..r.value - 1] == "/" || AllDigits(s[q + 5..r.value - 1])
    ensures r.Some? && t == NumberPriority ==> AllDigits(s[q + 5..r.value - 1])
    ensures r.Some? && t == DeadlineField ==> r.value == q + 16 && LiteralAt(s, q, DeadlineOpen) && DateShapeAt(s, q + 5)
    ensures r.Some? && t == DoneDate ==> r.value == q + 12 && DateShapeAt(s, q + 2)
  {
    match t
    case AnyPriority =>
      if LiteralAt(s, q, PriorityOpen) && q + 5 < |s| && !IsSpace(s[q + 5]) then LazyClose(s, q + 6) else None
    case PendingOrNumber =>
      if !LiteralAt(s, q, PriorityOpen) then None
      else if q + 6 < |s| && s[q + 5] == '/' && s[q + 6] == ']' then Some(q + 7)
      else DigitsThenClose(s, q + 5)
    case NumberPriority =>
      if LiteralAt(s, q, PriorityOpen) then DigitsThenClose(s, q + 5) else None
    case DeadlineField =>
      if LiteralAt(s, q, DeadlineOpen) && DateShapeAt(s, q + 5) && q + 15 < |s| && s[q + 15] == ']' then Some(q + 16) else None
    case StreakCount =>
      if LiteralAt(s, q, "streak:: ") && q + 9 < |s| && IsDigit(s[q + 9]) then Some(SpanEnd(s, q + 9, IsDigit)) else None
    case StreakStartDate =>
      if LiteralAt(s, q, "streak_start:: ") && DateShapeAt(s, q + 15) then Some(q + 25) else None
    case DoneDate =>
      if LiteralAt(s, q, [Check, ' ']) && DateShapeAt(s, q + 2) then Some(q + 12) else None
    case CheckedBox =>
      if LiteralAt(s, q, "- [x]") then Some(q + 5) else None
  }

  /** The leftmost match of `t` that starts at or after `from`: its start and end. */
  function FirstMatch(t: Token, s: string, from: nat): (r: Option<(nat, nat)>)
    requires from <= |s|
    ensures r.Some? ==> from <= r.value.0 && MatchAt(t, s, r.value.0) == Some(r.value.1)
    ensures r.Some? ==> forall q :: from <= q < r.value.0 ==> MatchAt(t, s, q).None?
    ensures r.None? ==> forall q :: from <= q ==> MatchAt(t, s, q).None?
    decreases |s| - from
  {
    match MatchAt(t, s, from)
    case Some(e) => Some((from, e))
    case None =>
      if from == |s| then
        assert forall q :: from <= q ==> MatchAt(t, s, q).None? by {
          forall q | from <= q ensures MatchAt(t, s, q).None? {
            if q > from {
              assert MatchAt(t, s, q).Some? ==> q < |s|;
            }
          }
        }
        None
      else FirstMatch(t, s, from + 1)
  }

  /** A match with no match before it is the leftmost one. */
  lemma FirstMatchIsLeftmost(t: Token, s: string, a: nat, b: nat)
    requires MatchAt(t, s, a) == Some(b)
    requires forall q :: 0 <= q < a ==> MatchAt(t, s, q).None?
    ensures FirstMatch(t, s, 0) == Some((a, b))
  {
  }

  /** `s.replace(pattern, repl)`: the leftmost match of `t` replaced by `repl`,
      or `s` itself when `t` does not occur. */
  function ReplaceFirst(t: Token, s: string, repl: string): string {
    match FirstMatch(t, s, 0)
    case None => s
    case Some(m) => s[..m.0] + repl + s[m.1..]
  }

  /** Where `t` matches nowhere, nothing is replaced. */
  lemma ReplaceFirstWithoutMatch(t: Token, s: string, repl: string)
    requires forall q :: 0 <= q <= |s| ==> MatchAt(t, s, q).None?
    ensures ReplaceFirst(t, s, repl) == s
  {
  }

  /** The replacement is made at the leftmost place `t` matches. */
  lemma ReplaceFirstAt(t: Token, s: string, repl: string, a: nat, b: nat)
    requires MatchAt(t, s, a) == Some(b)
    requires forall q :: 0 <= q < a ==> MatchAt(t, s, q).None?
    ensures ReplaceFirst(t, s, repl) == s[..a] + repl + s[b..]
  {
    FirstMatchIsLeftmost(t, s, a, b);
  }

  /** The priority field `[🎯:: v]`. */
  function PriorityText(v: string): string {
    PriorityOpen + v + "]"
  }

  /** The text a priority field holds: what stands between `[🎯:: ` and `]`. */
  function FieldValue(s: string, m: (nat, nat)): string
    requires m.0 + 6 <= m.1 <= |s|
  {
    s[m.0 + 5..m.1 - 1]
  }

  /* ---------- line 74: the deadline-rule pattern ---------- */

  /** `.*?\[⏳:: (\d{4}-\d{2}-\d{2})\]` from `r`: the first deadline field
      reachable without crossing a line terminator. */
  function LazyDeadline(s: string, r: nat): (d: Option<nat>)
    requires r <= |s|
    ensures d.Some? ==> r <= d.value && MatchAt(DeadlineField, s, d.value).Some?
    ensures d.Some? ==> forall k :: r <= k < d.value ==> !IsLineTerminator(s[k]) && MatchAt(DeadlineField, s, k).None?
    decreases |s| - r
  {
    if MatchAt(DeadlineField, s, r).Some? then Some(r)
    else if r < |s| && !IsLineTerminator(s[r]) then LazyDeadline(s, r + 1)
    else None
  }

  /** `.*?\[🎯:: (\/|\d+)\]` from `q`, taking the first priority field that a
      reachable deadline field follows: (field start, field end, deadline start). */
  function LazyPriority(s: string, q: nat): (h: Option<(nat, nat, nat)>)
    requires q <= |s|
    ensures h.Some? ==> q <= h.value.0 && MatchAt(PendingOrNumber, s, h.value.0) == Some(h.value.1)
    ensures h.Some? ==> LazyDeadline(s, h.value.1) == Some(h.value.2)
    ensures h.Some? ==> forall k :: q <= k < h.value.0 ==> !IsLineTerminator(s[k])
    decreases |s| - q
  {
    var m := MatchAt(PendingOrNumber, s, q);
    if m.Some? && LazyDeadline(s, m.value).Some? then Some((q, m.value, LazyDeadline(s, m.value).value))
    else if q < |s| && !IsLineTerminator(s[q]) then LazyPriority(s, q + 1)
    else None
  }

  /** Where the pattern of line 74 matched: the `- [ ] `, the priority field
      (start and end) and the deadline field. */
  datatype TaskHit = TaskHit(box: nat, priority: nat, priorityEnd: nat, deadline: nat)

  /** `/- \[ \] .*?\[🎯:: (\/|\d+)\].*?\[⏳:: (\d{4}-\d{2}-\d{2})\]/` searched from `p`. */
  function TaskMatchFrom(s: string, p: nat): (h: Option<TaskHit>)
    requires p <= |s|
    ensures h.Some? ==> p <= h.value.box && LiteralAt(s, h.value.box, "- [ ] ")
    ensures h.Some? ==> h.value.box + 6 <= h.value.priority
    ensures h.Some? ==> MatchAt(PendingOrNumber, s, h.value.priority) == Some(h.value.priorityEnd)
    ensures h.Some? ==> LazyDeadline(s, h.value.priorityEnd) == Some(h.value.deadline)
    ensures h.Some? ==> forall k :: h.value.box + 6 <= k < h.value.priority ==> !IsLineTerminator(s[k])
    decreases |s| - p
  {
    if LiteralAt(s, p, "- [ ] ") && LazyPriority(s, p + 6).Some? then
      var m := LazyPriority(s, p + 6).value;
      Some(TaskHit(p, m.0, m.1, m.2))
    else if p < |s| then TaskMatchFrom(s, p + 1)
    else None
  }

  /** No line terminator in `s[i..j]`: the stretch a `.*?` may step over. */
  predicate OnOneLine(s: string, i: nat, j: nat)
    requires i <= j <= |s|
  {
    forall k :: i <= k < j ==> !IsLineTerminator(s[k])
  }

  /** The pattern of line 74 can match with its `- [ ] ` at `b`, its priority
      field at `a` and its deadline field at `d`. */
  predicate TaskShapeAt(s: string, b: nat, a: nat, d: nat) {
    && LiteralAt(s, b, "- [ ] ") && b + 6 <= a
    && MatchAt(PendingOrNumber, s, a).Some? && MatchAt(PendingOrNumber, s, a).value <= d
    && MatchAt(DeadlineField, s, d).Some?
    && OnOneLine(s, b + 6, a) && OnOneLine(s, MatchAt(PendingOrNumber, s, a).value, d)
  }

  /** The order a backtracking search tries the matches in: the leftmost box,
      then (the `.*?` being lazy) the nearest priority field, then the nearest
      deadline field. */
  predicate TriedFirst(b: nat, a: nat, d: nat, b2: nat, a2: nat, d2: nat) {
    b < b2 || (b == b2 && (a < a2 || (a == a2 && d <= d2)))
  }

  /** The match of line 74 that JavaScript reports: tried before every other one. */
  ghost predicate LeftmostTaskShape(s: string, b: nat, a: nat, d: nat) {
    TaskShapeAt(s, b, a, d) && forall b2, a2, d2 :: TaskShapeAt(s, b2, a2, d2) ==> TriedFirst(b, a, d, b2, a2, d2)
  }

  /** What the two groups of line 74 capture when the match is at `a` and `d`. */
  function TaskCaptures(s: string, b: nat, a: nat, d: nat): (r: (string, string))
    requires TaskShapeAt(s, b, a, d)
    ensures r.0 == "/" || (|r.0| >= 1 && AllDigits(r.0))
    ensures |r.1| == 10 && DateShapeAt(r.1, 0)
  {
    var e := MatchAt(PendingOrNumber, s, a).value;
    PriorityCapture(s, a, e);
    DeadlineCapture(s, d);
    (s[a + 5..e - 1], s[d + 5..d + 15])
  }

  /** `line.match(/- \[ \] .*?\[🎯:: (\/|\d+)\].*?\[⏳:: (\d{4}-\d{2}-\d{2})\]/)`:
      the captured priority text and deadline text. */
  function TaskMatch(line: string): (r: Option<(string, string)>)
    ensures r.Some? ==> r.value.0 == "/" || (|r.value.0| >= 1 && AllDigits(r.value.0))
    ensures r.Some? ==> |r.value.1| == 10 && DateShapeAt(r.value.1, 0)
    ensures r.Some? ==> exists q :: 0 <= q < |line| && MatchAt(PendingOrNumber, line, q).Some?
    ensures r.Some? && r.value.0 != "/" ==> exists q :: 0 <= q < |line| && MatchAt(NumberPriority, line, q).Some?
  {
    match TaskMatchFrom(line, 0)
    case None => None
    case Some(h) =>
      TaskMatchFromSound(line, 0);
      TaskCapturesAt(line, h.box, h.priority, h.deadline);
      Some(TaskCaptures(line, h.box, h.priority, h.deadline))
  }

  /** What `(\/|\d+)` captures: `/`, or digits that `\[🎯:: (\d+)\]` also matches. */
  lemma PriorityCapture(s: string, a: nat, b: nat)
    requires MatchAt(PendingOrNumber, s, a) == Some(b)
    ensures a + 7 <= b <= |s|
    ensures s[a + 5..b - 1] == "/" || (|s[a + 5..b - 1]| >= 1 && AllDigits(s[a + 5..b - 1]))
    ensures s[a + 5..b - 1] != "/" ==> MatchAt(NumberPriority, s, a).Some?
  {
  }

  /** What `(\d{4}-\d{2}-\d{2})` captures: a date of the usual shape. */
  lemma DeadlineCapture(s: string, d: nat)
    requires MatchAt(DeadlineField, s, d).Some?
    ensures d + 15 <= |s| && DateShapeAt(s[d + 5..d + 15], 0)
  {
    assert DateShapeAt(s, d + 5);
  }

  /** The priority field of a match is one, and a numeric capture is a
      `[🎯:: (\d+)]` field too. */
  lemma TaskCapturesAt(s: string, b: nat, a: nat, d: nat)
    requires TaskShapeAt(s, b, a, d)
    ensures a < |s| && MatchAt(PendingOrNumber, s, a).Some?
    ensures TaskCaptures(s, b, a, d).0 != "/" ==> MatchAt(NumberPriority, s, a).Some?
  {
    PriorityCapture(s, a, MatchAt(PendingOrNumber, s, a).value);
  }

  /** The lazy deadline search finds a deadline field reachable on the line,
      or a nearer one. */
  lemma {:induction false} LazyDeadlineComplete(s: string, r: nat, d: nat)
    requires r <= d <= |s| && MatchAt(DeadlineField, s, d).Some? && OnOneLine(s, r, d)
    ensures LazyDeadline(s, r).Some? && LazyDeadline(s, r).value <= d
    decreases d - r
  {
    if MatchAt(DeadlineField, s, r).None? {
      LazyDeadlineComplete(s, r + 1, d);
    }
  }

  /** The lazy priority search finds a priority field that a reachable
      deadline follows, or one tried before it. */
  lemma {:induction false} LazyPriorityComplete(s: string, q: nat, a: nat, d: nat)
    requires q <= a <= |s| && MatchAt(PendingOrNumber, s, a).Some?
    requires MatchAt(PendingOrNumber, s, a).value <= d && MatchAt(DeadlineField, s, d).Some?
    requires OnOneLine(s, q, a) && OnOneLine(s, MatchAt(PendingOrNumber, s, a).value, d)
    ensures LazyPriority(s, q).Some?
    ensures var h := LazyPriority(s, q).value; h.0 < a || (h.0 == a && h.2 <= d)
    decreases a - q
  {
    if q == a {
      LazyDeadlineComplete(s, MatchAt(PendingOrNumber, s, a).value, d);
    } else {
      var m := MatchAt(PendingOrNumber, s, q);
      if !(m.Some? && LazyDeadline(s, m.value).Some?) {
        LazyPriorityComplete(s, q + 1, a, d);
      }
    }
  }

  /** The search from `p` finds a match whose box is at or after `p`, or one
      tried before it. */
  lemma {:induction false} TaskMatchFromComplete(s: string, p: nat, b: nat, a: nat, d: nat)
    requires p <= b && TaskShapeAt(s, b, a, d)
    ensures TaskMatchFrom(s, p).Some?
    ensures var h := TaskMatchFrom(s, p).value; TriedFirst(h.box, h.priority, h.deadline, b, a, d)
    decreases b - p
  {
    if p == b {
      LazyPriorityComplete(s, b + 6, a, d);
    } else if !(LiteralAt(s, p, "- [ ] ") && LazyPriority(s, p + 6).Some?) {
      TaskMatchFromComplete(s, p + 1, b, a, d);
    }
  }

  /** What the search reports is a match of the pattern. */
  lemma TaskMatchFromSound(s: string, p: nat)
    requires p <= |s| && TaskMatchFrom(s, p).Some?
    ensures var h := TaskMatchFrom(s, p).value; TaskShapeAt(s, h.box, h.priority, h.deadline)
  {
  }

  /** `match` of line 74 reports null exactly when the pattern matches nowhere. */
  lemma TaskMatchNone(line: string)
    ensures TaskMatch(line).None? <==> forall b, a, d :: !TaskShapeAt(line, b, a, d)
  {
    if TaskMatch(line).Some? {
      TaskMatchFromSound(line, 0);
    } else {
      forall b, a, d | TaskShapeAt(line, b, a, d) ensures false {
        TaskMatchFromComplete(line, 0, b, a, d);
      }
    }
  }

  /** When the pattern matches, `match` reports the captures of the match a
      backtracking search tries first. */
  lemma TaskMatchOfShape(line: string, b: nat, a: nat, d: nat)
    requires LeftmostTaskShape(line, b, a, d)
    ensures TaskMatch(line) == Some(TaskCaptures(line, b, a, d))
  {
    TaskMatchFromComplete(line, 0, b, a, d);
    TaskMatchFromSound(line, 0);
    var h := TaskMatchFrom(line, 0).value;
    assert TriedFirst(b, a, d, h.box, h.priority, h.deadline);
    assert h.box == b && h.priority == a && h.deadline == d;
    assert TaskMatch(line) == Some(TaskCaptures(line, h.box, h.priority, h.deadline));
  }

  /* ---------- anchored patterns ---------- */

  /** `/^(- \[( |x)\])/`: Some(checked) when the line starts with a checkbox;
      only a lower-case `x` counts as checked. */
  function Checkbox(line: string): (r: Option<bool>)
    ensures r == Some(true) <==> LiteralAt(line, 0, "- [x]")
    ensures r == Some(false) <==> LiteralAt(line, 0, "- [ ]")
  {
    if |line| >= 5 && line[..3] == "- [" && (line[3] == ' ' || line[3] == 'x') && line[4] == ']'
    then Some(line[3] == 'x')
    else None
  }

  /** `/^[ \t]+- /`: an indented list item, the shape of every metadata line. */
  predicate IsSubLine(s: string) {
    var n := SpanEnd(s, 0, IsBlank);
    n >= 1 && LiteralAt(s, n, "- ")
  }

  /** A metadata line, once trimmed, starts with the dash of its list item. */
  lemma SubLineTrim(s: string)
    requires IsSubLine(s)
    ensures var n := SpanEnd(s, 0, IsBlank); Trim(s) == TrimEnd(s[n..])
    ensures |Trim(s)| >= 1 && Trim(s)[0] == '-'
  {
    var n := SpanEnd(s, 0, IsBlank);
    SpanEndIs(s, 0, IsSpace, n);
    assert TrimStart(s) == s[n..];
    TrimEndKeeps(s[n..], 0);
  }

  /** `^-+\s*KEY\s*` on a trimmed metadata line (KEY compared ignoring ASCII case
      when `ignoreCase`): where the value after KEY and its white space starts. */
  function ValueStart(sub: string, key: string, ignoreCase: bool): (r: Option<nat>)
    ensures r.Some? ==> r.value <= |sub| && (r.value == |sub| || !IsSpace(sub[r.value]))
    ensures r.Some? ==> |sub| > 0 && sub[0] == '-'
  {
    if |sub| == 0 || sub[0] != '-' then None
    else
      var d := SpanEnd(sub, 0, IsDash);
      var w := SpanEnd(sub, d, IsSpace);
      if (if ignoreCase then LiteralAtIgnoringCase(sub, w, key) else LiteralAt(sub, w, key))
      then Some(SpanEnd(sub, w + |key|, IsSpace))
      else None
  }

  /** `[MTRFSWU,]` under `/i` */
  predicate IsDayCode(c: char) {
    UpperAscii(c) in "MTRFSWU" || c == ','
  }

  /** A day list holds no white space, so `replace(/\s+/g, '')` leaves it as it is. */
  lemma DayListHasNoSpace(d: string)
    requires forall k :: 0 <= k < |d| ==> IsDayCode(d[k])
    ensures RemoveSpaces(d) == d
  {
    forall k | 0 <= k < |d| ensures !IsSpace(d[k]) {
      DayCodeIsNotSpace(d[k]);
    }
  }

  lemma DayCodeIsNotSpace(c: char)
    ensures IsDayCode(c) ==> !IsSpace(c)
  {
  }

  /** `/^-+\s*daysOfWeek::\s*([MTRFSWU,]+)/i` on a trimmed metadata line: the day list. */
  function DaysField(sub: string): (r: Option<string>)
    ensures r.Some? ==> |r.value| >= 1 && forall k :: 0 <= k < |r.value| ==> IsDayCode(r.value[k])
  {
    match ValueStart(sub, "daysOfWeek::", true)
    case None => None
    case Some(v) =>
      var e := SpanEnd(sub, v, IsDayCode);
      if e > v then Some(sub[v..e]) else None
  }

  /** `^-+\s*KEY\s*(\d+)` on a trimmed metadata line: the number after KEY. */
  function NumberField(sub: string, key: string, ignoreCase: bool): Option<nat> {
    match ValueStart(sub, key, ignoreCase)
    case None => None
    case Some(v) =>
      var e := SpanEnd(sub, v, IsDigit);
      if e > v then Some(DecimalValue(sub[v..e])) else None
  }

  /** `^-+\s*KEY\s*(\d{4}-\d{2}-\d{2})` on a trimmed metadata line: the date text after KEY. */
  function DateField(sub: string, key: string, ignoreCase: bool): (r: Option<string>)
    ensures r.Some? ==> |r.value| == 10 && DateShapeAt(r.value, 0)
  {
    match ValueStart(sub, key, ignoreCase)
    case None => None
    case Some(v) =>
      if DateShapeAt(sub, v) then
        assert DateShapeAt(sub[v..v + 10], 0);
        Some(sub[v..v + 10])
      else None
  }

  /** `/^-+\s*streak::\s*(\d+)/i` (line 169): the streak count. */
  function StreakField(sub: string): Option<nat> {
    NumberField(sub, "streak::", true)
  }

  /** `/^-+\s*streak_start::\s*(\d{4}-\d{2}-\d{2})/i` (line 172): the
      date text the streak started on. */
  function StreakStartField(sub: string): (r: Option<string>)
    ensures r.Some? ==> |r.value| == 10 && DateShapeAt(r.value, 0)
  {
    DateField(sub, "streak_start::", true)
  }

  /** `/^start_prio:: (\d+)/` (line 99), anchored at the very start of the trimmed line. */
  function StartPrioField(sub: string): Option<nat> {
    if LiteralAt(sub, 0, "start_prio:: ") && 13 < |sub| && IsDigit(sub[13])
    then Some(DecimalValue(sub[13..SpanEnd(sub, 13, IsDigit)]))
    else None
  }

  /** `/^created:: (\d{4}-\d{2}-\d{2})/` (line 100), anchored at the very start of the trimmed line. */
  function CreatedField(sub: string): (r: Option<string>)
    ensures r.Some? ==> |r.value| == 10 && DateShapeAt(r.value, 0)
  {
    if LiteralAt(sub, 0, "created:: ") && DateShapeAt(sub, 10) then
      assert DateShapeAt(sub[10..20], 0);
      Some(sub[10..20])
    else None
  }
}
