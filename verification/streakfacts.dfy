/** What the streak pass promises about the file: the scan takes the last
    matching line, metadata lines stay metadata lines, and the loop amounts to
    running every task on the original text of the file. */
module StreakFacts {
  import opened Wrappers
  import opened Text
  import opened Patterns
  import opened Calendar
  import opened Blocks
  import opened Streak

  /* ---------- the scan takes the last hit ---------- */

  /** The last line of `block` that `f` accepts, with its value: the
      reference definition of a scan in which later hits overwrite earlier ones. */
  function LastHit<T>(block: seq<string>, f: string -> Option<T>): (r: Option<(T, nat)>)
    ensures r.Some? ==> r.value.1 < |block| && f(block[r.value.1]) == Some(r.value.0)
    ensures r.Some? ==> forall k :: r.value.1 < k < |block| ==> f(block[k]).None?
    ensures r.None? ==> forall k :: 0 <= k < |block| ==> f(block[k]).None?
    decreases |block|
  {
    if |block| == 0 then None
    else
      var k := |block| - 1;
      match f(block[k])
      case Some(v) => Some((v, k))
      case None =>
        assert forall j :: 0 <= j < k ==> block[..k][j] == block[j];
        LastHit(block[..k], f)
  }

  /** The readers of lines 169 and 172 on a line of the block, which is trimmed first. */
  function CountOn(line: string): Option<nat> {
    StreakField(Trim(line))
  }

  function StartOn(line: string): Option<string> {
    StreakStartField(Trim(line))
  }

  /** The loop of lines 165-176 finds, for each key, the last line of the
      block that carries it. */
  lemma ScanTakesLastHits(block: seq<string>)
    ensures ScanBlock(block, 0, Scan(None, None)) == Scan(LastHit(block, CountOn), LastHit(block, StartOn))
  {
    assert block[..0] == [];
    ScanFrom(block, 0, Scan(None, None));
  }

  lemma {:induction false} ScanFrom(block: seq<string>, j: nat, acc: Scan)
    requires j <= |block|
    requires acc == Scan(LastHit(block[..j], CountOn), LastHit(block[..j], StartOn))
    ensures ScanBlock(block, j, acc) == Scan(LastHit(block, CountOn), LastHit(block, StartOn))
    decreases |block| - j
  {
    if j < |block| {
      assert block[..j + 1][..j] == block[..j];
      assert block[..j + 1][j] == block[j];
      var sub := Trim(block[j]);
      var count := match StreakField(sub) case Some(n) => Some((n, j)) case None => acc.count;
      var start := match StreakStartField(sub) case Some(d) => Some((d, j)) case None => acc.start;
      ScanFrom(block, j + 1, Scan(count, start));
    } else {
      assert block[..j] == block;
    }
  }

  /* ---------- metadata lines stay metadata lines ---------- */

  /** A metadata line starts with a blank, so it has no checkbox and the loop
      passes over it. */
  lemma SubLineHasNoCheckbox(s: string)
    requires IsSubLine(s)
    ensures Checkbox(s).None?
  {
    assert IsBlank(s[0]);
  }

  /** Both streak patterns start with `s`. */
  lemma StreakMatchStartsWithS(t: Token, s: string, q: nat)
    requires t == StreakCount || t == StreakStartDate
    requires MatchAt(t, s, q).Some?
    ensures s[q] == 's'
  {
    if t == StreakCount {
      assert s[q..q + 9] == "streak:: ";
    } else {
      assert s[q..q + 15] == "streak_start:: ";
    }
  }

  /** Rewriting a streak field leaves the indent and the dash of a metadata
      line alone, so the line stays a metadata line. */
  lemma StreakRewriteKeepsSubLine(t: Token, s: string, repl: string)
    requires t == StreakCount || t == StreakStartDate
    requires IsSubLine(s)
    ensures IsSubLine(ReplaceFirst(t, s, repl))
  {
    match FirstMatch(t, s, 0)
    case None =>
    case Some(m) =>
      StreakMatchAfterDash(t, s, m);
      SpliceAfterDashKeepsSubLine(s, m.0, m.1, repl);
  }

  /** A streak field of a metadata line lies after the line's dash. */
  lemma StreakMatchAfterDash(t: Token, s: string, m: (nat, nat))
    requires t == StreakCount || t == StreakStartDate
    requires IsSubLine(s) && FirstMatch(t, s, 0) == Some(m)
    ensures SpanEnd(s, 0, IsBlank) + 2 <= m.0 <= m.1 <= |s|
  {
    SubLineDash(s);
    StreakMatchStartsWithS(t, s, m.0);
  }

  /** A metadata line spelled out: blanks, then `- `. */
  lemma SubLineDash(s: string)
    requires IsSubLine(s)
    ensures var n := SpanEnd(s, 0, IsBlank);
            1 <= n && n + 2 <= |s| && s[n] == '-' && s[n + 1] == ' ' && forall k :: 0 <= k < n ==> IsBlank(s[k])
  {
    var n := SpanEnd(s, 0, IsBlank);
    assert s[n..n + 2] == "- ";
  }

  /** Whether a line is a metadata line is decided by its indent and dash. */
  lemma SubLinePrefix(s: string, r: string)
    requires IsSubLine(s)
    requires SpanEnd(s, 0, IsBlank) + 2 <= |r| && r[..SpanEnd(s, 0, IsBlank) + 2] == s[..SpanEnd(s, 0, IsBlank) + 2]
    ensures IsSubLine(r)
  {
    var n := SpanEnd(s, 0, IsBlank);
    SubLineDash(s);
    forall k | 0 <= k < n + 2 ensures r[k] == s[k] {
      assert r[k] == r[..n + 2][k] && s[k] == s[..n + 2][k];
    }
    SpanEndIs(r, 0, IsBlank, n);
    assert r[n..n + 2] == "- ";
  }

  /** Text spliced in after the dash leaves a metadata line one. */
  lemma SpliceAfterDashKeepsSubLine(s: string, a: nat, b: nat, repl: string)
    requires IsSubLine(s) && SpanEnd(s, 0, IsBlank) + 2 <= a <= b <= |s|
    ensures IsSubLine(s[..a] + repl + s[b..])
  {
    var n := SpanEnd(s, 0, IsBlank);
    var r := s[..a] + repl + s[b..];
    assert r[..a] == s[..a];
    assert r[..n + 2] == r[..a][..n + 2];
    SubLinePrefix(s, r);
  }

  /** The count and start rewrites keep every line of the block a metadata line. */
  lemma RewriteKeepsSubLines(rest: seq<string>, countAt: nat, startAt: nat, e: Edit, today: Civil, n: nat)
    requires 1 <= countAt <= n && 1 <= startAt <= n && n < |rest|
    requires forall k :: 1 <= k <= n ==> IsSubLine(rest[k])
    ensures forall k :: 1 <= k <= n ==> IsSubLine(Rewrite(rest, countAt, startAt, e, today)[k])
  {
    forall k | 1 <= k <= n ensures IsSubLine(Rewrite(rest, countAt, startAt, e, today)[k]) {
      RewriteKeepsSubLine(rest, countAt, startAt, e, today, k);
    }
  }

  /** One line below the task: the count write, then the start write, each
      keep it a metadata line. */
  lemma RewriteKeepsSubLine(rest: seq<string>, countAt: nat, startAt: nat, e: Edit, today: Civil, k: nat)
    requires 1 <= countAt < |rest| && 1 <= startAt < |rest| && 1 <= k < |rest|
    requires IsSubLine(rest[k])
    ensures IsSubLine(Rewrite(rest, countAt, startAt, e, today)[k])
  {
    var count := if k == countAt then e.count else None;
    RewriteBelow(rest, countAt, startAt, e, today, k, count, k == startAt && e.restart);
    WriteBelowKeepsSubLine(rest[k], count, k == startAt && e.restart, today);
  }

  /** Line `k` below the task: the count write, if any, then the start write, if any. */
  function WriteBelow(s: string, count: Option<nat>, restart: bool, today: Civil): string {
    var a := if count.Some? then WriteCount(s, count.value) else s;
    if restart then WriteStart(a, today) else a
  }

  lemma RewriteBelow(rest: seq<string>, countAt: nat, startAt: nat, e: Edit, today: Civil, k: nat,
                     count: Option<nat>, restart: bool)
    requires 1 <= countAt < |rest| && 1 <= startAt < |rest| && 1 <= k < |rest|
    requires count == (if k == countAt then e.count else None) && restart == (k == startAt && e.restart)
    ensures Rewrite(rest, countAt, startAt, e, today)[k] == WriteBelow(rest[k], count, restart, today)
  {
  }

  lemma WriteBelowKeepsSubLine(s: string, count: Option<nat>, restart: bool, today: Civil)
    requires IsSubLine(s)
    ensures IsSubLine(WriteBelow(s, count, restart, today))
  {
    var a := if count.Some? then WriteCount(s, count.value) else s;
    if count.Some? {
      StreakRewriteKeepsSubLine(StreakCount, s, "streak:: " + Decimal(count.value));
    }
    if restart {
      StreakRewriteKeepsSubLine(StreakStartDate, a, "streak_start:: " + FormatDate(today));
    }
  }

  /** After one task's turn, its block is still a run of metadata lines. */
  lemma TaskStreakKeepsBlock(rest: seq<string>, today: Civil)
    requires |rest| >= 1
    ensures forall k :: 1 <= k <= BlockLength(rest[1..]) ==> IsSubLine(TaskStreak(rest, today).lines[k])
  {
    var n := BlockLength(rest[1..]);
    forall k | 1 <= k <= n ensures IsSubLine(rest[k]) {
      assert rest[k] == rest[1..][k - 1];
    }
    match ReadTask(rest)
    case None =>
    case Some(rd) =>
      RewriteKeepsSubLines(rest, rd.countAt, rd.startAt, Decide(rd.state, DayNumber(today)), today, n);
  }

  /* ---------- the loop is pointwise ---------- */

  /** Line `k` once the tasks above line `upto` have had their turn, each on
      the original text: the line as its owning task rewrote it, or as it was. */
  function AfterTasks(orig: seq<string>, k: nat, today: Civil, upto: nat): string
    requires k < |orig|
  {
    var o := Owner(orig, k);
    if o.Some? && o.value < upto then OwnedText(orig, o.value, k, today) else orig[k]
  }

  /** The lines from `o` on as the task on line `o` rewrites them. */
  function TaskLines(orig: seq<string>, o: nat, today: Civil): (r: seq<string>)
    requires o < |orig|
    ensures |r| == |orig| - o
  {
    TaskStreak(orig[o..], today).lines
  }

  /** Line `k` as the task on line `o` rewrites it. */
  function OwnedText(orig: seq<string>, o: nat, k: nat, today: Civil): string
    requires o <= k < |orig|
  {
    TaskLines(orig, o, today)[k - o]
  }

  /** Once its owner has had its turn, a line reads as the owner wrote it. */
  lemma AfterOwnTask(orig: seq<string>, k: nat, today: Civil, upto: nat, o: nat)
    requires k < |orig| && Owner(orig, k) == Some(o) && o < upto
    ensures AfterTasks(orig, k, today, upto) == OwnedText(orig, o, k, today)
  {
  }

  /** A line owned by a task is rewritten only inside that task's block. */
  lemma OwnedLine(orig: seq<string>, o: nat, k: nat, today: Civil)
    requires o < k < |orig| && !IsSubLine(orig[o])
    requires Owner(orig, k) != Some(o)
    ensures OwnedText(orig, o, k, today) == orig[k]
  {
    OwnerOfBlock(orig, o, k);
    assert orig[o + 1..] == orig[o..][1..];
  }

  /** A block line stays a metadata line after its task's turn. */
  lemma BlockLineStaysSubLine(orig: seq<string>, o: nat, k: nat, today: Civil)
    requires o < k < |orig| && !IsSubLine(orig[o])
    requires Owner(orig, k) == Some(o)
    ensures IsSubLine(OwnedText(orig, o, k, today))
  {
    OwnerOfBlock(orig, o, k);
    assert orig[o + 1..] == orig[o..][1..];
    TaskStreakKeepsBlock(orig[o..], today);
  }

  /** No line belongs to a metadata line, so passing one by changes no line's due. */
  lemma PastSubLine(orig: seq<string>, w: seq<string>, i: nat, today: Civil)
    requires i < |orig| && IsSubLine(orig[i]) && Pointwise(orig, w, i, today)
    ensures Pointwise(orig, w, i + 1, today)
  {
    forall k | 0 <= k < |orig| ensures AfterTasks(orig, k, today, i + 1) == AfterTasks(orig, k, today, i) {
      assert Owner(orig, k) != Some(i);
    }
  }

  /** What the loop finds on a metadata line is still a metadata line. */
  lemma SubLineSeen(orig: seq<string>, w: seq<string>, i: nat, today: Civil)
    requires i < |orig| == |w| && IsSubLine(orig[i])
    requires w[i] == AfterTasks(orig, i, today, i)
    ensures IsSubLine(w[i])
  {
    match Owner(orig, i)
    case None =>
    case Some(o) =>
      if o < i {
        AfterOwnTask(orig, i, today, i, o);
        BlockLineStaysSubLine(orig, o, i, today);
      }
  }

  /** The array the loop holds before iteration `i`: every line as the tasks
      above `i` left it. */
  predicate Pointwise(orig: seq<string>, w: seq<string>, i: nat, today: Civil) {
    |w| == |orig| && forall k :: 0 <= k < |orig| ==> w[k] == AfterTasks(orig, k, today, i)
  }

  /** Some task from line `i` on sets `changed` when run on the original text. */
  predicate ChangedFrom(orig: seq<string>, i: nat, today: Civil) {
    exists o :: i <= o < |orig| && TaskStreak(orig[o..], today).changed
  }

  /** The loop passes over a metadata line: no checkbox, so nothing is read or written. */
  lemma SubLineTaskIdle(rest: seq<string>, today: Civil)
    requires |rest| >= 1 && IsSubLine(rest[0])
    ensures TaskStreak(rest, today) == PassResult(rest, false)
  {
    SubLineHasNoCheckbox(rest[0]);
  }

  /** Iteration `i` on a metadata line changes nothing. */
  lemma StepOverSubLine(orig: seq<string>, w: seq<string>, i: nat, today: Civil)
    requires i < |orig| && IsSubLine(orig[i]) && Pointwise(orig, w, i, today)
    ensures TaskStreak(w[i..], today) == PassResult(w[i..], false)
    ensures w[..i] + TaskStreak(w[i..], today).lines == w
    ensures !TaskStreak(orig[i..], today).changed
  {
    SubLineSeen(orig, w, i, today);
    SubLineTaskIdle(w[i..], today);
    SubLineTaskIdle(orig[i..], today);
    SlicesJoin(w, i);
  }

  /** A sequence cut at `i` and put back together is itself. */
  lemma SlicesJoin(w: seq<string>, i: nat)
    requires i <= |w|
    ensures w[..i] + w[i..] == w
  {
  }

  /** Below a task line, every line belongs to that task or to a later one. */
  lemma OwnedFromTask(orig: seq<string>, i: nat, k: nat)
    requires i <= k < |orig| && !IsSubLine(orig[i])
    ensures Owner(orig, k).Some? && Owner(orig, k).value >= i
  {
  }

  /** Iteration `i` on a task line sees the original text from `i` on. */
  lemma TaskSeesOriginal(orig: seq<string>, w: seq<string>, i: nat, today: Civil)
    requires i < |orig| == |w| && !IsSubLine(orig[i])
    requires forall k :: 0 <= k < |orig| ==> w[k] == AfterTasks(orig, k, today, i)
    ensures w[i..] == orig[i..]
  {
    forall k | i <= k < |orig| ensures w[k] == orig[k] {
      OwnedFromTask(orig, i, k);
    }
  }

  /** ... and writes what its task does on the original. */
  lemma StepOverTask(orig: seq<string>, w: seq<string>, i: nat, today: Civil)
    requires i < |orig| == |w| && !IsSubLine(orig[i])
    requires forall k :: 0 <= k < |orig| ==> w[k] == AfterTasks(orig, k, today, i)
    ensures forall k :: 0 <= k < |orig| ==> (w[..i] + TaskLines(orig, i, today))[k] == AfterTasks(orig, k, today, i + 1)
  {
    var tl := TaskLines(orig, i, today);
    forall k | 0 <= k < |orig| ensures (w[..i] + tl)[k] == AfterTasks(orig, k, today, i + 1) {
      if k < i {
        StepKeepsAbove(orig, w, i, k, today, tl);
      } else {
        assert tl[k - i] == OwnedText(orig, i, k, today);
        StepWritesAt(orig, w, i, k, today, tl);
      }
    }
  }

  lemma StepKeepsAbove(orig: seq<string>, w: seq<string>, i: nat, k: nat, today: Civil, tl: seq<string>)
    requires k < i < |orig| == |w|
    requires w[k] == AfterTasks(orig, k, today, i)
    ensures (w[..i] + tl)[k] == AfterTasks(orig, k, today, i + 1)
  {
  }

  lemma StepWritesAt(orig: seq<string>, w: seq<string>, i: nat, k: nat, today: Civil, tl: seq<string>)
    requires i <= k < |orig| == |w| && !IsSubLine(orig[i]) && |tl| == |orig| - i
    requires tl[k - i] == OwnedText(orig, i, k, today)
    ensures (w[..i] + tl)[k] == AfterTasks(orig, k, today, i + 1)
  {
    ConcatAt(w[..i], tl, k);
    StepWritesBelow(orig, i, k, today);
  }

  /** Indexing into a concatenation. */
  lemma ConcatAt(a: seq<string>, b: seq<string>, k: nat)
    requires k < |a| + |b|
    ensures (a + b)[k] == if k < |a| then a[k] else b[k - |a|]
  {
  }

  lemma StepWritesBelow(orig: seq<string>, i: nat, k: nat, today: Civil)
    requires i <= k < |orig| && !IsSubLine(orig[i])
    ensures OwnedText(orig, i, k, today) == AfterTasks(orig, k, today, i + 1)
  {
    OwnedFromTask(orig, i, k);
    var o := Owner(orig, k).value;
    if o == i {
      AfterOwnTask(orig, k, today, i + 1, i);
    } else {
      OwnedLine(orig, i, k, today);
      assert AfterTasks(orig, k, today, i + 1) == orig[k];
    }
  }

  /** One iteration keeps the array pointwise, and its `changed` flag is the
      one the task sets on the original text. */
  lemma StepPointwise(orig: seq<string>, w: seq<string>, i: nat, today: Civil)
    requires i < |orig| && Pointwise(orig, w, i, today)
    ensures Pointwise(orig, w[..i] + TaskStreak(w[i..], today).lines, i + 1, today)
    ensures TaskStreak(w[i..], today).changed == TaskStreak(orig[i..], today).changed
  {
    if IsSubLine(orig[i]) {
      SubLineStepPointwise(orig, w, i, today);
    } else {
      TaskStepPointwise(orig, w, i, today);
    }
  }

  lemma SubLineStepPointwise(orig: seq<string>, w: seq<string>, i: nat, today: Civil)
    requires i < |orig| && Pointwise(orig, w, i, today) && IsSubLine(orig[i])
    ensures Pointwise(orig, w[..i] + TaskStreak(w[i..], today).lines, i + 1, today)
    ensures TaskStreak(w[i..], today).changed == TaskStreak(orig[i..], today).changed
  {
    StepOverSubLine(orig, w, i, today);
    PastSubLine(orig, w, i, today);
  }

  lemma TaskStepPointwise(orig: seq<string>, w: seq<string>, i: nat, today: Civil)
    requires i < |orig| && Pointwise(orig, w, i, today) && !IsSubLine(orig[i])
    ensures Pointwise(orig, w[..i] + TaskStreak(w[i..], today).lines, i + 1, today)
    ensures TaskStreak(w[i..], today).changed == TaskStreak(orig[i..], today).changed
  {
    TaskSeesOriginal(orig, w, i, today);
    StepOverTask(orig, w, i, today);
    assert TaskStreak(w[i..], today).lines == TaskLines(orig, i, today);
  }

  /** A task from line `i` on is the task on line `i` or one further down. */
  lemma ChangedFromStep(orig: seq<string>, i: nat, today: Civil)
    requires i < |orig|
    ensures ChangedFrom(orig, i, today) <==> TaskStreak(orig[i..], today).changed || ChangedFrom(orig, i + 1, today)
  {
    if TaskStreak(orig[i..], today).changed {
      assert i <= i < |orig| && TaskStreak(orig[i..], today).changed;
    }
  }

  lemma {:induction false} StreakFromPointwise(orig: seq<string>, w: seq<string>, i: nat, today: Civil)
    requires i <= |orig| && Pointwise(orig, w, i, today)
    ensures forall k :: 0 <= k < |orig| ==> StreakFrom(w, i, today).lines[k] == AfterTasks(orig, k, today, |orig|)
    ensures StreakFrom(w, i, today).changed <==> ChangedFrom(orig, i, today)
    decreases |orig| - i
  {
    if i < |orig| {
      StepPointwise(orig, w, i, today);
      var t := TaskStreak(w[i..], today);
      var next := w[..i] + t.lines;
      StreakFromPointwise(orig, next, i + 1, today);
      ChangedFromStep(orig, i, today);
      var rest := StreakFrom(next, i + 1, today);
      assert StreakFrom(w, i, today) == PassResult(rest.lines, t.changed || rest.changed);
    }
  }

  /** The loop rewrites every block from the ORIGINAL text: each line ends up
      as the task owning it rewrote it on the unchanged file (a line above the
      first task as it was), the line count is kept, and `changed` is set
      exactly when some task's turn set it. */
  lemma StreakPassIsPointwise(lines: seq<string>, today: Civil)
    ensures |UpdateStreaks(lines, today).lines| == |lines|
    ensures forall k :: 0 <= k < |lines| ==> UpdateStreaks(lines, today).lines[k] == AfterTasks(lines, k, today, |lines|)
    ensures UpdateStreaks(lines, today).changed <==> exists o :: 0 <= o < |lines| && TaskStreak(lines[o..], today).changed
  {
    StreakFromPointwise(lines, lines, 0, today);
    assert ChangedFrom(lines, 0, today) <==> exists o :: 0 <= o < |lines| && TaskStreak(lines[o..], today).changed;
  }
}
