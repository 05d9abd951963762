/** The streak pass on the text of a task: when the count and the start date
    are written in the usual `- streak:: N` / `- streak_start:: YYYY-MM-DD`
    form, what one run writes reads back, on the next run, as the state the
    run decided on. */
module StreakLines {
  import opened Wrappers
  import opened Text
  import opened Patterns
  import opened Calendar
  import opened Blocks
  import opened Streak
  import opened StreakFacts
  import opened MetadataFacts

  /** Two states the pass cannot tell apart: the ✅ date matters only while
      the task is ticked. */
  predicate Agrees(a: TaskState, b: TaskState) {
    a.checked == b.checked && a.streak == b.streak && a.start == b.start && (a.checked ==> a.done == b.done)
  }

  /** The pass decides the same on states it cannot tell apart. */
  lemma AgreesDecidesAlike(a: TaskState, b: TaskState, today: int)
    requires Agrees(a, b)
    ensures Decide(a, today) == Decide(b, today)
  {
  }

  /* ---------- reading the usual lines ---------- */

  /** `- key value` does not answer to a key that differs from `key` at `j`. */
  lemma OtherKeyDiffers(key: string, val: string, other: string, j: nat, ignoreCase: bool)
    requires |key| >= 1 && !IsSpace(key[0]) && !IsDash(key[0])
    requires j < |key| && j < |other| && UpperAscii(key[j]) != UpperAscii(other[j])
    ensures ValueStart("- " + key + " " + val, other, ignoreCase) == None
  {
    var sub := "- " + key + " " + val;
    SpanEndIs(sub, 0, IsDash, 1);
    SpanEndIs(sub, 1, IsSpace, 2);
    assert sub[2 + j] == key[j];
  }

  lemma KeyLineNotDate(s: string, ind: string, key: string, val: string, other: string, j: nat)
    requires s == MetadataText(ind, key, val) && WellFormed(ind, key, val)
    requires j < |key| && j < |other| && UpperAscii(key[j]) != UpperAscii(other[j])
    ensures DateField(Trim(s), other, true) == None
  {
    MetadataTrim(ind, key, val);
    OtherKeyDiffers(key, val, other, j, true);
  }

  lemma KeyLineNotNumber(s: string, ind: string, key: string, val: string, other: string, j: nat)
    requires s == MetadataText(ind, key, val) && WellFormed(ind, key, val)
    requires j < |key| && j < |other| && UpperAscii(key[j]) != UpperAscii(other[j])
    ensures NumberField(Trim(s), other, true) == None
  {
    MetadataTrim(ind, key, val);
    OtherKeyDiffers(key, val, other, j, true);
  }

  lemma CountLineValue(s: string, ind: string, digits: string)
    requires s == MetadataText(ind, "streak::", digits) && WellFormed(ind, "streak::", digits) && AllDigits(digits)
    ensures CountOn(s) == Some(DecimalValue(digits))
  {
    NumberLineReads(ind, "streak::", digits, true);
  }

  lemma CountLineNoDate(s: string, ind: string, digits: string)
    requires s == MetadataText(ind, "streak::", digits) && WellFormed(ind, "streak::", digits)
    ensures StartOn(s).None?
  {
    KeyLineNotDate(s, ind, "streak::", digits, "streak_start::", 6);
  }

  /** A count line reads as its number and is no start line. */
  lemma CountLineReads(s: string, ind: string, digits: string)
    requires s == MetadataText(ind, "streak::", digits) && WellFormed(ind, "streak::", digits) && AllDigits(digits)
    ensures CountOn(s) == Some(DecimalValue(digits)) && StartOn(s).None?
  {
    CountLineValue(s, ind, digits);
    CountLineNoDate(s, ind, digits);
  }

  lemma StartLineValue(s: string, ind: string, date: string)
    requires s == MetadataText(ind, "streak_start::", date) && WellFormed(ind, "streak_start::", date)
    requires |date| == 10 && DateShapeAt(date, 0)
    ensures StartOn(s) == Some(date)
  {
    DateLineReads(ind, "streak_start::", date, true);
  }

  lemma StartLineNoCount(s: string, ind: string, date: string)
    requires s == MetadataText(ind, "streak_start::", date) && WellFormed(ind, "streak_start::", date)
    ensures CountOn(s).None?
  {
    KeyLineNotNumber(s, ind, "streak_start::", date, "streak::", 6);
  }

  /** A start line reads as its date and is no count line. */
  lemma StartLineReads(s: string, ind: string, date: string)
    requires s == MetadataText(ind, "streak_start::", date) && WellFormed(ind, "streak_start::", date)
    requires |date| == 10 && DateShapeAt(date, 0)
    ensures StartOn(s) == Some(date) && CountOn(s).None?
  {
    StartLineValue(s, ind, date);
    StartLineNoCount(s, ind, date);
  }

  /* ---------- rewriting the usual lines ---------- */

  /** No streak pattern starts inside the indent or the `- ` of a metadata line. */
  lemma NoStreakMatchInIndent(t: Token, ind: string, tail: string, q: nat)
    requires t == StreakCount || t == StreakStartDate
    requires forall k :: 0 <= k < |ind| ==> IsBlank(ind[k])
    requires q < |ind| + 2
    ensures MatchAt(t, ind + "- " + tail, q).None?
  {
    var s := ind + "- " + tail;
    if MatchAt(t, s, q).Some? {
      StreakMatchStartsWithS(t, s, q);
      assert false;
    }
  }

  /** A field right after the indent and the dash is the first match, and
      replacing it keeps the indent and the dash. */
  lemma ReplaceAfterIndent(t: Token, ind: string, tail: string, repl: string)
    requires t == StreakCount || t == StreakStartDate
    requires forall k :: 0 <= k < |ind| ==> IsBlank(ind[k])
    requires MatchAt(t, ind + "- " + tail, |ind| + 2) == Some(|ind| + 2 + |tail|)
    ensures ReplaceFirst(t, ind + "- " + tail, repl) == ind + "- " + repl
  {
    var s := ind + "- " + tail;
    forall q | 0 <= q < |ind| + 2 ensures MatchAt(t, s, q).None? {
      NoStreakMatchInIndent(t, ind, tail, q);
    }
    FirstMatchIsLeftmost(t, s, |ind| + 2, |s|);
    assert s[..|ind| + 2] == ind + "- ";
  }

  lemma SplitText(ind: string, key: string, val: string, lit: string)
    requires lit == key + " "
    ensures MetadataText(ind, key, val) == ind + "- " + (lit + val)
  {
  }

  /** A streak field filling a metadata line after its dash is replaced whole. */
  lemma ReplaceField(t: Token, ind: string, key: string, lit: string, v: string, v2: string)
    requires t == StreakCount || t == StreakStartDate
    requires forall k :: 0 <= k < |ind| ==> IsBlank(ind[k])
    requires lit == key + " "
    requires MatchAt(t, ind + "- " + (lit + v), |ind| + 2) == Some(|ind| + 2 + |lit + v|)
    ensures ReplaceFirst(t, MetadataText(ind, key, v), lit + v2) == MetadataText(ind, key, v2)
  {
    SplitText(ind, key, v, lit);
    SplitText(ind, key, v2, lit);
    ReplaceAfterIndent(t, ind, lit + v, lit + v2);
  }

  /** `streak:: \d+` at `a` runs to the end of a line that ends in digits. */
  lemma CountTailMatch(pre: string, digits: string)
    requires |digits| >= 1 && AllDigits(digits)
    ensures MatchAt(StreakCount, pre + ("streak:: " + digits), |pre|) == Some(|pre| + 9 + |digits|)
  {
    var s := pre + ("streak:: " + digits);
    var a := |pre|;
    assert s[a..] == "streak:: " + digits;
    assert s[a..a + 9] == "streak:: ";
    forall k | a + 9 <= k < |s| ensures IsDigit(s[k]) {
      assert s[k] == digits[k - a - 9];
    }
    SpanEndIs(s, a + 9, IsDigit, |s|);
  }

  lemma StartTailMatch(pre: string, date: string)
    requires |date| == 10 && DateShapeAt(date, 0)
    ensures MatchAt(StreakStartDate, pre + ("streak_start:: " + date), |pre|) == Some(|pre| + 25)
  {
    var s := pre + ("streak_start:: " + date);
    var a := |pre|;
    assert s[a..] == "streak_start:: " + date;
    assert s[a..a + 15] == "streak_start:: ";
    assert forall k :: 0 <= k < 10 ==> s[a + 15 + k] == date[k];
  }

  /** Line 188 (and 193, 212) on a count line: the number is replaced and the
      line keeps its form. */
  lemma WriteCountLine(ind: string, digits: string, n: nat)
    requires WellFormed(ind, "streak::", digits) && AllDigits(digits)
    ensures WriteCount(MetadataText(ind, "streak::", digits), n) == MetadataText(ind, "streak::", Decimal(n))
  {
    CountTailMatch(ind + "- ", digits);
    ReplaceField(StreakCount, ind, "streak::", "streak:: ", digits, Decimal(n));
  }

  lemma WriteStartText(ind: string, date: string, f: string)
    requires WellFormed(ind, "streak_start::", date) && |date| == 10 && DateShapeAt(date, 0)
    ensures ReplaceFirst(StreakStartDate, MetadataText(ind, "streak_start::", date), "streak_start:: " + f)
            == MetadataText(ind, "streak_start::", f)
  {
    StartTailMatch(ind + "- ", date);
    ReplaceField(StreakStartDate, ind, "streak_start::", "streak_start:: ", date, f);
  }

  /** Lines 194-196 (and 213-215) on a start line: the date becomes today's
      and the line keeps its form. */
  lemma WriteStartLine(ind: string, date: string, today: Civil)
    requires WellFormed(ind, "streak_start::", date) && |date| == 10 && DateShapeAt(date, 0)
    ensures WriteStart(MetadataText(ind, "streak_start::", date), today) == MetadataText(ind, "streak_start::", FormatDate(today))
  {
    WriteStartText(ind, date, FormatDate(today));
  }

  /** Today's date as line 192 formats it is a date of the usual shape. */
  lemma TodayText(today: Civil)
    requires ValidCivil(today) && 0 <= today.year <= 9999
    ensures |FormatDate(today)| == 10 && DateShapeAt(FormatDate(today), 0)
    ensures ParseDate(FormatDate(today)) == Some(DayNumber(today))
  {
    FormatThenParse(today);
  }

  /* ---------- unticking the task line ---------- */

  /** A character outside the cut stays in the line. */
  lemma CutKeeps(s: string, q: nat, e: nat, c: char)
    requires q <= e <= |s| && c in s
    requires forall k :: q <= k < e ==> s[k] != c
    ensures c in s[..q] + s[e..]
  {
    var j :| 0 <= j < |s| && s[j] == c;
    var t := s[..q] + s[e..];
    if j < q {
      assert t[j] == c;
    } else {
      assert t[j - (e - q)] == c;
    }
  }

  /** A ticked box at the start of a line is the first `- [x]` in it. */
  lemma CheckedBoxFirst(line: string)
    requires LiteralAt(line, 0, "- [x]")
    ensures FirstMatch(CheckedBox, line, 0) == Some((0, 5))
  {
    assert MatchAt(CheckedBox, line, 0) == Some(5);
    FirstMatchIsLeftmost(CheckedBox, line, 0, 5);
  }

  /** Swapping a prefix for one of the same length keeps what follows it. */
  lemma SwapPrefix(line: string, pre: string, repl: string, c: char)
    requires |pre| == |repl| && LiteralAt(line, 0, pre) && c !in pre && c in line
    ensures LiteralAt(repl + line[|pre|..], 0, repl) && c in repl + line[|pre|..]
  {
    var j :| 0 <= j < |line| && line[j] == c;
    assert j >= |pre| by {
      if j < |pre| {
        assert false;
      }
    }
    var l1 := repl + line[|pre|..];
    assert l1[..|repl|] == repl;
    assert l1[j] == c;
  }

  /** `replace('- [x]', '- [ ]')` on a ticked line swaps its box and keeps the 🔁. */
  lemma BoxSwapped(line: string)
    requires Checkbox(line) == Some(true) && Repeat in line
    ensures LiteralAt(ReplaceFirst(CheckedBox, line, "- [ ]"), 0, "- [ ]") && Repeat in ReplaceFirst(CheckedBox, line, "- [ ]")
  {
    CheckedBoxFirst(line);
    assert ReplaceFirst(CheckedBox, line, "- [ ]") == "- [ ]" + line[5..];
    SwapPrefix(line, "- [x]", "- [ ]", Repeat);
  }

  /** A `✅ YYYY-MM-DD` match holds no 🔁 and starts with the ✅. */
  lemma DoneMatchChars(s: string, q: nat)
    requires MatchAt(DoneDate, s, q).Some?
    ensures q + 12 <= |s| && s[q] == Check
    ensures forall k :: q <= k < q + 12 ==> s[k] != Repeat
  {
    assert LiteralAt(s, q, [Check, ' ']) && DateShapeAt(s, q + 2);
    assert s[q] == s[q..q + 2][0];
    assert s[q + 1] == s[q..q + 2][1];
  }

  /** Removing the first `✅ YYYY-MM-DD` keeps the box and the 🔁. */
  lemma DoneRemoved(l1: string)
    requires LiteralAt(l1, 0, "- [ ]") && Repeat in l1
    ensures LiteralAt(ReplaceFirst(DoneDate, l1, ""), 0, "- [ ]") && Repeat in ReplaceFirst(DoneDate, l1, "")
  {
    match FirstMatch(DoneDate, l1, 0)
    case None =>
    case Some(m) =>
      DoneMatchChars(l1, m.0);
      assert m.1 == m.0 + 12;
      assert m.0 >= 5 by {
        if m.0 < 5 {
          assert false;
        }
      }
      CutKeeps(l1, m.0, m.1, Repeat);
      assert (l1[..m.0] + l1[m.1..])[..5] == l1[..5];
  }

  /** `trimEnd` keeps the box and the 🔁. */
  lemma TrimKeepsTask(l2: string)
    requires LiteralAt(l2, 0, "- [ ]") && Repeat in l2
    ensures LiteralAt(TrimEnd(l2), 0, "- [ ]") && Repeat in TrimEnd(l2)
  {
    assert l2[4] == ']';
    TrimEndKeeps(l2, 4);
    var t := TrimEnd(l2);
    assert t[..5] == l2[..5];
    var j :| 0 <= j < |l2| && l2[j] == Repeat;
    assert !IsSpace(Repeat);
    assert j < |t|;
    assert t[j] == Repeat;
  }

  /** Line 201: the task line comes out unticked and still a 🔁 task, so the
      next run reads it again. */
  lemma UncheckKeepsTask(line: string)
    requires Checkbox(line) == Some(true) && Repeat in line
    ensures Checkbox(Uncheck(line)) == Some(false) && Repeat in Uncheck(line)
  {
    BoxSwapped(line);
    DoneRemoved(ReplaceFirst(CheckedBox, line, "- [ ]"));
    TrimKeepsTask(ReplaceFirst(DoneDate, ReplaceFirst(CheckedBox, line, "- [ ]"), ""));
  }

  /** Line 201 step by step: the box at the start becomes `- [ ]`, then the
      first `✅ YYYY-MM-DD` of that line is cut out (if there is one), then
      the end is trimmed. */
  lemma UncheckSteps(line: string)
    requires Checkbox(line) == Some(true)
    ensures ReplaceFirst(CheckedBox, line, "- [ ]") == "- [ ]" + line[5..]
    ensures var l1 := "- [ ]" + line[5..];
            match FirstMatch(DoneDate, l1, 0)
            case Some(m) => m.0 >= 5 && Uncheck(line) == TrimEnd(l1[..m.0] + l1[m.1..])
            case None => Uncheck(line) == TrimEnd(l1)
  {
    CheckedBoxFirst(line);
    var l1 := "- [ ]" + line[5..];
    assert ReplaceFirst(CheckedBox, line, "- [ ]") == l1;
    match FirstMatch(DoneDate, l1, 0)
    case None =>
    case Some(m) =>
      DoneMatchChars(l1, m.0);
      assert m.0 >= 5 by {
        if m.0 < 5 {
          assert false;
        }
      }
      assert ReplaceFirst(DoneDate, l1, "") == l1[..m.0] + l1[m.1..];
  }

  /** Line 201 when the first `✅ YYYY-MM-DD` after the box swap is at `m`. */
  lemma UncheckAt(line: string, m: (nat, nat))
    requires Checkbox(line) == Some(true)
    requires FirstMatch(DoneDate, "- [ ]" + line[5..], 0) == Some(m)
    ensures m.0 <= m.1 <= |line|
    ensures Uncheck(line) == TrimEnd(("- [ ]" + line[5..])[..m.0] + ("- [ ]" + line[5..])[m.1..])
  {
    UncheckSteps(line);
  }

  /** A task line that ends in its completion date, `- [x] … ✅ YYYY-MM-DD`
      with nothing but white space after it and no other ✅ on it, comes out
      of line 201 as the same task, unticked, with the date gone: the next
      run reads no ✅ date on it. */
  lemma UncheckRemovesDate(p: string, date: string, ws: string)
    requires LiteralAt(p, 0, "- [x]") && Check !in p
    requires |date| == 10 && DateShapeAt(date, 0)
    requires forall k :: 0 <= k < |ws| ==> IsSpace(ws[k])
    ensures Uncheck(p + [Check, ' '] + date + ws) == TrimEnd("- [ ]" + p[5..])
    ensures DoneField(Uncheck(p + [Check, ' '] + date + ws)) == None
  {
    var line := p + [Check, ' '] + date + ws;
    assert LiteralAt(line, 0, "- [x]") by {
      assert line[..5] == p[..5];
    }
    var x := "- [ ]" + p[5..];
    assert "- [ ]" + line[5..] == x + [Check, ' '] + date + ws;
    TrailingDateFirst(x, date, ws);
    UncheckAt(line, (|x|, |x| + 12));
    TrimEndDropsSpaces(x, ws);
    NoCheckNoDone(TrimEnd(x), x);
  }

  /** The ✅ date at the end of a line with no other ✅ is its first one, and
      cutting it out leaves the text before it and the white space after. */
  lemma TrailingDateFirst(x: string, date: string, ws: string)
    requires Check !in x && |date| == 10 && DateShapeAt(date, 0)
    ensures var l := x + [Check, ' '] + date + ws;
            && FirstMatch(DoneDate, l, 0) == Some((|x|, |x| + 12))
            && l[..|x|] + l[|x| + 12..] == x + ws
  {
    var l := x + [Check, ' '] + date + ws;
    assert MatchAt(DoneDate, l, |x|) == Some(|x| + 12) by {
      assert l[|x|..|x| + 2] == [Check, ' '];
      assert l[|x| + 2..|x| + 12] == date;
    }
    forall q | 0 <= q < |x|
      ensures MatchAt(DoneDate, l, q).None?
    {
      if MatchAt(DoneDate, l, q).Some? {
        DoneMatchChars(l, q);
        assert false;
      }
    }
    FirstMatchIsLeftmost(DoneDate, l, |x|, |x| + 12);
    assert l[..|x|] == x;
    assert l[|x| + 12..] == ws;
  }

  /** A line with no ✅ holds no `✅ YYYY-MM-DD`. */
  lemma NoCheckNoDone(t: string, x: string)
    requires Check !in x && |t| <= |x| && t == x[..|t|]
    ensures DoneField(t) == None
  {
    match FirstMatch(DoneDate, t, 0)
    case None =>
    case Some(m) =>
      DoneMatchChars(t, m.0);
      assert false;
  }

  /* ---------- the block after the rewrite ---------- */

  /** The last hit is the hit after which nothing answers. */
  lemma LastHitIs<T>(block: seq<string>, f: string -> Option<T>, v: T, k: nat)
    requires k < |block| && f(block[k]) == Some(v)
    requires forall j :: k < j < |block| ==> f(block[j]).None?
    ensures LastHit(block, f) == Some((v, k))
  {
  }

  /** Rewriting the line of the last hit, to one that still answers, and one
      other line, to one that does not, keeps the hit where it was. */
  lemma HitStays<T>(block: seq<string>, nb: seq<string>, f: string -> Option<T>, at: nat, other: nat, v: T)
    requires |nb| == |block| && at < |block| && other < |block| && at != other
    requires LastHit(block, f).Some? && LastHit(block, f).value.1 == at
    requires f(nb[at]) == Some(v) && f(nb[other]).None?
    requires forall j :: 0 <= j < |nb| && j != at && j != other ==> nb[j] == block[j]
    ensures LastHit(nb, f) == Some((v, at))
  {
    forall j | at < j < |nb| ensures f(nb[j]).None? {
      if j != other {
        assert nb[j] == block[j];
      }
    }
    LastHitIs(nb, f, v, at);
  }

  /** The block's length is the one index that ends the run of sub-lines. */
  lemma BlockLengthIs(x: seq<string>, n: nat)
    requires n <= |x| && forall k :: 0 <= k < n ==> IsSubLine(x[k])
    requires n == |x| || !IsSubLine(x[n])
    ensures BlockLength(x) == n
  {
  }

  /** Rewriting two lines of the block into sub-lines, and the task line,
      leaves the block where it was, with those two lines replaced. */
  lemma BlockKept(rest: seq<string>, w: seq<string>, ca: nat, sa: nat, cl: string, sl: string, tl: string)
    requires |rest| >= 1 && 1 <= ca <= BlockLength(rest[1..]) && 1 <= sa <= BlockLength(rest[1..])
    requires IsSubLine(cl) && IsSubLine(sl)
    requires w == rest[ca := cl][sa := sl][0 := tl]
    ensures |w| >= 1 && TaskBlock(w) == TaskBlock(rest)[ca - 1 := cl][sa - 1 := sl]
  {
    var n := BlockLength(rest[1..]);
    var x := w[1..];
    forall k | 0 <= k < n ensures IsSubLine(x[k]) {
      if k + 1 != ca && k + 1 != sa {
        assert x[k] == rest[1..][k];
      }
    }
    if n < |x| {
      assert x[n] == rest[1..][n];
    }
    BlockLengthIs(x, n);
  }

  /** The block after `BlockKept`, line by line. */
  lemma BlockRewritten(rest: seq<string>, w: seq<string>, ca: nat, sa: nat, cl: string, sl: string, tl: string)
    requires |rest| >= 1 && 1 <= ca <= BlockLength(rest[1..]) && 1 <= sa <= BlockLength(rest[1..]) && ca != sa
    requires IsSubLine(cl) && IsSubLine(sl)
    requires w == rest[ca := cl][sa := sl][0 := tl]
    ensures |w| >= 1 && |TaskBlock(w)| == |TaskBlock(rest)| && TaskBlock(w)[ca - 1] == cl && TaskBlock(w)[sa - 1] == sl
    ensures forall j :: 0 <= j < |TaskBlock(w)| && j != ca - 1 && j != sa - 1 ==> TaskBlock(w)[j] == TaskBlock(rest)[j]
  {
    BlockKept(rest, w, ca, sa, cl, sl, tl);
  }

  /** Both last hits stay on the two rewritten lines. */
  lemma TwoHitsStay<A, B>(block: seq<string>, nb: seq<string>, fc: string -> Option<A>, fs: string -> Option<B>,
                          ca: nat, sa: nat, n: A, date: B)
    requires |nb| == |block| && ca < |block| && sa < |block| && ca != sa
    requires LastHit(block, fc).Some? && LastHit(block, fc).value.1 == ca
    requires LastHit(block, fs).Some? && LastHit(block, fs).value.1 == sa
    requires fc(nb[ca]) == Some(n) && fs(nb[ca]).None? && fc(nb[sa]).None? && fs(nb[sa]) == Some(date)
    requires forall j :: 0 <= j < |nb| && j != ca && j != sa ==> nb[j] == block[j]
    ensures LastHit(nb, fc) == Some((n, ca)) && LastHit(nb, fs) == Some((date, sa))
  {
    HitStays(block, nb, fc, ca, sa, n);
    HitStays(block, nb, fs, sa, ca, date);
  }

  /** `Rewrite` replaces exactly the count line, the start line and the task line. */
  lemma RewriteIs(rest: seq<string>, ca: nat, sa: nat, e: Edit, today: Civil)
    requires 1 <= ca < |rest| && 1 <= sa < |rest| && ca != sa
    ensures Rewrite(rest, ca, sa, e, today)
            == rest[ca := if e.count.Some? then WriteCount(rest[ca], e.count.value) else rest[ca]]
                   [sa := if e.restart then WriteStart(rest[sa], today) else rest[sa]]
                   [0 := if e.uncheck then Uncheck(rest[0]) else rest[0]]
  {
  }

  /* ---------- each rewritten line read again ---------- */

  lemma CountRewritten(line: string, ind: string, digits: string, n: nat, cl: string)
    requires line == MetadataText(ind, "streak::", digits) && WellFormed(ind, "streak::", digits) && AllDigits(digits)
    requires cl == WriteCount(line, n)
    ensures IsSubLine(cl) && CountOn(cl) == Some(n) && StartOn(cl).None?
  {
    WriteCountLine(ind, digits, n);
    MetadataTrim(ind, "streak::", Decimal(n));
    CountLineReads(cl, ind, Decimal(n));
  }

  lemma CountKept(line: string, ind: string, digits: string)
    requires line == MetadataText(ind, "streak::", digits) && WellFormed(ind, "streak::", digits) && AllDigits(digits)
    ensures IsSubLine(line) && CountOn(line) == Some(DecimalValue(digits)) && StartOn(line).None?
  {
    MetadataTrim(ind, "streak::", digits);
    CountLineReads(line, ind, digits);
  }

  /** The count line after lines 188/193/212 reads as the count decided on. */
  lemma CountWritten(line: string, ind: string, digits: string, count: Option<nat>, streak: nat, cl: string)
    requires line == MetadataText(ind, "streak::", digits) && WellFormed(ind, "streak::", digits) && AllDigits(digits)
    requires DecimalValue(digits) == streak
    requires cl == (if count.Some? then WriteCount(line, count.value) else line)
    ensures IsSubLine(cl) && CountOn(cl) == Some(count.GetOr(streak)) && StartOn(cl).None?
  {
    if count.Some? {
      CountRewritten(line, ind, digits, count.value, cl);
    } else {
      CountKept(line, ind, digits);
    }
  }

  lemma StartRewrittenTo(line: string, ind: string, date: string, f: string, sl: string)
    requires line == MetadataText(ind, "streak_start::", date) && WellFormed(ind, "streak_start::", date)
    requires |date| == 10 && DateShapeAt(date, 0) && |f| == 10 && DateShapeAt(f, 0)
    requires sl == ReplaceFirst(StreakStartDate, line, "streak_start:: " + f)
    ensures IsSubLine(sl) && CountOn(sl).None? && StartOn(sl) == Some(f)
  {
    WriteStartText(ind, date, f);
    StartKept(sl, ind, f);
  }

  lemma StartRewritten(line: string, ind: string, date: string, today: Civil, sl: string)
    requires line == MetadataText(ind, "streak_start::", date) && WellFormed(ind, "streak_start::", date)
    requires |date| == 10 && DateShapeAt(date, 0)
    requires ValidCivil(today) && 0 <= today.year <= 9999
    requires sl == WriteStart(line, today)
    ensures IsSubLine(sl) && CountOn(sl).None? && StartOn(sl) == Some(FormatDate(today))
  {
    TodayText(today);
    StartRewrittenTo(line, ind, date, FormatDate(today), sl);
  }

  lemma StartKept(line: string, ind: string, date: string)
    requires line == MetadataText(ind, "streak_start::", date) && WellFormed(ind, "streak_start::", date)
    requires |date| == 10 && DateShapeAt(date, 0)
    ensures IsSubLine(line) && CountOn(line).None? && StartOn(line) == Some(date)
  {
    MetadataTrim(ind, "streak_start::", date);
    StartLineReads(line, ind, date);
  }

  /** The start line after lines 194-196/213-215 reads as the start decided on. */
  lemma StartWritten(line: string, ind: string, date: string, restart: bool, today: Civil, start: Option<int>, sl: string)
    requires line == MetadataText(ind, "streak_start::", date) && WellFormed(ind, "streak_start::", date)
    requires |date| == 10 && DateShapeAt(date, 0) && ParseDate(date) == start
    requires ValidCivil(today) && 0 <= today.year <= 9999
    requires sl == (if restart then WriteStart(line, today) else line)
    ensures IsSubLine(sl) && CountOn(sl).None? && StartOn(sl).Some?
    ensures ParseDate(StartOn(sl).value) == if restart then Some(DayNumber(today)) else start
  {
    if restart {
      StartRewritten(line, ind, date, today, sl);
      TodayText(today);
    } else {
      StartKept(line, ind, date);
    }
  }

  /** The task line after line 201 is still a 🔁 task, unticked when the
      pass unticks it. */
  lemma TaskLineWritten(line: string, checked: bool, uncheck: bool, tl: string)
    requires Checkbox(line) == Some(checked) && Repeat in line && (uncheck ==> checked)
    requires tl == (if uncheck then Uncheck(line) else line)
    ensures Checkbox(tl) == Some(checked && !uncheck) && Repeat in tl
    ensures !uncheck ==> DoneField(tl) == DoneField(line)
  {
    if uncheck {
      UncheckKeepsTask(line);
    }
  }

  /* ---------- reading the task before and after ---------- */

  /** What `ReadTask` found is what the scan of lines 165-176 found. */
  lemma ReadTaskScanCount(rest: seq<string>, rd: Reading, scan: Scan)
    requires |rest| >= 1 && ReadTask(rest) == Some(rd)
    requires scan == ScanBlock(TaskBlock(rest), 0, Scan(None, None))
    ensures scan.count.Some? && scan.count.value.0 == rd.state.streak && scan.count.value.1 == rd.countAt - 1
  {
  }

  lemma ReadTaskScanStart(rest: seq<string>, rd: Reading, scan: Scan)
    requires |rest| >= 1 && ReadTask(rest) == Some(rd)
    requires scan == ScanBlock(TaskBlock(rest), 0, Scan(None, None))
    ensures scan.start.Some? && scan.start.value.1 == rd.startAt - 1
    ensures rd.state.start == ParseDate(scan.start.value.0)
    ensures rd.state.done == DoneField(rest[0])
  {
  }

  /** What `ReadTask` found is the last hit of each reader in the block. */
  lemma ReadTaskHits(rest: seq<string>, rd: Reading)
    requires |rest| >= 1 && ReadTask(rest) == Some(rd)
    ensures LastHit(TaskBlock(rest), CountOn).Some?
    ensures LastHit(TaskBlock(rest), CountOn).value.0 == rd.state.streak && LastHit(TaskBlock(rest), CountOn).value.1 == rd.countAt - 1
    ensures LastHit(TaskBlock(rest), StartOn).Some? && LastHit(TaskBlock(rest), StartOn).value.1 == rd.startAt - 1
    ensures rd.state.start == ParseDate(LastHit(TaskBlock(rest), StartOn).value.0)
    ensures rd.state.done == DoneField(rest[0])
  {
    var scan := ScanBlock(TaskBlock(rest), 0, Scan(None, None));
    ReadTaskScanCount(rest, rd, scan);
    ReadTaskScanStart(rest, rd, scan);
    ScanTakesLastHits(TaskBlock(rest));
  }

  lemma ReadTaskFromScan(rest: seq<string>, checked: bool, scan: Scan)
    requires |rest| >= 1 && Repeat in rest[0] && Checkbox(rest[0]) == Some(checked)
    requires scan == ScanBlock(TaskBlock(rest), 0, Scan(None, None))
    requires scan.count.Some? && scan.start.Some?
    ensures ReadTask(rest).Some?
    ensures ReadTask(rest).value.state == TaskState(checked, DoneField(rest[0]), scan.count.value.0, ParseDate(scan.start.value.0))
    ensures ReadTask(rest).value.countAt == 1 + scan.count.value.1 && ReadTask(rest).value.startAt == 1 + scan.start.value.1
  {
  }

  /** Conversely, a 🔁 task with a box and a last hit of each reader is read
      as those hits. */
  lemma ReadTaskFromHits(rest: seq<string>, checked: bool, cv: nat, ci: nat, sv: string, si: nat)
    requires |rest| >= 1 && Repeat in rest[0] && Checkbox(rest[0]) == Some(checked)
    requires LastHit(TaskBlock(rest), CountOn) == Some((cv, ci)) && LastHit(TaskBlock(rest), StartOn) == Some((sv, si))
    ensures ReadTask(rest).Some?
    ensures ReadTask(rest).value.state == TaskState(checked, DoneField(rest[0]), cv, ParseDate(sv))
    ensures ReadTask(rest).value.countAt == 1 + ci && ReadTask(rest).value.startAt == 1 + si
  {
    var scan := ScanBlock(TaskBlock(rest), 0, Scan(None, None));
    ScanTakesLastHits(TaskBlock(rest));
    ReadTaskFromScan(rest, checked, scan);
  }

  /** A line of the block is the line below the task at one more. */
  lemma BlockLine(rest: seq<string>, k: nat)
    requires |rest| >= 1 && 1 <= k <= BlockLength(rest[1..])
    ensures TaskBlock(rest)[k - 1] == rest[k]
  {
  }

  /** Rewriting the lines of the two last hits into lines that still answer
      their own reader and not the other keeps both hits there. */
  lemma HitsAfterRewrite<A, B>(rest: seq<string>, w: seq<string>, ca: nat, sa: nat, cl: string, sl: string, tl: string,
                               fc: string -> Option<A>, fs: string -> Option<B>, n: A, date: B)
    requires |rest| >= 1 && 1 <= ca <= BlockLength(rest[1..]) && 1 <= sa <= BlockLength(rest[1..]) && ca != sa
    requires LastHit(TaskBlock(rest), fc).Some? && LastHit(TaskBlock(rest), fc).value.1 == ca - 1
    requires LastHit(TaskBlock(rest), fs).Some? && LastHit(TaskBlock(rest), fs).value.1 == sa - 1
    requires IsSubLine(cl) && fc(cl) == Some(n) && fs(cl).None?
    requires IsSubLine(sl) && fc(sl).None? && fs(sl) == Some(date)
    requires w == rest[ca := cl][sa := sl][0 := tl]
    ensures |w| >= 1 && LastHit(TaskBlock(w), fc) == Some((n, ca - 1)) && LastHit(TaskBlock(w), fs) == Some((date, sa - 1))
  {
    BlockRewritten(rest, w, ca, sa, cl, sl, tl);
    TwoHitsStay(TaskBlock(rest), TaskBlock(w), fc, fs, ca - 1, sa - 1, n, date);
  }

  /** The lines the pass writes read as a 🔁 task with the written count and start. */
  lemma RewrittenTaskReads(w: seq<string>, tl: string, checked: bool, n: nat, ca: nat, date: string, sa: nat)
    requires |w| >= 1 && w[0] == tl && Checkbox(tl) == Some(checked) && Repeat in tl
    requires LastHit(TaskBlock(w), CountOn) == Some((n, ca)) && LastHit(TaskBlock(w), StartOn) == Some((date, sa))
    ensures ReadTask(w).Some? && ReadTask(w).value.state == TaskState(checked, DoneField(tl), n, ParseDate(date))
  {
    ReadTaskFromHits(w, checked, n, ca, date, sa);
  }

  /** Two last hits on lines that answer their own reader, one of which does
      not answer the other's, are on different lines and carry those lines' values. */
  lemma OldHits<A, B>(block: seq<string>, fc: string -> Option<A>, fs: string -> Option<B>, ca: nat, sa: nat, vc: A, vs: B)
    requires ca < |block| && sa < |block|
    requires LastHit(block, fc).Some? && LastHit(block, fc).value.1 == ca
    requires LastHit(block, fs).Some? && LastHit(block, fs).value.1 == sa
    requires fc(block[ca]) == Some(vc) && fs(block[sa]) == Some(vs) && fc(block[sa]).None?
    ensures ca != sa && LastHit(block, fc).value.0 == vc && LastHit(block, fs).value.0 == vs
  {
  }

  /** The usual count and start lines, read. */
  lemma OldLines(rest: seq<string>, rd: Reading, ind1: string, digits: string, ind2: string, date: string)
    requires |rest| >= 1 && ReadTask(rest) == Some(rd)
    requires rest[rd.countAt] == MetadataText(ind1, "streak::", digits)
    requires WellFormed(ind1, "streak::", digits) && AllDigits(digits)
    requires rest[rd.startAt] == MetadataText(ind2, "streak_start::", date)
    requires WellFormed(ind2, "streak_start::", date) && |date| == 10 && DateShapeAt(date, 0)
    ensures CountOn(rest[rd.countAt]) == Some(DecimalValue(digits)) && CountOn(rest[rd.startAt]).None?
    ensures StartOn(rest[rd.startAt]) == Some(date)
  {
    CountKept(rest[rd.countAt], ind1, digits);
    StartKept(rest[rd.startAt], ind2, date);
  }

  /** The two last hits before and after the rewrite, for any two readers:
      the hits sit on two different lines, carry those lines' values, and
      stay on the rewritten lines. */
  lemma HitsBeforeAndAfter<A, B>(rest: seq<string>, w: seq<string>, fc: string -> Option<A>, fs: string -> Option<B>,
                                 ca: nat, sa: nat, cl: string, sl: string, tl: string, vc: A, vs: B, nc: A, ns: B)
    requires |rest| >= 1 && 1 <= ca <= BlockLength(rest[1..]) && 1 <= sa <= BlockLength(rest[1..])
    requires LastHit(TaskBlock(rest), fc).Some? && LastHit(TaskBlock(rest), fc).value.1 == ca - 1
    requires LastHit(TaskBlock(rest), fs).Some? && LastHit(TaskBlock(rest), fs).value.1 == sa - 1
    requires fc(rest[ca]) == Some(vc) && fc(rest[sa]).None? && fs(rest[sa]) == Some(vs)
    requires IsSubLine(cl) && fc(cl) == Some(nc) && fs(cl).None?
    requires IsSubLine(sl) && fc(sl).None? && fs(sl) == Some(ns)
    requires w == rest[ca := cl][sa := sl][0 := tl]
    ensures ca != sa && LastHit(TaskBlock(rest), fc).value.0 == vc && LastHit(TaskBlock(rest), fs).value.0 == vs
    ensures |w| >= 1 && LastHit(TaskBlock(w), fc) == Some((nc, ca - 1)) && LastHit(TaskBlock(w), fs) == Some((ns, sa - 1))
  {
    BlockLine(rest, ca);
    BlockLine(rest, sa);
    OldHits(TaskBlock(rest), fc, fs, ca - 1, sa - 1, vc, vs);
    HitsAfterRewrite(rest, w, ca, sa, cl, sl, tl, fc, fs, nc, ns);
  }

  /** The streak pass's two readers, before and after the rewrite. */
  lemma HitsReadBack(rest: seq<string>, w: seq<string>, st: TaskState, e: Edit, today: int, ca: nat, sa: nat,
                     cl: string, sl: string, tl: string, vc: nat, vs: string)
    requires |rest| >= 1 && 1 <= ca <= BlockLength(rest[1..]) && 1 <= sa <= BlockLength(rest[1..])
    requires LastHit(TaskBlock(rest), CountOn).Some?
    requires LastHit(TaskBlock(rest), CountOn).value.0 == st.streak && LastHit(TaskBlock(rest), CountOn).value.1 == ca - 1
    requires LastHit(TaskBlock(rest), StartOn).Some? && LastHit(TaskBlock(rest), StartOn).value.1 == sa - 1
    requires st.start == ParseDate(LastHit(TaskBlock(rest), StartOn).value.0)
    requires CountOn(rest[ca]) == Some(vc) && CountOn(rest[sa]).None? && StartOn(rest[sa]) == Some(vs)
    requires IsSubLine(cl) && CountOn(cl) == Some(e.count.GetOr(vc)) && StartOn(cl).None?
    requires IsSubLine(sl) && CountOn(sl).None? && StartOn(sl).Some?
    requires w == rest[ca := cl][sa := sl][0 := tl]
    ensures ca != sa && vc == st.streak && ParseDate(vs) == st.start
    ensures |w| >= 1 && LastHit(TaskBlock(w), CountOn) == Some((e.count.GetOr(vc), ca - 1))
    ensures LastHit(TaskBlock(w), StartOn) == Some((StartOn(sl).value, sa - 1))
  {
    HitsBeforeAndAfter(rest, w, CountOn, StartOn, ca, sa, cl, sl, tl, vc, vs, e.count.GetOr(vc), StartOn(sl).value);
  }

  /** Lines read as the task line and the two hits `Apply` wrote read as a
      state that agrees with what it wrote. */
  lemma ReadsAsApplied(w: seq<string>, st: TaskState, e: Edit, today: int, ca: nat, sa: nat, tl: string, date: string)
    requires |w| >= 1 && w[0] == tl
    requires e.uncheck ==> st.checked
    requires Checkbox(tl) == Some(st.checked && !e.uncheck) && Repeat in tl
    requires !e.uncheck ==> DoneField(tl) == st.done
    requires ParseDate(date) == if e.restart then Some(today) else st.start
    requires LastHit(TaskBlock(w), CountOn) == Some((e.count.GetOr(st.streak), ca))
    requires LastHit(TaskBlock(w), StartOn) == Some((date, sa))
    ensures ReadTask(w).Some? && Agrees(ReadTask(w).value.state, Apply(st, e, today))
  {
    RewrittenTaskReads(w, tl, st.checked && !e.uncheck, e.count.GetOr(st.streak), ca, date, sa);
    WrittenAgrees(st, e, today, ReadTask(w).value.state, DoneField(tl), ParseDate(date));
  }

  /** `TaskStreak` on a task it reads is `Rewrite` with the decided edit. */
  lemma TaskStreakIs(rest: seq<string>, rd: Reading, today: Civil)
    requires |rest| >= 1 && ReadTask(rest) == Some(rd)
    ensures TaskStreak(rest, today).lines == Rewrite(rest, rd.countAt, rd.startAt, Decide(rd.state, DayNumber(today)), today)
  {
  }

  /** Reading back what `Apply` wrote gives a state that agrees with it. */
  lemma WrittenAgrees(t: TaskState, e: Edit, today: int, s: TaskState, done: Option<Option<int>>, date: Option<int>)
    requires e.uncheck ==> t.checked
    requires date == (if e.restart then Some(today) else t.start)
    requires !e.uncheck ==> done == t.done
    requires s == TaskState(t.checked && !e.uncheck, done, e.count.GetOr(t.streak), date)
    ensures Agrees(s, Apply(t, e, today))
  {
  }

  /** Lines that show the state `next`: a 🔁 task ticked as `next` is (with
      `done` as its ✅ date when ticked), and a block whose last count is
      `next`'s at block index `ca` and whose last start date, at `sa`, is
      `next`'s start. */
  predicate Shows(w: seq<string>, next: TaskState, done: Option<Option<int>>, ca: nat, sa: nat) {
    |w| >= 1 &&
    LastHit(TaskBlock(w), CountOn) == Some((next.streak, ca)) &&
    LastHit(TaskBlock(w), StartOn).Some? && LastHit(TaskBlock(w), StartOn).value.1 == sa &&
    ParseDate(LastHit(TaskBlock(w), StartOn).value.0) == next.start &&
    Checkbox(w[0]) == Some(next.checked) && Repeat in w[0] &&
    (next.checked ==> DoneField(w[0]) == done && next.done == done)
  }

  /** What the pass writes on a task whose count and start date are in the
      usual form shows the state `Run` decides on: the new block's last hits
      carry its count and start date, and the task line is still a 🔁 task,
      ticked as `Run` leaves it. */
  lemma WrittenShows(rest: seq<string>, rd: Reading, today: Civil,
                     ind1: string, digits: string, ind2: string, date: string)
    requires |rest| >= 1 && ReadTask(rest) == Some(rd)
    requires rest[rd.countAt] == MetadataText(ind1, "streak::", digits)
    requires WellFormed(ind1, "streak::", digits) && AllDigits(digits)
    requires rest[rd.startAt] == MetadataText(ind2, "streak_start::", date)
    requires WellFormed(ind2, "streak_start::", date) && |date| == 10 && DateShapeAt(date, 0)
    requires ValidCivil(today) && 0 <= today.year <= 9999
    ensures Shows(TaskStreak(rest, today).lines, Run(rd.state, DayNumber(today)), rd.state.done, rd.countAt - 1, rd.startAt - 1)
  {
    var st, ca, sa := rd.state, rd.countAt, rd.startAt;
    var e := Decide(st, DayNumber(today));
    TaskStreakIs(rest, rd, today);
    ReadTaskHits(rest, rd);
    CountKept(rest[ca], ind1, digits);
    StartKept(rest[sa], ind2, date);
    assert ca != sa;
    var cl := if e.count.Some? then WriteCount(rest[ca], e.count.value) else rest[ca];
    var sl := if e.restart then WriteStart(rest[sa], today) else rest[sa];
    var tl := if e.uncheck then Uncheck(rest[0]) else rest[0];
    CountWritten(rest[ca], ind1, digits, e.count, DecimalValue(digits), cl);
    StartWritten(rest[sa], ind2, date, e.restart, today, ParseDate(date), sl);
    TaskLineWritten(rest[0], st.checked, e.uncheck, tl);
    RewriteIs(rest, ca, sa, e, today);
    HitsReadBack(rest, TaskStreak(rest, today).lines, st, e, DayNumber(today), ca, sa, cl, sl, tl, DecimalValue(digits), date);
  }

  /** Lines that show a state are read as a state that agrees with it. */
  lemma ShownIsRead(w: seq<string>, next: TaskState, done: Option<Option<int>>, ca: nat, sa: nat)
    requires Shows(w, next, done, ca, sa)
    ensures ReadTask(w).Some? && Agrees(ReadTask(w).value.state, next)
  {
    RewrittenTaskReads(w, w[0], next.checked, next.streak, ca, LastHit(TaskBlock(w), StartOn).value.0, sa);
  }

  /** Lines 147-217 on a task whose count and start date are written in the
      usual form: the lines the pass writes are read, by the next run, as
      the state `Run` decides on (up to the ✅ date of an unticked task,
      which nothing reads). So the text and the state model move in step. */
  lemma TaskStreakReadsBack(rest: seq<string>, rd: Reading, today: Civil,
                            ind1: string, digits: string, ind2: string, date: string)
    requires |rest| >= 1 && ReadTask(rest) == Some(rd)
    requires rest[rd.countAt] == MetadataText(ind1, "streak::", digits)
    requires WellFormed(ind1, "streak::", digits) && AllDigits(digits)
    requires rest[rd.startAt] == MetadataText(ind2, "streak_start::", date)
    requires WellFormed(ind2, "streak_start::", date) && |date| == 10 && DateShapeAt(date, 0)
    requires ValidCivil(today) && 0 <= today.year <= 9999
    ensures ReadTask(TaskStreak(rest, today).lines).Some?
    ensures Agrees(ReadTask(TaskStreak(rest, today).lines).value.state, Run(rd.state, DayNumber(today)))
  {
    WrittenShows(rest, rd, today, ind1, digits, ind2, date);
    ShownIsRead(TaskStreak(rest, today).lines, Run(rd.state, DayNumber(today)), rd.state.done, rd.countAt - 1, rd.startAt - 1);
  }
}
