/** The streak pass over many days: what the count means when the pass runs
    every morning and the task is ticked on some days and not on others. */
module StreakDays {
  import opened Wrappers
  import opened Streak

  /** The user ticks the task on `day`, which stamps it with that ✅ date. */
  function Tick(t: TaskState, day: int): TaskState {
    t.(checked := true, done := Some(Some(day)))
  }

  /** The number of `true`s at the end of a history: the days ticked in a row
      up to its last day. */
  function TrailingRun(h: seq<bool>): (n: nat)
    ensures n <= |h|
    ensures forall j :: |h| - n <= j < |h| ==> h[j]
    ensures n < |h| ==> !h[|h| - 1 - n]
    decreases |h|
  {
    if |h| == 0 || !h[|h| - 1] then 0 else 1 + TrailingRun(h[..|h| - 1])
  }

  /** The task's state after the pass's run on the morning of day
      `first + |h|`: the task stood as `t0` on the morning of day `first`,
      and on day `first + j` it was ticked after the run exactly when `h[j]`. */
  function Mornings(t0: TaskState, first: int, h: seq<bool>): TaskState
    decreases |h|
  {
    if |h| == 0 then Run(t0, first)
    else
      var last := |h| - 1;
      var prev := Mornings(t0, first, h[..last]);
      Run(if h[last] then Tick(prev, first + last) else prev, first + |h|)
  }

  /** A freshly started streak (count 0, started no later than the first
      day) counts, every morning, exactly the days ticked in a row up to
      yesterday; the task is unticked after each run, and the streak's last
      day never lies after yesterday. */
  lemma {:induction false} StreakCountsTickedDays(t0: TaskState, first: int, h: seq<bool>)
    requires !t0.checked && t0.streak == 0 && t0.start.Some? && t0.start.value <= first
    ensures Mornings(t0, first, h).streak == TrailingRun(h)
    ensures !Mornings(t0, first, h).checked && Mornings(t0, first, h).start.Some?
    ensures LastDone(Mornings(t0, first, h).start.value, Mornings(t0, first, h).streak) <= first + |h| - 1
    decreases |h|
  {
    if |h| > 0 {
      var last := |h| - 1;
      StreakCountsTickedDays(t0, first, h[..last]);
      assert h[..last] == h[..|h| - 1];
    }
  }

  /** A task ticked today is left as it is. */
  lemma TickedTodayStays(t: TaskState, today: int)
    ensures Decide(Tick(t, today), today) == Edit(None, false, false, false)
    ensures Run(Tick(t, today), today) == Tick(t, today)
  {
  }

  /** A task ticked yesterday gains one day and is unticked for today. */
  lemma TickedYesterdayExtends(t: TaskState, today: int)
    ensures Run(Tick(t, today - 1), today) == TaskState(false, None, t.streak + 1, t.start)
  {
  }

  /** A task last ticked before yesterday restarts at 0 from today and is unticked. */
  lemma LateTickRestarts(t: TaskState, d: int, today: int)
    requires d < today - 1
    ensures Run(Tick(t, d), today) == TaskState(false, None, 0, Some(today))
  {
  }

  /** A ✅ date after today, or one moment.js rejects, unticks the task and
      leaves the count and the start date as they are. */
  lemma OtherTickOnlyUnticks(t: TaskState, today: int)
    requires t.checked && t.done.Some?
    requires t.done.value.None? || t.done.value.value > today
    ensures Run(t, today) == TaskState(false, None, t.streak, t.start)
  {
  }

  /** A ticked task without a ✅ date is left as it is: neither case of the
      decision applies. */
  lemma TickedWithoutDateStays(t: TaskState, today: int)
    requires t.checked && t.done.None?
    ensures Decide(t, today) == Edit(None, false, false, false) && Run(t, today) == t
  {
  }

  /** An unticked task restarts exactly when its streak is non-zero, its
      start date valid, and a day has gone by since its last day. */
  lemma UntickedRestarts(t: TaskState, today: int)
    requires !t.checked
    ensures Run(t, today) == (if t.start.Some? && t.streak != 0 && LastDone(t.start.value, t.streak) < today - 1
                              then TaskState(false, t.done, 0, Some(today)) else t)
  {
  }
}
