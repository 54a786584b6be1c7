/**
 The day arithmetic of the movement date label: whole days between "now" and
 the movement, `Math.round` of the absolute millisecond difference over one
 day, then Today, Yesterday, "N days ago" up to 7, else an absolute date.
 */
module MovementDates {

  /** `1000 * 60 * 60 * 24` */
  const DayMs: int := 86_400_000

  datatype DateLabel = Today | Yesterday | DaysAgo(days: int) | Absolute

  function AbsInt(x: int): nat { if x < 0 then -x else x }

  /** `Math.round` of a non-negative value: halves round up. */
  function RoundHalfUp(x: real): int
  {
    (x + 0.5).Floor
  }

  /** `calcDaysPassed(now, at)` */
  function DaysPassed(now: int, at: int): int
  {
    RoundHalfUp(AbsInt(at - now) as real / DayMs as real)
  }

  /** The label the history panel shows for a movement recorded at `at`. */
  function Label(now: int, at: int): DateLabel
  {
    var d := DaysPassed(now, at);
    if d == 0 then Today
    else if d == 1 then Yesterday
    else if d <= 7 then DaysAgo(d)
    else Absolute
  }

  /** Rounding the day count is the same as counting whole days in the
      difference plus half a day. */
  lemma DaysPassedInWholeMs(now: int, at: int)
    ensures DaysPassed(now, at) == (AbsInt(at - now) + DayMs / 2) / DayMs
    ensures DaysPassed(now, at) >= 0
  {
    var e := AbsInt(at - now);
    var k := (e + DayMs / 2) / DayMs;
    var x := e as real / DayMs as real + 0.5;
    assert k * DayMs <= e + DayMs / 2 < (k + 1) * DayMs;
    assert x == (e + DayMs / 2) as real / DayMs as real;
    assert (k as real) <= x < (k + 1) as real;
  }

  /** The label depends only on the elapsed milliseconds, in half-day bands:
      Today below half a day, Yesterday up to a day and a half, "N days ago"
      for N in 2..7 within half a day of N days, absolute from 7.5 days on. */
  lemma LabelBands(now: int, at: int)
    ensures Label(now, at) == Label(at, now)
    ensures Label(now, at) == Today <==> AbsInt(at - now) < DayMs / 2
    ensures Label(now, at) == Yesterday <==>
              DayMs / 2 <= AbsInt(at - now) < 3 * DayMs / 2
    ensures Label(now, at).DaysAgo? ==>
              var n := Label(now, at).days;
              2 <= n <= 7 && (2 * n - 1) * DayMs / 2 <= AbsInt(at - now) < (2 * n + 1) * DayMs / 2
    ensures Label(now, at) == Absolute <==> AbsInt(at - now) >= 15 * DayMs / 2
  {
    DaysPassedInWholeMs(now, at);
    DaysPassedInWholeMs(at, now);
    assert AbsInt(at - now) == AbsInt(now - at);
  }
}
