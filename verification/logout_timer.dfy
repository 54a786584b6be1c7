/**
 The inactivity logout countdown. Starting a countdown sets the time to 300
 seconds and calls `tick` at once; after that the interval calls it once a
 second. A tick shows the remaining time as minutes and seconds, and when it
 sees exactly 0 it clears its interval and logs out; in every case it then
 decrements the time.
 */
module LogoutTimer {

  /** Length of a session without activity, in seconds. */
  const LogoutSeconds: int := 300

  /** The countdown's `time` variable and whether its interval is still live. */
  datatype Countdown = Countdown(time: int, running: bool)

  /** What one call of `tick` shows and does. */
  datatype TickOutcome = TickOutcome(minutes: int, seconds: int, expired: bool, next: Countdown)

  /** `Math.trunc(a / d)`: quotient rounded toward zero. */
  function TruncDiv(a: int, d: int): int
    requires d > 0
  {
    if a >= 0 then a / d else -((-a) / d)
  }

  /** JavaScript's `a % d`: the remainder takes the sign of `a`. */
  function TruncRem(a: int, d: int): int
    requires d > 0
  {
    if a >= 0 then a % d else -((-a) % d)
  }

  /** For a non-negative dividend, truncation is Euclidean division. */
  lemma TruncDivRemNonNegative(a: int, d: int)
    requires d > 0 && a >= 0
    ensures TruncDiv(a, d) * d + TruncRem(a, d) == a
    ensures 0 <= TruncRem(a, d) < d && TruncDiv(a, d) >= 0
  {
  }

  /** For a negative dividend, quotient and remainder are the negated
      Euclidean ones of `-a`. */
  lemma TruncDivRemNegative(a: int, d: int)
    requires d > 0 && a < 0
    ensures TruncDiv(a, d) * d + TruncRem(a, d) == a
    ensures -d < TruncRem(a, d) <= 0
  {
    var q := (-a) / d;
    var r := (-a) % d;
    assert q * d + r == -a;
    assert (-q) * d == -(q * d);
  }

  /** Truncated quotient and remainder recombine to the dividend, and the
      remainder is smaller than the divisor and never of opposite sign. */
  lemma TruncDivRem(a: int, d: int)
    requires d > 0
    ensures TruncDiv(a, d) * d + TruncRem(a, d) == a
    ensures -d < TruncRem(a, d) < d
    ensures a >= 0 ==> TruncRem(a, d) >= 0 && TruncDiv(a, d) >= 0
    ensures a < 0 ==> TruncRem(a, d) <= 0
  {
    if a < 0 {
      TruncDivRemNegative(a, d);
    } else {
      TruncDivRemNonNegative(a, d);
    }
  }

  /** One call of `tick`: show `trunc(time / 60)` and `time % 60`; at exactly
      0 clear the interval (logout); then decrement. */
  function Tick(c: Countdown): (r: TickOutcome)
    requires c.running
    ensures r.minutes * 60 + r.seconds == c.time
    ensures c.time >= 0 ==> 0 <= r.seconds < 60 && r.minutes >= 0
    ensures r.expired <==> c.time == 0
    ensures r.next.running <==> !r.expired
    ensures r.next.time == c.time - 1
  {
    TruncDivRem(c.time, 60);
    TickOutcome(TruncDiv(c.time, 60), TruncRem(c.time, 60), c.time == 0,
                Countdown(c.time - 1, c.time != 0))
  }

  /** `startLogOutTimer`: a fresh 300-second countdown after its immediate
      first tick, which shows 05:00. */
  function Start(): (r: TickOutcome)
    ensures r.minutes == 5 && r.seconds == 0 && !r.expired
    ensures r.next == Countdown(LogoutSeconds - 1, true)
  {
    Tick(Countdown(LogoutSeconds, true))
  }

  /** One firing of the interval; a cleared interval no longer fires. */
  function Fire(c: Countdown): Countdown
  {
    if c.running then Tick(c).next else c
  }

  /** The countdown after `n` firings. */
  function Run(c: Countdown, n: nat): Countdown
  {
    if n == 0 then c else Fire(Run(c, n - 1))
  }

  /** From `t` seconds, the first `t` firings count down without logging out,
      the next one sees 0 and logs out, and nothing fires after that. */
  lemma {:induction false} RunCountsDown(t: int, n: nat)
    requires t >= 0
    ensures n <= t ==> Run(Countdown(t, true), n) == Countdown(t - n, true)
    ensures n > t ==> Run(Countdown(t, true), n) == Countdown(-1, false)
  {
    if n > 0 {
      RunCountsDown(t, n - 1);
      if n - 1 == t {
        assert Tick(Countdown(0, true)).expired;
      }
    }
  }

  /** The next firing of the interval sees 0 and logs out. */
  predicate LogsOutNext(c: Countdown)
  {
    c.running && Tick(c).expired
  }

  /** Counting the immediate first call, a countdown started at 300 logs out
      on its 301st tick: calls 1..300 see 300..1, call 301 sees 0, and no
      call follows. */
  lemma LogoutOnTick301()
    ensures forall n: nat :: n < 300 ==> Run(Countdown(LogoutSeconds, true), n).running
    ensures forall n: nat :: n < 300 ==> !LogsOutNext(Run(Countdown(LogoutSeconds, true), n))
    ensures LogsOutNext(Run(Countdown(LogoutSeconds, true), 300))
    ensures !Run(Countdown(LogoutSeconds, true), 301).running
  {
    forall n: nat | n < 300
      ensures Run(Countdown(LogoutSeconds, true), n) == Countdown(LogoutSeconds - n, true)
    {
      RunCountsDown(LogoutSeconds, n);
    }
    RunCountsDown(LogoutSeconds, 300);
    RunCountsDown(LogoutSeconds, 301);
  }
}
