/** Times as the event loop keeps them, and how long it may sleep. */
module Clock {

  /** Seconds and milliseconds; `Normal` when the second part is below 1000. */
  datatype Time = Time(sec: int, ms: int)

  predicate Normal(t: Time) {
    0 <= t.ms < 1000
  }

  function Millis(t: Time): int {
    1000 * t.sec + t.ms
  }

  /** C division and remainder, which truncate toward zero. */
  function DivC(a: int, b: int): int
    requires b > 0
  {
    if a >= 0 then a / b else -((-a) / b)
  }

  function ModC(a: int, b: int): int
    requires b > 0
  {
    a - b * DivC(a, b)
  }

  /** aeAddMillisecondsToNow. */
  function AddMilliseconds(now: Time, milliseconds: int): Time {
    var sec, ms := now.sec + DivC(milliseconds, 1000), now.ms + ModC(milliseconds, 1000);
    if ms >= 1000 then Time(sec + 1, ms - 1000) else Time(sec, ms)
  }

  /** What every deadline made at or before `now` satisfies: only a deadline in
      the past can be short of milliseconds. */
  predicate Settled(when: Time, now: Time) {
    -1000 < when.ms < 1000 && (when.ms < 0 ==> when.sec <= now.sec)
  }

  /** The deadline is exact for every delay, negative ones included; it is normal
      exactly when the truncated remainder does not pull the milliseconds below
      zero; and it is settled from then on. */
  lemma AddMillisecondsExact(now: Time, milliseconds: int, later: Time)
    requires Normal(now) && now.sec <= later.sec
    ensures Millis(AddMilliseconds(now, milliseconds)) == Millis(now) + milliseconds
    ensures Normal(AddMilliseconds(now, milliseconds)) <==> now.ms + ModC(milliseconds, 1000) >= 0
    ensures Settled(AddMilliseconds(now, milliseconds), later)
  {
    assert -1000 < ModC(milliseconds, 1000) < 1000;
    assert milliseconds < 0 ==> DivC(milliseconds, 1000) <= 0;
  }

  /** The comparison that decides whether a timer fires. */
  predicate Due(now: Time, when: Time) {
    now.sec > when.sec || (now.sec == when.sec && now.ms >= when.ms)
  }

  lemma DueMeansPast(now: Time, when: Time)
    requires Normal(now) && Settled(when, now)
    ensures Due(now, when) <==> Millis(when) <= Millis(now)
  {
  }

  /** The order of aeSearchNearestTimer. */
  predicate Before(a: Time, b: Time) {
    a.sec < b.sec || (a.sec == b.sec && a.ms < b.ms)
  }

  // ----- the sleep of aeProcessEvents and aeApiPoll -----

  datatype Timeval = Timeval(sec: int, usec: int)

  /** The time until the nearest timer, split for `select`. */
  function WaitFor(now: Time, nearest: Time): Timeval {
    var ms := 1000 * (nearest.sec - now.sec) + nearest.ms - now.ms;
    if ms > 0 then Timeval(DivC(ms, 1000), 1000 * ModC(ms, 1000)) else Timeval(0, 0)
  }

  const INT_LIMIT := 0x8000_0000
  const INT_SPAN := 0x1_0000_0000

  /** The conversion of a `long` to the `int` parameter of epoll_wait. */
  function ToInt(n: int): (r: int)
    ensures -INT_LIMIT <= r < INT_LIMIT && (n - r) % INT_SPAN == 0
    ensures 0 <= n ==> (r == n <==> n < INT_LIMIT) && (r >= 0 <==> n % INT_SPAN < INT_LIMIT) && r <= n
  {
    (n + INT_LIMIT) % INT_SPAN - INT_LIMIT
  }

  /** The timeout aeApiPoll makes of it. */
  function PollMillis(tv: Timeval): int {
    ToInt(1000 * tv.sec + DivC(tv.usec, 1000))
  }

  /** The milliseconds until a deadline, none if it has passed. */
  function Ahead(now: Time, when: Time): nat {
    if Millis(when) > Millis(now) then Millis(when) - Millis(now) else 0
  }

  /** The two conversions cancel, but for the range of `int`. */
  lemma WaitIsExact(now: Time, nearest: Time)
    ensures PollMillis(WaitFor(now, nearest)) == ToInt(Ahead(now, nearest))
  {
    var ms := Millis(nearest) - Millis(now);
    if ms > 0 {
      assert 0 <= ModC(ms, 1000) < 1000;
      assert DivC(1000 * ModC(ms, 1000), 1000) == ModC(ms, 1000);
    }
  }

  /** epoll_wait without events: until a time in milliseconds, or for ever if the
      timeout is negative. */
  datatype Sleep = Until(wake: int) | Forever

  function SleepFrom(now: Time, nearest: Time): Sleep {
    var timeout := PollMillis(WaitFor(now, nearest));
    if timeout < 0 then Forever else Until(Millis(now) + timeout)
  }

  /** The loop is still asleep after the deadline, and not because it was past
      already. */
  predicate SleepsPast(s: Sleep, now: Time, when: Time) {
    s.Until? ==> s.wake > Millis(now) && s.wake > Millis(when)
  }

  /** It sleeps past no deadline, and after the full sleep one is due. */
  ghost predicate SleepsExactly(whens: seq<Time>, now: Time, s: Sleep) {
    && (forall i | 0 <= i < |whens| :: !SleepsPast(s, now, whens[i]))
    && s.Until? && exists i | 0 <= i < |whens| :: Millis(whens[i]) <= s.wake
  }

  /** `nearest` is one of `whens` and none comes before it. */
  predicate IsNearest(whens: seq<Time>, nearest: Time) {
    nearest in whens && forall i | 0 <= i < |whens| :: !Before(whens[i], nearest)
  }

  lemma NearestIsEarliest(when: Time, now: Time, nearest: Time)
    requires !Before(when, nearest) && Settled(when, now) && Settled(nearest, now) && Normal(now)
    requires Millis(nearest) > Millis(now)
    ensures Millis(nearest) <= Millis(when)
  {
  }

  lemma SleepIs(now: Time, nearest: Time)
    ensures var n := Ahead(now, nearest); var s := SleepFrom(now, nearest);
      && (s.Until? <==> n % INT_SPAN < INT_LIMIT)
      && (s.Until? ==> Millis(now) <= s.wake <= Millis(now) + n)
      && (n < INT_LIMIT <==> s == Until(Millis(now) + n))
  {
    WaitIsExact(now, nearest);
    hide ToInt, PollMillis, WaitFor, Ahead;
  }

  /** With settled deadlines the sleep is exact if and only if the wait fits an
      `int`.  A longer one passes a deadline if and only if its low 32 bits are
      negative: then the loop sleeps for ever; otherwise it wakes early. */
  lemma NeverOversleeps(whens: seq<Time>, now: Time, nearest: Time)
    requires IsNearest(whens, nearest) && Normal(now)
    requires forall i | 0 <= i < |whens| :: Settled(whens[i], now)
    ensures SleepsExactly(whens, now, SleepFrom(now, nearest)) <==> Ahead(now, nearest) < INT_LIMIT
    ensures (forall i | 0 <= i < |whens| :: !SleepsPast(SleepFrom(now, nearest), now, whens[i]))
      <==> Ahead(now, nearest) % INT_SPAN < INT_LIMIT
  {
    SleepIs(now, nearest);
    hide SleepFrom;
    var k :| 0 <= k < |whens| && whens[k] == nearest;
    var s := SleepFrom(now, nearest);
    forall i | 0 <= i < |whens| && Millis(nearest) > Millis(now)
      ensures Millis(nearest) <= Millis(whens[i])
    {
      NearestIsEarliest(whens[i], now, nearest);
    }
    assert s.Until? ==> forall i | 0 <= i < |whens| :: !SleepsPast(s, now, whens[i]);
    assert s.Forever? ==> SleepsPast(s, now, whens[k]);
    assert Ahead(now, nearest) < INT_LIMIT ==> Millis(whens[k]) <= s.wake;
  }

  /** The wait is split into whole seconds and less than a second of microseconds. */
  lemma WaitIsSplit(now: Time, nearest: Time)
    ensures var tv := WaitFor(now, nearest);
      0 <= tv.sec && 0 <= tv.usec < 1_000_000 && 1_000_000 * tv.sec + tv.usec == 1000 * Ahead(now, nearest)
  {
    var ms := Millis(nearest) - Millis(now);
    if ms > 0 {
      assert 0 <= ModC(ms, 1000) < 1000 && ms == 1000 * DivC(ms, 1000) + ModC(ms, 1000);
    }
  }

  // ----- deadlines that are not settled -----

  /** Beside another timer, of whatever delay, the loop sleeps past the deadline, on a
      wait that fits. */
  predicate Spoils(t: Time, now: Time, other: Time, nearest: Time) {
    && -1000 < other.ms < 1000 && IsNearest([t, other], nearest)
    && Ahead(now, nearest) < INT_LIMIT && SleepsPast(SleepFrom(now, nearest), now, t)
  }

  lemma NotSpoiled(t: Time, now: Time, other: Time, nearest: Time)
    requires Normal(now) && -1000 < t.ms < 1000 && Spoils(t, now, other, nearest)
    ensures t.ms < -1 && Millis(now) < 1000 * t.sec - 1 && Millis(t) + 1 - Millis(now) < INT_LIMIT
  {
    SleepIs(now, nearest);
    hide SleepFrom;
    assert [t, other][0] == t && [t, other][1] == other;
    assert !Before(t, nearest);
  }

  /** A normal deadline, the first one after `now` and `t`. */
  function Companion(t: Time, now: Time): Time {
    var ms := 1 + if Millis(t) > Millis(now) then Millis(t) else Millis(now);
    Time(ms / 1000, ms % 1000)
  }

  /** Which deadlines can be slept past because another timer comes before them in
      the order of the loop: exactly those more than a millisecond short of their
      second, seen from before that second, and within the range of a wait.  They
      come from negative delays, once the clock has gone back. */
  lemma {:induction false} SpoiledExactly(t: Time, now: Time)
    requires Normal(now) && -1000 < t.ms < 1000
    ensures (exists other: Time, nearest: Time :: Spoils(t, now, other, nearest))
      <==> t.ms < -1 && Millis(now) < 1000 * t.sec - 1 && Millis(t) + 1 - Millis(now) < INT_LIMIT
  {
    if exists other: Time, nearest: Time :: Spoils(t, now, other, nearest) {
      var other: Time, nearest: Time :| Spoils(t, now, other, nearest);
      NotSpoiled(t, now, other, nearest);
    }
    if t.ms < -1 && Millis(now) < 1000 * t.sec - 1 && Millis(t) + 1 - Millis(now) < INT_LIMIT {
      var other := Companion(t, now);
      SleepIs(now, other);
      hide SleepFrom;
      assert other.sec < t.sec;
      assert [t, other][0] == t && [t, other][1] == other;
      assert Spoils(t, now, other, other);
    }
  }

  lemma SmallNegativeDelay(sec: int, delay: int)
    requires 0 < delay < 1000
    ensures AddMilliseconds(Time(sec, 0), -delay) == Time(sec, -delay)
  {
    assert DivC(-delay, 1000) == 0;
  }

  /** Such a deadline is one made with a small negative delay right on a second,
      and seen after the clock has gone back behind that second. */
  lemma OversleepsAfterClockStepsBack(sec: int, delay: int, now: Time)
    requires 1 < delay < 1000 && Normal(now)
    requires Millis(now) < 1000 * sec - 1 && 1000 * sec - Millis(now) < INT_LIMIT
    ensures var t := AddMilliseconds(Time(sec, 0), -delay);
      exists other: Time, nearest: Time :: Spoils(t, now, other, nearest)
  {
    hide Spoils;
    SmallNegativeDelay(sec, delay);
    SpoiledExactly(Time(sec, -delay), now);
  }
}
