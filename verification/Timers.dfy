/** The time arithmetic of timerAdd and timerAddMs, and what the kernel makes of it. */
module Timers {

  datatype Kind = RunAt | RunAfter | RunEvery

  /** struct itimerspec: first expiry after arming, then the period. */
  datatype ITimerSpec = ITimerSpec(sec: int, nsec: int, intervalSec: int, intervalNsec: int) {
    /** timerfd_settime answers EINVAL to anything else. */
    predicate Accepted() {
      sec >= 0 && 0 <= nsec < BILLION && intervalSec >= 0 && 0 <= intervalNsec < BILLION
    }

    predicate Armed() { sec != 0 || nsec != 0 }

    /** Nanoseconds from arming to the k-th expiry, if there is one. */
    function Expiry(k: nat): (r: Expires)
      requires k > 0
    {
      var first := sec * BILLION + nsec;
      var period := intervalSec * BILLION + intervalNsec;
      if !Armed() then Never
      else if k == 1 then After(first)
      else if period == 0 then Never
      else After(first + (k - 1) * period)
    }
  }

  datatype Expires = Never | After(ns: int)

  const BILLION := 1_000_000_000
  const MILLION := 1_000_000

  const DISARMED := ITimerSpec(0, 0, 0, 0)

  /** C division and remainder: truncation towards zero. */
  function CDiv(a: int, b: int): int
    requires b > 0
  {
    if a >= 0 then a / b else -((-a) / b)
  }

  function CMod(a: int, b: int): int
    requires b > 0
  {
    a - CDiv(a, b) * b
  }

  /** Quotient and remainder make up the dividend, and the remainder has its sign. */
  lemma TruncatesTowardsZero(a: int, b: int)
    requires b > 0
    ensures a == CDiv(a, b) * b + CMod(a, b) && -b < CMod(a, b) < b
    ensures if a >= 0 then CMod(a, b) >= 0 else CMod(a, b) <= 0
  {
  }

  function Max(a: int, b: int): int { if a > b then a else b }

  /** timerAdd reads the clock twice: `t1` for the comparison, `t2` for the subtraction. */
  function ArmSeconds(kind: Kind, time: int, start: int, t1: int, t2: int): ITimerSpec {
    var delay := if start > t1 then start - t2 else 0;
    match kind
    case RunAt => if time > t1 then ITimerSpec(time - t2, 0, 0, 0) else DISARMED
    case RunAfter => ITimerSpec(time + delay, 0, 0, 0)
    case RunEvery => ITimerSpec(time + delay, 0, time, 0)
  }

  /** The same for a time given as seconds and nanoseconds, with one reading of the clock. */
  function ArmParts(kind: Kind, s: int, ns: int, start: int, now: int): ITimerSpec {
    var delay := if start > now then start - now else 0;
    match kind
    case RunAt => if s > now then ITimerSpec(s - now, 0, 0, 0) else DISARMED
    case RunAfter => ITimerSpec(s + delay, ns, 0, 0)
    case RunEvery => ITimerSpec(s + delay, ns, s, ns)
  }

  /** timerAddMs uses the whole seconds of one clock reading. */
  function ArmMilliseconds(kind: Kind, timeMs: int, start: int, now: int): ITimerSpec {
    ArmParts(kind, CDiv(timeMs, 1000), CMod(timeMs, 1000) * 1000 * 1000, start, now)
  }

  /** The kernel takes every non-negative time; for a periodic timer it takes no other. */
  lemma MillisecondsAccepted(kind: Kind, timeMs: int, start: int, now: int)
    ensures timeMs >= 0 ==> ArmMilliseconds(kind, timeMs, start, now).Accepted()
    ensures kind == RunEvery ==> (ArmMilliseconds(kind, timeMs, start, now).Accepted() <==> timeMs >= 0)
    ensures kind == RunAt ==> ArmMilliseconds(kind, timeMs, start, now).Accepted()
  {
  }

  /** No drift: the k-th expiry of a periodic timer is k periods after the start point. */
  lemma PeriodicExpiry(timeMs: int, start: int, now: int, k: nat)
    requires timeMs > 0 && k > 0
    ensures ArmMilliseconds(RunEvery, timeMs, start, now).Expiry(k)
         == After((k * timeMs + 1000 * Max(0, start - now)) * MILLION)
  {
    var spec := ArmMilliseconds(RunEvery, timeMs, start, now);
    var delay := Max(0, start - now);
    assert spec.intervalSec * BILLION + spec.intervalNsec == timeMs * MILLION;
    assert spec.sec * BILLION + spec.nsec == (timeMs + 1000 * delay) * MILLION;
    assert (timeMs + 1000 * delay) * MILLION + (k - 1) * (timeMs * MILLION)
        == (k * timeMs + 1000 * delay) * MILLION;
  }

  /** A delay timer fires once, at its delay behind the start point, unless both are zero. */
  lemma DelayExpiry(timeMs: int, start: int, now: int, k: nat)
    requires timeMs >= 0 && k > 0
    ensures ArmMilliseconds(RunAfter, timeMs, start, now).Expiry(k)
         == if k == 1 && (timeMs > 0 || start > now) then
              After((timeMs + 1000 * Max(0, start - now)) * MILLION)
            else Never
  {
  }

  /** On whole seconds and one clock reading the two entry points arm the same timer. */
  lemma SecondsAgree(kind: Kind, time: int, start: int, now: int)
    ensures ArmMilliseconds(kind, 1000 * time, start, now) == ArmSeconds(kind, time, start, now, now)
  {
  }

  /**
   RUN_AT drops the milliseconds of the target and of the clock. With the clock at `now` s and `ns`
   ns, the timer never fires iff the target lies in the current second or before; otherwise it fires
   at the promised instant iff the two dropped parts happen to be equal.
   */
  lemma RunAtPrecision(timeMs: int, start: int, now: int, ns: int)
    requires timeMs >= 0 && now >= 0 && 0 <= ns < BILLION
    ensures ArmMilliseconds(RunAt, timeMs, start, now).Expiry(1) == Never <==> timeMs < 1000 * (now + 1)
    ensures timeMs >= 1000 * (now + 1) ==>
              var e := ArmMilliseconds(RunAt, timeMs, start, now).Expiry(1);
              && e.After?
              && (now * BILLION + ns + e.ns == timeMs * MILLION <==> ns == timeMs % 1000 * MILLION)
  {
    var s := timeMs / 1000;
    assert timeMs * MILLION == s * BILLION + timeMs % 1000 * MILLION;
  }

  /** If the clock moves between the two readings, a target still ahead at the first may be lost. */
  lemma SecondReadingRace(time: int, start: int, t1: int, t2: int)
    requires t1 <= t2 && time > t1
    ensures var spec := ArmSeconds(RunAt, time, start, t1, t2);
            spec.Accepted() && spec.Expiry(1) == After((time - t2) * BILLION) && spec.Armed() <==> time > t2
    ensures ArmSeconds(RunAt, time, start, t1, t2).Accepted() <==> time >= t2
  {
  }

  /** The second at which timerAdd's first expiry is due: behind the start point, or behind the second reading. */
  function DueSecond(time: int, start: int, t1: int, t2: int): int {
    time + if start > t1 then start else t2
  }

  /**
   For delays and periods the two readings do no harm as long as the due time is ahead at the second
   one; a due time that is just reached makes the timer silent, and one that has passed is refused.
   */
  lemma SecondReadingDelays(kind: Kind, time: int, start: int, t1: int, t2: int)
    requires kind != RunAt && time >= 0
    ensures var spec, due := ArmSeconds(kind, time, start, t1, t2), DueSecond(time, start, t1, t2);
            && (spec.Accepted() && spec.Expiry(1) == After((due - t2) * BILLION) <==> due > t2)
            && (spec.Accepted() && spec.Expiry(1) == Never <==> due == t2)
            && (!spec.Accepted() <==> due < t2)
  {
  }

  /** With a reading that stands still the due time is never refused, and it is silent only for time 0 and no start. */
  lemma OneReadingDelays(kind: Kind, time: int, start: int, now: int)
    requires kind != RunAt && time >= 0
    ensures DueSecond(time, start, now, now) >= now
    ensures DueSecond(time, start, now, now) == now <==> time == 0 && start <= now
  {
  }

  /**
   The header promises a timer callback its due time in milliseconds, the code passes the current
   second times 1000. With both instants in nanoseconds, that is the due time iff it has no
   milliseconds of its own and the callback runs within the due second.
   */
  lemma PassedTimeIsDueIff(due: int, at: int)
    requires 0 <= due <= at
    ensures 1000 * (at / BILLION) == due / MILLION <==> due / MILLION % 1000 == 0 && at / BILLION == due / BILLION
  {
    assert due / MILLION / 1000 == due / BILLION;
  }
}
