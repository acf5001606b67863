/**
 * Deadlines of scheduled tasks: fixed intervals with exact nanosecond arithmetic, and
 * calendar slots against a wall clock. Integer widths and saturation are explicit.
 */
module TaskSchedule {
  import opened Wrappers

  const I64_MAX: int := 0x7FFF_FFFF_FFFF_FFFF
  const I64_MIN: int := -0x8000_0000_0000_0000
  const U64_MAX: nat := 0xFFFF_FFFF_FFFF_FFFF
  const U128_MAX: nat := 0xFFFF_FFFF_FFFF_FFFF_FFFF_FFFF_FFFF_FFFF
  const NANOS_PER_SECOND: nat := 1_000_000_000
  const NANOS_PER_MILLI: nat := 1_000_000
  // A monotonic instant holds a signed 64-bit count of seconds and a nanosecond part.
  const MAX_INSTANT: nat := I64_MAX * NANOS_PER_SECOND + 999_999_999

  type I64 = x: int | I64_MIN <= x <= I64_MAX

  /** Nanoseconds since some origin. */
  type Instant = n: nat | n <= MAX_INSTANT

  /** Nanoseconds; the second count fits 64 unsigned bits. */
  type Duration = d: nat | d / NANOS_PER_SECOND <= U64_MAX

  datatype Deadline = Deadline(instant: Instant, unixMs: I64)

  /** `nextSlot` maps a wall-clock time to the next calendar slot the cron library finds, if any. */
  datatype Schedule = FixedInterval(interval: Duration) | Cron(nextSlot: I64 -> Option<I64>)

  datatype ScheduleError = ZeroInterval | InvalidDeadline | NoSlot | NonFutureDeadline

  function Min(a: int, b: int): int {
    if a <= b then a else b
  }

  function SaturatingAdd(a: I64, b: I64): I64 {
    if a + b > I64_MAX then I64_MAX else if a + b < I64_MIN then I64_MIN else a + b
  }

  function DurationSince(later: Instant, earlier: Instant): nat {
    if later >= earlier then later - earlier else 0
  }

  function CheckedAdd(instant: Instant, delay: nat): Result<Instant, ScheduleError> {
    if instant + delay <= MAX_INSTANT then Success(instant + delay) else Failure(InvalidDeadline)
  }

  function DurationFromNanos(nanos: nat): Result<Duration, ScheduleError> {
    if nanos / NANOS_PER_SECOND > U64_MAX then Failure(InvalidDeadline) else Success(nanos)
  }

  function NextFixed(interval: Duration, previous: Deadline, now: Deadline): Result<Deadline, ScheduleError> {
    if interval == 0 then Failure(ZeroInterval)
    else
      var elapsed := DurationSince(now.instant, previous.instant);
      var steps := elapsed / interval + 1;
      var delay :- DurationFromNanos(interval - elapsed % interval);
      var instant :- CheckedAdd(now.instant, delay);
      var advanceMs := Min(Min(interval / NANOS_PER_MILLI * steps, U128_MAX), I64_MAX);
      assert advanceMs >= 0 by { ProductNonNegative(interval / NANOS_PER_MILLI, steps); }
      Success(Deadline(instant, SaturatingAdd(previous.unixMs, advanceMs)))
  }

  lemma ProductNonNegative(a: nat, b: nat)
    ensures a * b >= 0
  {
  }

  function NextCron(nextSlot: I64 -> Option<I64>, now: Deadline): Result<Deadline, ScheduleError> {
    if nextSlot(now.unixMs).None? then Failure(NoSlot)
    else
      var unixMs := nextSlot(now.unixMs).value;
      var deltaMs := unixMs - now.unixMs;
      if deltaMs > I64_MAX || deltaMs < I64_MIN then Failure(InvalidDeadline)
      else if deltaMs <= 0 then Failure(NonFutureDeadline)
      else
        // An overflowing addition panics; the caller turns that into an error.
        var instant :- CheckedAdd(now.instant, deltaMs * NANOS_PER_MILLI);
        Success(Deadline(instant, unixMs))
  }

  function NextAfter(schedule: Schedule, previous: Deadline, now: Deadline): Result<Deadline, ScheduleError> {
    match schedule
    case FixedInterval(interval) => NextFixed(interval, previous, now)
    case Cron(nextSlot) => NextCron(nextSlot, now)
  }

  function ComputeNextDeadline(schedule: Schedule, previous: Deadline, now: Deadline): Result<Deadline, ScheduleError> {
    var next :- NextAfter(schedule, previous, now);
    if next.instant <= now.instant then Failure(NonFutureDeadline) else Success(next)
  }

  function ReanchorCronDeadline(schedule: Schedule, deadline: Deadline, now: Deadline)
    : Result<Deadline, ScheduleError>
  {
    if schedule.FixedInterval? then Success(deadline)
    else
      var deltaMs := deadline.unixMs - now.unixMs;
      if deltaMs > I64_MAX || deltaMs < I64_MIN then Failure(InvalidDeadline)
      else if deltaMs <= 0 then Success(Deadline(now.instant, deadline.unixMs))
      else
        var instant :- CheckedAdd(now.instant, deltaMs * NANOS_PER_MILLI);
        Success(Deadline(instant, deadline.unixMs))
  }

  // ---- Fixed intervals -----------------------------------------------------------------------

  lemma DivModSteps(elapsed: nat, interval: nat)
    requires interval > 0
    ensures elapsed == (elapsed / interval) * interval + elapsed % interval
    ensures 0 <= elapsed % interval < interval
  {
  }

  lemma Distribute(a: int, b: int, c: int)
    ensures (a + b) * c == a * c + b * c
  {
  }

  lemma ShorterDuration(delay: nat, interval: Duration)
    requires delay <= interval
    ensures delay / NANOS_PER_SECOND <= U64_MAX
  {
  }

  /**
   * A fixed deadline moves by a whole number of intervals to the least such instant after
   * `now`; it fails only for a zero interval or when the instant leaves its range, never
   * for its duration.
   */
  lemma FixedAdvance(interval: Duration, previous: Deadline, now: Deadline) returns (steps: nat)
    requires interval > 0 && previous.instant <= now.instant
    ensures steps >= 1
    ensures now.instant < previous.instant + steps * interval <= now.instant + interval
    ensures ComputeNextDeadline(FixedInterval(interval), previous, now) ==
            if previous.instant + steps * interval > MAX_INSTANT then Failure(InvalidDeadline)
            else Success(Deadline(previous.instant + steps * interval,
                                  SaturatingAdd(previous.unixMs, Min(interval / NANOS_PER_MILLI * steps, I64_MAX))))
  {
    var delay;
    steps, delay := StepsAndDelay(interval, now.instant - previous.instant);
    ShorterDuration(delay, interval);
    var ms := interval / NANOS_PER_MILLI * steps;
    ProductNonNegative(interval / NANOS_PER_MILLI, steps);
    assert Min(Min(ms, U128_MAX), I64_MAX) == Min(ms, I64_MAX);
  }

  /** The number of intervals that `elapsed` has begun, and what is left of the last one. */
  lemma StepsAndDelay(interval: nat, elapsed: nat) returns (steps: nat, delay: nat)
    requires interval > 0
    ensures steps == elapsed / interval + 1 && delay == interval - elapsed % interval
    ensures 0 < delay <= interval && elapsed + delay == steps * interval
  {
    steps, delay := elapsed / interval + 1, interval - elapsed % interval;
    DivModSteps(elapsed, interval);
    Distribute(elapsed / interval, 1, interval);
  }

  /** Deadline number `k` of a task registered at `base`, with the reported time clamped to 64 bits. */
  ghost predicate OnLattice(base: Deadline, interval: Duration, k: nat, d: Deadline) {
    && d.instant == base.instant + k * interval
    && d.unixMs == Min(base.unixMs + k * (interval / NANOS_PER_MILLI), I64_MAX)
  }

  lemma ClampedSum(a: int, b: nat, c: nat)
    requires 0 <= a <= I64_MAX
    ensures Min(a + b, I64_MAX) + Min(c, I64_MAX) >= 0
    ensures Min(Min(a + b, I64_MAX) + Min(c, I64_MAX), I64_MAX) == Min(a + b + c, I64_MAX)
  {
  }

  /**
   * Phase lock: advancing a deadline of the lattice, however late, gives the point of the
   * lattice within one interval of `now`, and fails exactly when that point is out of range.
   */
  lemma LatticeAdvance(base: Deadline, interval: Duration, k: nat, previous: Deadline, now: Deadline) returns (k': nat)
    requires interval > 0 && base.unixMs >= 0 && previous.instant <= now.instant
    requires OnLattice(base, interval, k, previous)
    ensures k' > k
    ensures now.instant < base.instant + k' * interval <= now.instant + interval
    ensures var r := ComputeNextDeadline(FixedInterval(interval), previous, now);
            && (r.Success? <==> base.instant + k' * interval <= MAX_INSTANT)
            && (r.Success? ==> OnLattice(base, interval, k', r.value))
  {
    var steps := FixedAdvance(interval, previous, now);
    k' := k + steps;
    var ms := interval / NANOS_PER_MILLI;
    Distribute(k, steps, interval);
    Distribute(k, steps, ms);
    ProductNonNegative(k, ms);
    ProductNonNegative(steps, ms);
    assert ms * steps == steps * ms;
    ClampedSum(base.unixMs, k * ms, steps * ms);
  }

  // ---- Calendar slots ------------------------------------------------------------------------

  /** A calendar deadline is always for a slot later than the wall clock it was computed from. */
  lemma CronAdvance(schedule: Schedule, previous: Deadline, now: Deadline)
    requires schedule.Cron?
    ensures var r := ComputeNextDeadline(schedule, previous, now);
            r.Success? ==> r.value.unixMs > now.unixMs && r.value.instant > now.instant
  {
  }

  /** After re-anchoring, a calendar deadline is due exactly when its slot is not in the wall clock's future. */
  lemma ReanchoredDue(schedule: Schedule, deadline: Deadline, now: Deadline)
    requires schedule.Cron?
    ensures var r := ReanchorCronDeadline(schedule, deadline, now);
            r.Success? ==>
              && r.value.unixMs == deadline.unixMs
              && (r.value.instant <= now.instant <==> deadline.unixMs <= now.unixMs)
  {
  }
}
