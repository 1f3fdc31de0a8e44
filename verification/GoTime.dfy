/** Go's time.Time without a monotonic reading: wrapping seconds, saturating addition, int64 nanosecond durations. */
module GoTime {

  const TWO63: int := 0x8000_0000_0000_0000
  const TWO64: int := 0x1_0000_0000_0000_0000

  type int64 = n: int | -TWO63 <= n < TWO63

  predicate Fits64(n: int) {
    -TWO63 <= n < TWO63
  }

  function Wrap(n: int): int64 {
    (n + TWO63) % TWO64 - TWO63
  }

  const NANOS: int := 1_000_000_000
  const MINUTE: int64 := 60 * NANOS
  const YEAR_SECONDS: int64 := 365 * 24 * 3600

  /** Seconds from year 1 to 1970. */
  const UNIX_TO_INTERNAL: int := 62135596800

  type nanos = n: int | 0 <= n < NANOS

  /** Seconds since year 1, and nanoseconds within the second. */
  datatype Time = Time(ext: int64, nsec: nanos)

  function UnixTime(seconds: int64): Time {
    Time(Wrap(seconds + UNIX_TO_INTERNAL), 0)
  }

  function UnixSeconds(t: Time): int64 {
    Wrap(t.ext - UNIX_TO_INTERNAL)
  }

  predicate After(t: Time, u: Time) {
    t.ext > u.ext || (t.ext == u.ext && t.nsec > u.nsec)
  }

  /** Addition of seconds stops at the ends of the range. */
  function AddSeconds(ext: int64, d: int64): int64 {
    var sum := Wrap(ext + d);
    if (sum > ext) == (d > 0) then sum
    else if d > 0 then TWO63 - 1
    else -(TWO63 - 1)
  }

  /** time.Time.Add, whose division truncates toward zero. */
  function Add(t: Time, d: int64): Time {
    var size: int := if d >= 0 then d else 0 - d;
    var dsec: int := if d >= 0 then size / NANOS else -(size / NANOS);
    var nsec: int := t.nsec + (if d >= 0 then size % NANOS else -(size % NANOS));
    if nsec >= NANOS then Time(AddSeconds(t.ext, dsec + 1), nsec - NANOS)
    else if nsec < 0 then Time(AddSeconds(t.ext, dsec - 1), nsec + NANOS)
    else Time(AddSeconds(t.ext, dsec), nsec)
  }

  /** The test an ID token's auth_time must not fail, with the one minute of tolerated clock skew. */
  predicate OlderThanMaxAge(authTime: int64, now: Time, maxAge: int64) {
    var auth := UnixTime(authTime);
    || After(auth, Add(now, MINUTE))
    || After(now, Add(auth, Wrap(Wrap(maxAge * NANOS) + MINUTE)))
  }

  /** The instant in nanoseconds since 1970, unbounded. */
  function Instant(t: Time): int {
    (t.ext - UNIX_TO_INTERNAL) * NANOS + t.nsec
  }

  /** Section 3.1.3.7 of OpenID Connect Core 1.0 in unbounded arithmetic. */
  predicate MeetsMaxAge(authTime: int, now: Time, maxAge: int) {
    && authTime * NANOS <= Instant(now) + MINUTE
    && Instant(now) <= (authTime + maxAge) * NANOS + MINUTE
  }

  /** The last instant at which a wrapped auth_time can still look recent. */
  const WRAPPED_HORIZON: int := UNIX_TO_INTERNAL - TWO63 - 1 + YEAR_SECONDS + 60

  /** Clocks far enough from both ends of the int64 range; every year from 1 to 292 billion is. */
  predicate ClockInRange(now: Time) {
    && (now.ext > WRAPPED_HORIZON || (now.ext == WRAPPED_HORIZON && now.nsec > 0))
    && now.ext <= TWO63 - 61
  }

  lemma AddWholeSeconds(t: Time, seconds: int)
    requires 0 <= seconds <= YEAR_SECONDS + 60
    ensures Add(t, seconds * NANOS) ==
            Time(if t.ext + seconds < TWO63 then t.ext + seconds else TWO63 - 1, t.nsec)
  {
    assert seconds * NANOS / NANOS == seconds && seconds * NANOS % NANOS == 0;
  }

  lemma MaxAgeDuration(maxAge: int64)
    requires 0 <= maxAge <= YEAR_SECONDS
    ensures Wrap(Wrap(maxAge * NANOS) + MINUTE) == (maxAge + 60) * NANOS
  {
  }

  lemma UnixTimeWraps(seconds: int64)
    requires seconds > 0
    ensures UnixTime(seconds).ext ==
            if seconds + UNIX_TO_INTERNAL < TWO63 then seconds + UNIX_TO_INTERNAL
            else seconds + UNIX_TO_INTERNAL - TWO64
  {
  }

  /** The outcome of the Go code, spelled in plain seconds. */
  lemma OlderThanMaxAgeInSeconds(authTime: int64, now: Time, maxAge: int64)
    requires authTime > 0 && 0 <= maxAge <= YEAR_SECONDS
    ensures var a := UnixTime(authTime).ext;
            OlderThanMaxAge(authTime, now, maxAge) <==>
            || a > (if now.ext + 60 < TWO63 then now.ext + 60 else TWO63 - 1)
            || (var limit := if a + maxAge + 60 < TWO63 then a + maxAge + 60 else TWO63 - 1;
                now.ext > limit || (now.ext == limit && now.nsec > 0))
  {
    hide Add, Wrap;
    AddWholeSeconds(now, 60);
    MaxAgeDuration(maxAge);
    AddWholeSeconds(UnixTime(authTime), maxAge + 60);
  }

  lemma MeetsMaxAgeInSeconds(authTime: int64, now: Time, maxAge: int64)
    ensures var a := authTime + UNIX_TO_INTERNAL;
            MeetsMaxAge(authTime, now, maxAge) <==>
            && a <= now.ext + 60
            && (now.ext < a + maxAge + 60 || (now.ext == a + maxAge + 60 && now.nsec == 0))
  {
    var a := authTime + UNIX_TO_INTERNAL;
    assert authTime * NANOS <= Instant(now) + MINUTE <==> (a - now.ext - 60) * NANOS <= now.nsec;
    assert Instant(now) <= (authTime + maxAge) * NANOS + MINUTE <==> now.nsec <= (a + maxAge + 60 - now.ext) * NANOS;
  }

  predicate Agrees(authTime: int64, now: Time, maxAge: int64) {
    !OlderThanMaxAge(authTime, now, maxAge) <==> MeetsMaxAge(authTime, now, maxAge)
  }

  /** With such a clock the wrapping, saturating test is the unbounded one for every auth_time a token can carry. */
  lemma MaxAgeAgrees(authTime: int64, now: Time, maxAge: int64)
    requires ClockInRange(now) && authTime > 0 && 0 <= maxAge <= YEAR_SECONDS
    ensures Agrees(authTime, now, maxAge)
  {
    hide OlderThanMaxAge, MeetsMaxAge, UnixTime;
    OlderThanMaxAgeInSeconds(authTime, now, maxAge);
    MeetsMaxAgeInSeconds(authTime, now, maxAge);
    UnixTimeWraps(authTime);
  }

  /** With any other clock some auth_time and max_age are judged wrongly. */
  lemma MaxAgeDisagrees(now: Time) returns (authTime: int64, maxAge: int64)
    requires !ClockInRange(now)
    ensures authTime > 0 && 0 <= maxAge <= YEAR_SECONDS && !Agrees(authTime, now, maxAge)
  {
    hide OlderThanMaxAge, MeetsMaxAge, UnixTime;
    if now.ext > TWO63 - 61 {
      authTime, maxAge := TWO63 - UNIX_TO_INTERNAL, 0;
    } else if now.ext <= UNIX_TO_INTERNAL - TWO63 - 1 {
      authTime, maxAge := now.ext - UNIX_TO_INTERNAL + TWO64, 0;
    } else {
      authTime, maxAge := TWO63 - 1, YEAR_SECONDS;
    }
    OlderThanMaxAgeInSeconds(authTime, now, maxAge);
    MeetsMaxAgeInSeconds(authTime, now, maxAge);
    UnixTimeWraps(authTime);
  }

  lemma MaxAgeExact(now: Time)
    ensures ClockInRange(now) <==>
            forall authTime: int64, maxAge: int64 | authTime > 0 && 0 <= maxAge <= YEAR_SECONDS ::
              Agrees(authTime, now, maxAge)
  {
    hide Agrees;
    if ClockInRange(now) {
      forall authTime: int64, maxAge: int64 | authTime > 0 && 0 <= maxAge <= YEAR_SECONDS
        ensures Agrees(authTime, now, maxAge)
      {
        MaxAgeAgrees(authTime, now, maxAge);
      }
    } else {
      var authTime, maxAge := MaxAgeDisagrees(now);
    }
  }

  // ---- Away from the ends of the range ----

  /** Durations up to an hour added to such a clock do not saturate. */
  predicate OrdinaryClock(t: Time) {
    UNIX_TO_INTERNAL - TWO63 <= t.ext < TWO63 - 3601
  }

  /** Addition is addition of nanoseconds. */
  lemma AddIsExact(t: Time, d: int64)
    requires OrdinaryClock(t) && 0 <= d <= 3600 * NANOS
    ensures Instant(Add(t, d)) == Instant(t) + d
  {
    assert d == d / NANOS * NANOS + d % NANOS;
  }

  /** Unix seconds are whole seconds since 1970. */
  lemma UnixSecondsIsFloor(t: Time)
    requires t.ext >= UNIX_TO_INTERNAL - TWO63
    ensures UnixSeconds(t) * NANOS <= Instant(t) < (UnixSeconds(t) + 1) * NANOS
  {
  }

  /** Some minutes later is that many seconds later. */
  lemma MinutesLater(t: Time, minutes: int)
    requires OrdinaryClock(t) && 0 <= minutes <= 60
    ensures UnixSeconds(Add(t, minutes * MINUTE)) == UnixSeconds(t) + 60 * minutes
  {
    assert minutes * MINUTE == 60 * minutes * NANOS;
    assert (60 * minutes * NANOS) / NANOS == 60 * minutes && (60 * minutes * NANOS) % NANOS == 0;
  }
}
