/**
 * ASN.1 times and their arithmetic in 32- and 64-bit integers. A time stands for its instant, in seconds since the
 * epoch; the newtypes make the verifier prove that no operation overflows.
 */
module Asn1Time {
  import opened Bytes

  newtype int32 = x: int | -0x8000_0000 <= x < 0x8000_0000
  newtype int64 = x: int | -0x8000_0000_0000_0000 <= x < 0x8000_0000_0000_0000

  const INT32_MAX: int32 := 0x7fff_ffff
  const INT32_MIN: int32 := -0x8000_0000
  const INT64_MIN: int64 := -0x8000_0000_0000_0000
  const INT64_MAX: int64 := 0x7fff_ffff_ffff_ffff

  /** 00000101000000Z, 19000101000000Z and 99991231235959Z. */
  const YEAR_0: int := -62167219200
  const YEAR_1900: int := -2208988800
  const YEAR_9999_END: int := 253402300799

  type Instant = t: int | YEAR_0 <= t <= YEAR_9999_END witness 0

  const DAY: int := 86400

  // ---- the calendar ----

  /** Whether a year of the Gregorian calendar has a 29 February. */
  predicate IsLeap(year: nat) {
    year % 4 == 0 && (year % 100 != 0 || year % 400 == 0)
  }

  /** Days from the start of the year 0 to the start of another year. */
  function DaysBefore(year: nat): nat {
    365 * year + (year + 3) / 4 - (year + 99) / 100 + (year + 399) / 400
  }

  lemma StepsOf4(n: nat)
    ensures (n + 1 + 3) / 4 == (n + 3) / 4 + if n % 4 == 0 then 1 else 0
  {
  }

  lemma StepsOf100(n: nat)
    ensures (n + 1 + 99) / 100 == (n + 99) / 100 + if n % 100 == 0 then 1 else 0
  {
  }

  lemma StepsOf400(n: nat)
    ensures (n + 1 + 399) / 400 == (n + 399) / 400 + if n % 400 == 0 then 1 else 0
  {
  }

  lemma MultiplesOf400(n: nat)
    ensures n % 400 == 0 ==> n % 100 == 0
    ensures n % 100 == 0 ==> n % 4 == 0
  {
    if n % 400 == 0 {
      var k := n / 400;
      assert n == 100 * (4 * k);
    }
    if n % 100 == 0 {
      var k := n / 100;
      assert n == 4 * (25 * k);
    }
  }

  /** Each year has 365 days, or 366 if it is a leap year. */
  lemma YearsHaveTheirDays(year: nat)
    ensures DaysBefore(0) == 0
    ensures DaysBefore(year + 1) == DaysBefore(year) + if IsLeap(year) then 366 else 365
  {
    StepsOf4(year);
    StepsOf100(year);
    StepsOf400(year);
    MultiplesOf400(year);
  }

  /** The limits are the first second of the years 0 and 1900, and the last of the year 9999, from 1970 on. */
  lemma LimitsAreYears()
    ensures YEAR_0 == 86400 * (DaysBefore(0) - DaysBefore(1970))
    ensures YEAR_1900 == 86400 * (DaysBefore(1900) - DaysBefore(1970))
    ensures YEAR_9999_END == 86400 * (DaysBefore(10000) - DaysBefore(1970)) - 1
  {
  }

  datatype Error = DurationTooLarge | DurationOverflows | LeavesRange | ConventionViolated | TooSmall | TooBig

  /** Division and remainder as C++ has them: towards zero. */
  function Quotient(a: int, b: int): int
    requires b > 0
  {
    if a >= 0 then a / b else -(-a / b)
  }

  function Remainder(a: int, b: int): int
    requires b > 0
  {
    if a >= 0 then a % b else -(-a % b)
  }

  // ---- OpenSSL ----

  /** ASN1_TIME_diff: whole days and the seconds left, both with the sign of the difference. */
  function OpensslDiff(from: Instant, to: Instant): (r: (int32, int32))
    ensures r.0 as int * DAY + r.1 as int == to - from
    ensures -DAY < r.1 as int < DAY && -4_000_000 < r.0 < 4_000_000
    ensures (from <= to ==> r.0 >= 0 && r.1 >= 0) && (to <= from ==> r.0 <= 0 && r.1 <= 0)
  {
    (Quotient(to - from, DAY) as int32, Remainder(to - from, DAY) as int32)
  }

  /** ASN1_TIME_adj on the epoch, which a non-zero offset must keep within the years 1900-9999. */
  function OpensslAdjEpoch(days: int32, seconds: int32): Option<Instant> {
    var t := days as int * DAY + seconds as int;
    if days == 0 && seconds == 0 then Some(0)
    else if YEAR_1900 <= t <= YEAR_9999_END then Some(t)
    else None
  }

  /** `_ASN1_TIME_diff`, whose check of OpenSSL's sign convention never fires. */
  function Diff(from: Instant, to: Instant): (r: Result<(int32, int32), Error>)
    ensures r == Ok(OpensslDiff(from, to))
  {
    var (days, seconds) := OpensslDiff(from, to);
    if (days < 0 && seconds > 0) || (days > 0 && seconds < 0) then Err(ConventionViolated)
    else Ok((days, seconds))
  }

  // ---- addition ----

  /** What the documentation promises of `t + d`: the exact instant, or an exception outside the years 1900-9999. */
  function Sum(t: Instant, d: int): Option<Instant> {
    if YEAR_1900 <= t + d <= YEAR_9999_END then Some(t + d) else None
  }

  /** `operator+`, step by step in the original's integer types. */
  method Add(t: Instant, d: int64) returns (r: Result<Instant, Error>)
    ensures match Sum(t, d as int) case Some(s) => r == Ok(s) case None => r.Err?
    ensures r == Err(DurationTooLarge) <==> d as int > 0x7fff_ffff * 86400 || (d as int) < -0x8000_0000 * 86400
  {
    var (days, seconds) := OpensslDiff(0, t);
    if INT32_MAX as int64 * 86400 < d || INT32_MIN as int64 * 86400 > d {
      return Err(DurationTooLarge);
    }
    var durationDays := Quotient(d as int, DAY) as int32;
    var durationSeconds := d - durationDays as int64 * 86400;
    seconds := seconds + durationSeconds as int32;
    if (days > 0 && durationDays > INT32_MAX - days) || (days < 0 && durationDays < INT32_MIN - days) {
      return Err(DurationOverflows);
    }
    days := days + durationDays;
    var sum := OpensslAdjEpoch(days, seconds);
    r := if sum.Some? then Ok(sum.value) else Err(LeavesRange);
  }

  /** `operator-(Seconds)`. The negated duration of INT64_MIN seconds does not exist. */
  method Subtract(t: Instant, d: int64) returns (r: Result<Instant, Error>)
    requires d != INT64_MIN
    ensures match Sum(t, -(d as int)) case Some(s) => r == Ok(s) case None => r.Err?
  {
    r := Add(t, -1 * d);
  }

  // ---- differences and comparisons ----

  /** `operator-(Asn1Time)`: hours from a 32-bit product, then seconds in 64 bits. */
  function Minus(t: Instant, other: Instant): (r: int64)
    ensures r as int == t - other
  {
    var (days, seconds) := OpensslDiff(other, t);
    var hours: int32 := 24 * days;
    hours as int64 * 3600 + seconds as int64
  }

  predicate Eq(a: Instant, b: Instant) { Minus(a, b) == 0 }
  predicate Ne(a: Instant, b: Instant) { !Eq(a, b) }
  predicate Lt(a: Instant, b: Instant) { Minus(a, b) < 0 }
  predicate Le(a: Instant, b: Instant) { Minus(a, b) <= 0 }
  predicate Gt(a: Instant, b: Instant) { !Le(a, b) }
  predicate Ge(a: Instant, b: Instant) { !Lt(a, b) }

  /** The six operators are the six comparisons of one total order, the order of instants. */
  lemma OperatorsAgree(a: Instant, b: Instant)
    ensures Eq(a, b) <==> a == b
    ensures Ne(a, b) <==> a != b
    ensures Lt(a, b) <==> a < b
    ensures Le(a, b) <==> a <= b
    ensures Gt(a, b) <==> a > b
    ensures Ge(a, b) <==> a >= b
  {
  }

  /** Differences compose, and undo and are undone by addition wherever the sum is defined. */
  lemma DifferencesCompose(a: Instant, b: Instant, c: Instant, d: int)
    ensures Minus(a, b) as int + Minus(b, c) as int == Minus(a, c) as int
    ensures Sum(b, Minus(a, b) as int) == (if a >= YEAR_1900 then Some(a) else None)
    ensures Sum(a, d).Some? ==> Minus(Sum(a, d).value, a) as int == d
  {
  }

  // ---- conversions ----

  datatype Comparison = Lesser | Greater | Equal

  /** `compare`: the true order of a time against any 64-bit time_t, including those no ASN.1 time has. */
  function Compare(t: Instant, timeT: int64): (r: Comparison)
    ensures r == if t < timeT as int then Lesser else if t > timeT as int then Greater else Equal
  {
    if timeT > 253402300799 then Lesser
    else if timeT < -62167219200 then Greater
    else
      var (days, seconds) := OpensslDiff(t, timeT as int);
      if days < 0 || seconds < 0 then Greater
      else if days > 0 || seconds > 0 then Lesser
      else Equal
  }

  /** `checkAsn1TimeFitsIntoLimits` */
  function CheckLimits(t: Instant, min: int64, max: int64): (r: Result<(), Error>)
    ensures r.Ok? <==> min as int <= t <= max as int
    ensures r == Err(TooSmall) <==> t < min as int
    ensures r == Err(TooBig) <==> min as int <= t && max as int < t
  {
    if Compare(t, min) == Lesser then Err(TooSmall)
    else if Compare(t, max) == Greater then Err(TooBig)
    else Ok(())
  }

  /** `secondsDiffToEpoch` */
  function SecondsSinceEpoch(t: Instant): (r: int64)
    ensures r as int == t
  {
    var (days, seconds) := OpensslDiff(0, t);
    24 * 60 * 60 * (days as int64) + seconds as int64
  }

  /** `_asn1TimeToTimeT`: every ASN.1 time has a time_t. */
  function ToTimeT(t: Instant): (r: Result<int64, Error>)
    ensures r.Ok? && r.value as int == t
  {
    match CheckLimits(t, INT64_MIN, INT64_MAX)
    case Err(e) => Err(e)
    case Ok(_) => Ok(SecondsSinceEpoch(t))
  }

  /** `fromTimeT`; None where the time_t is no ASN.1 time. */
  function FromTimeT(timeT: int64): Option<Instant> {
    if YEAR_0 <= timeT as int <= YEAR_9999_END then Some(timeT as int) else None
  }

  const NANO: int := 1_000_000_000

  /** `system_clock::to_time_t`: whole seconds of a time point in nanoseconds. */
  function TimePointToTimeT(nanoseconds: int64): int64 {
    Quotient(nanoseconds as int, NANO) as int64
  }

  /** `_asn1TimeToTimePoint`: exact within the nanosecond clock's whole seconds, and an exception outside. */
  function ToTimePoint(t: Instant): (r: Result<int64, Error>)
    ensures r.Ok? <==> -9223372036 <= t <= 9223372036
    ensures r.Ok? ==> r.value as int == t * NANO
  {
    match CheckLimits(t, TimePointToTimeT(INT64_MIN), TimePointToTimeT(INT64_MAX))
    case Err(e) => Err(e)
    case Ok(_) => Ok(1_000_000_000 * SecondsSinceEpoch(t))
  }

  /** Converting to a time_t or a time point, where that is possible, and back is the identity. */
  lemma ConversionsRoundTrip(t: Instant, timeT: int64)
    ensures FromTimeT(ToTimeT(t).value) == Some(t)
    ensures FromTimeT(timeT).Some? ==> ToTimeT(FromTimeT(timeT).value) == Ok(timeT)
    ensures ToTimePoint(t).Ok? ==> FromTimeT(TimePointToTimeT(ToTimePoint(t).value)) == Some(t)
  {
    assert Quotient(t * NANO, NANO) == t;
  }
}
