/**
  The proactor's timeout value: a Java `long` count of nanoseconds, built
  from a number of micro-, milli-, ... days through the JDK's saturating
  `TimeUnit.toNanos`, and read back in coarser units with truncating
  division or as a (seconds, nanoseconds) pair for a native time spec.

  The older exchange entries call `asSecondsAndNanos` on a `Timeout` of a
  different package; this model assumes that method is the same concept as
  `secondsAndNanos` here and uses `SecondsAndNanos` for both.
 */
module Timeouts {
  import opened JavaArith

  const NanosInSecond: int := 1_000_000_000

  /** `TimeUnit` scales, in nanoseconds per unit. */
  const NanosPerMicro: int := 1_000
  const NanosPerMilli: int := 1_000_000
  const NanosPerSecond: int := 1_000_000_000
  const NanosPerMinute: int := 60_000_000_000
  const NanosPerHour: int := 3_600_000_000_000
  const NanosPerDay: int := 86_400_000_000_000

  /** A timeout, held as a signed nanosecond count. */
  datatype Timeout = Timeout(timeout: Int64)

  /** The fluent builder returned by `Timeout.timeout(value)`: the value is
      held until a unit is chosen. */
  datatype TimeoutBuilder = TimeoutBuilder(value: Int64)

  /** The seconds and nanoseconds of a native time spec. */
  datatype SecondsNanos = SecondsNanos(seconds: Int64, nanos: Int32)

  function Of(value: Int64): (b: TimeoutBuilder)
    ensures b.value == value
  {
    TimeoutBuilder(value)
  }

  /** The `TimeUnit` conversion contract: `r` is `d * scale` when that
      fits in a `long`, and `Long.MAX_VALUE` or `Long.MIN_VALUE` when it
      overflows upward or downward. */
  predicate ScaledSaturating(d: int, scale: int, r: int) {
    && (LongMin <= d * scale <= LongMax ==> r == d * scale)
    && (d * scale > LongMax ==> r == LongMax)
    && (d * scale < LongMin ==> r == LongMin)
  }

  /** `TimeUnit.toNanos(d)` for a unit of `scale` nanoseconds, which compares
      `d` against `Long.MAX_VALUE / scale` instead of multiplying first. */
  function ToNanos(d: Int64, scale: int): (r: Int64)
    requires 1 <= scale <= LongMax
    ensures ScaledSaturating(d, scale, r)
  {
    var m := LongMax / scale;
    SaturationBounds(d, scale);
    if scale == 1 then d
    else if d > m then LongMax
    else if d < -m then LongMin
    else d * scale
  }

  /** The thresholds `TimeUnit` compares against are exactly where the
      product leaves the range of `long`. */
  lemma SaturationBounds(d: int, scale: int)
    requires 1 <= scale <= LongMax
    ensures d > LongMax / scale ==> d * scale > LongMax
    ensures d < -(LongMax / scale) ==> d * scale <= LongMin
    ensures -(LongMax / scale) <= d <= LongMax / scale ==> LongMin < d * scale <= LongMax
  {
    var m := LongMax / scale;
    assert LongMax == m * scale + LongMax % scale;
    if d > m {
      MulMono(m + 1, d, scale);
      assert (m + 1) * scale == m * scale + scale;
    }
    if d < -m {
      MulMono(d, -m - 1, scale);
      assert (-m - 1) * scale == -(m * scale) - scale;
    }
    if -m <= d <= m {
      MulMono(d, m, scale);
      MulMono(-m, d, scale);
      assert (-m) * scale == -(m * scale);
    }
  }

  lemma MulMono(a: int, b: int, s: int)
    requires a <= b && s >= 0
    ensures a * s <= b * s
  {
    assert b * s - a * s == (b - a) * s;
  }

  function Nanos(b: TimeoutBuilder): (t: Timeout)
    ensures t.timeout == b.value
  {
    Timeout(b.value)
  }

  function Micros(b: TimeoutBuilder): (t: Timeout)
    ensures ScaledSaturating(b.value, NanosPerMicro, t.timeout)
  {
    Timeout(ToNanos(b.value, NanosPerMicro))
  }

  function Millis(b: TimeoutBuilder): (t: Timeout)
    ensures ScaledSaturating(b.value, NanosPerMilli, t.timeout)
  {
    Timeout(ToNanos(b.value, NanosPerMilli))
  }

  function Seconds(b: TimeoutBuilder): (t: Timeout)
    ensures ScaledSaturating(b.value, NanosPerSecond, t.timeout)
  {
    Timeout(ToNanos(b.value, NanosPerSecond))
  }

  function Minutes(b: TimeoutBuilder): (t: Timeout)
    ensures ScaledSaturating(b.value, NanosPerMinute, t.timeout)
  {
    Timeout(ToNanos(b.value, NanosPerMinute))
  }

  function Hours(b: TimeoutBuilder): (t: Timeout)
    ensures ScaledSaturating(b.value, NanosPerHour, t.timeout)
  {
    Timeout(ToNanos(b.value, NanosPerHour))
  }

  function Days(b: TimeoutBuilder): (t: Timeout)
    ensures ScaledSaturating(b.value, NanosPerDay, t.timeout)
  {
    Timeout(ToNanos(b.value, NanosPerDay))
  }

  function Nanoseconds(t: Timeout): (r: Int64)
    ensures r == t.timeout
  {
    t.timeout
  }

  /** `TimeUnit.NANOSECONDS.toMicros`: truncates toward zero. */
  function Microseconds(t: Timeout): (r: Int64)
    ensures Abs(r) * NanosPerMicro <= Abs(t.timeout) < (Abs(r) + 1) * NanosPerMicro
    ensures r == 0 || (r < 0 <==> t.timeout < 0)
  {
    Div(t.timeout, NanosPerMicro)
  }

  /** `TimeUnit.NANOSECONDS.toMillis`: truncates toward zero. */
  function Milliseconds(t: Timeout): (r: Int64)
    ensures Abs(r) * NanosPerMilli <= Abs(t.timeout) < (Abs(r) + 1) * NanosPerMilli
    ensures r == 0 || (r < 0 <==> t.timeout < 0)
  {
    Div(t.timeout, NanosPerMilli)
  }

  /** The time-spec split: whole seconds and the remaining nanoseconds,
      both truncated toward zero as Java's `/` and `%` do; the `(int)` cast
      of the remainder never changes it. */
  function SecondsAndNanos(t: Timeout): (r: SecondsNanos)
    ensures r.seconds * NanosInSecond + r.nanos == t.timeout
    ensures t.timeout >= 0 ==> r.seconds >= 0 && 0 <= r.nanos < NanosInSecond
    ensures t.timeout < 0 ==> r.seconds <= 0 && -NanosInSecond < r.nanos <= 0
    ensures r.nanos == Rem(t.timeout, NanosInSecond)
  {
    var s := Div(t.timeout, NanosInSecond);
    var n := Rem(t.timeout, NanosInSecond);
    SecondsNanos(s, NarrowToInt(n))
  }

  /** `timeout(v).nanos()` keeps `v`, and `nanoseconds()` hands it back. */
  lemma NanosRoundTrip(v: Int64)
    ensures Nanoseconds(Nanos(Of(v))) == v
  {
  }

  /** Building from milliseconds and reading milliseconds back is the
      identity whenever the builder did not saturate. */
  lemma MillisRoundTrip(v: Int64)
    requires -(LongMax / NanosPerMilli) <= v <= LongMax / NanosPerMilli
    ensures Milliseconds(Millis(Of(v))) == v
  {
    SaturationBounds(v, NanosPerMilli);
    var t := Millis(Of(v)).timeout;
    assert t == v * NanosPerMilli;
    DivExact(v, NanosPerMilli);
  }

  /** Building from microseconds and reading microseconds back is the
      identity whenever the builder did not saturate. */
  lemma MicrosRoundTrip(v: Int64)
    requires -(LongMax / NanosPerMicro) <= v <= LongMax / NanosPerMicro
    ensures Microseconds(Micros(Of(v))) == v
  {
    SaturationBounds(v, NanosPerMicro);
    var t := Micros(Of(v)).timeout;
    assert t == v * NanosPerMicro;
    DivExact(v, NanosPerMicro);
  }

  /** A timeout built from whole seconds splits into those seconds and no
      nanoseconds. */
  lemma SecondsSplitRoundTrip(v: Int64)
    requires -(LongMax / NanosPerSecond) <= v <= LongMax / NanosPerSecond
    ensures SecondsAndNanos(Seconds(Of(v))) == SecondsNanos(v, 0)
  {
    SaturationBounds(v, NanosPerSecond);
    DivExact(v, NanosPerSecond);
  }

  /** Java's truncating division undoes an exact multiplication. */
  lemma DivExact(v: int, s: int)
    requires s > 0
    ensures Div(v * s, s) == v
    ensures Rem(v * s, s) == 0
  {
    var q := Div(v * s, s);
    var r := Rem(v * s, s);
    assert q * s + r == v * s;
    assert (q - v) * s == -r;
    if q != v {
      if q > v {
        MulMono(1, q - v, s);
      } else {
        MulMono(1, v - q, s);
      }
    }
  }

  /** A builder that overflows pins the timeout to the extreme of `long`
      with the value's sign. */
  lemma SaturationKeepsSign(v: Int64)
    requires v > LongMax / NanosPerDay || v < -(LongMax / NanosPerDay)
    ensures Days(Of(v)).timeout == (if v > 0 then LongMax else LongMin)
  {
    SaturationBounds(v, NanosPerDay);
  }
}
