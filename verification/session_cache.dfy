/** The process-wide cache of session cookie jars (`ODBaseCache`): a keyed map
    from a caller-chosen key to the jar and the instant it was stored, with an
    age-bounded lookup. The clock is a parameter; the jar type is opaque. */
module SessionCache {
  import opened Wrappers
  import opened Text
  import Numbers
  import opened Faults

  /** Ticks (100 ns) per second, as in `TimeSpan`. */
  const TicksPerSecond: int := 10_000_000

  /** The last tick of 9999-12-31, `DateTime.MaxValue.Ticks`. */
  const MaxTicks: int := 3_155_378_975_999_999_999

  /** The largest number of whole seconds a `TimeSpan` can hold. */
  const MaxSpanSeconds: int := 922_337_203_685

  /** A `DateTime`: ticks since 0001-01-01. */
  type Instant = t: int | 0 <= t <= MaxTicks

  datatype Entry<J> = Entry(stamp: Instant, jar: J)

  /** A never-created cache (`null`) behaves as the empty map. */
  type Cache<J> = map<Str, Entry<J>>

  /** `GetByKey(key)`: the stored jar, or `null`. */
  function Get<J>(c: Cache<J>, key: Str): (r: Option<J>)
    ensures r.Some? <==> key in c
  {
    if key in c then Some(c[key].jar) else None
  }

  /** `SetByKey(key, jar)`, stamped with the current instant. */
  function Set<J>(c: Cache<J>, key: Str, jar: J, now: Instant): (r: Cache<J>)
    ensures Get(r, key) == Some(jar) && r[key].stamp == now
    ensures forall k | k != key :: Get(r, k) == Get(c, k)
    ensures forall k | k != key && k in c :: k in r && r[k] == c[k]
  {
    c[key := Entry(now, jar)]
  }

  /** `DropByKey(key)`: removes the entry if there is one. */
  function Drop<J>(c: Cache<J>, key: Str): (r: Cache<J>)
    ensures Get(r, key) == None
    ensures forall k | k != key :: Get(r, k) == Get(c, k)
    ensures forall k | k != key && k in c :: k in r && r[k] == c[k]
  {
    c - {key}
  }

  /** The number in front of a one-letter unit suffix, or 0 when the suffix is
      a different letter or the number does not parse. */
  function Amount(shift: Str, unit: u16): (n: int)
    ensures Numbers.Int32Min <= n <= Numbers.Int32Max
    ensures (|shift| == 0 || shift[|shift| - 1] != unit) ==> n == 0
  {
    if EndsWith(shift, [unit]) then Numbers.ParseOrZero(shift[..|shift| - 1]) else 0
  }

  /** The length of a `"<n>m"`, `"<n>h"` or `"<n>d"` time shift, in seconds:
      `new TimeSpan(days, hours, minutes, 0)`. */
  function SpanSeconds(shift: Str): int {
    var minutes := Amount(shift, Unit('m'));
    var hours := Amount(shift, Unit('h'));
    var days := Amount(shift, Unit('d'));
    days * 86400 + hours * 3600 + minutes * 60
  }

  /** `GetByKey(key, timeshift)` at instant `now`: the jar if it was stored
      strictly after `now - span`. The span is parsed only when the key is
      present; a span beyond `TimeSpan`'s range or a cut-off before
      0001-01-01 raises `ArgumentOutOfRangeException`. */
  function GetFresh<J>(c: Cache<J>, key: Str, shift: Str, now: Instant): (r: Result<Option<J>, Error>)
    ensures key !in c ==> r == Ok(None)
    ensures r.Ok? && r.value.Some? ==> key in c && r.value.value == c[key].jar
    ensures key in c && -MaxSpanSeconds <= SpanSeconds(shift) <= MaxSpanSeconds
            && 0 <= now - SpanSeconds(shift) * TicksPerSecond <= MaxTicks
            ==> r.Ok? && (r.value.Some? <==> c[key].stamp > now - SpanSeconds(shift) * TicksPerSecond)
    ensures r.Err? <==> key in c && (SpanSeconds(shift) < -MaxSpanSeconds || SpanSeconds(shift) > MaxSpanSeconds
                                    || now - SpanSeconds(shift) * TicksPerSecond < 0
                                    || now - SpanSeconds(shift) * TicksPerSecond > MaxTicks)
  {
    if key !in c then Ok(None)
    else
      var secs := SpanSeconds(shift);
      if secs > MaxSpanSeconds || secs < -MaxSpanSeconds then Err(OutOfRange)
      else
        var cutoff := now - secs * TicksPerSecond;
        if cutoff < 0 || cutoff > MaxTicks then Err(OutOfRange)
        else if c[key].stamp > cutoff then Ok(Some(c[key].jar))
        else Ok(None)
  }

  /** A shift that does not end in `m`, `h` or `d` is a zero span. */
  lemma UnknownSuffixIsZero(shift: Str)
    requires |shift| == 0 || shift[|shift| - 1] !in {Unit('m'), Unit('h'), Unit('d')}
    ensures SpanSeconds(shift) == 0
  {
  }

  /** A number that does not parse is a zero span, whatever the suffix. */
  lemma UnparsableIsZero(shift: Str)
    requires |shift| > 0 && Numbers.ParseInt32(shift[..|shift| - 1]).None?
    ensures SpanSeconds(shift) == 0
  {
  }

  /** `"<n>m"` is `n` minutes. */
  lemma MinutesSpan(n: int)
    requires 0 <= n <= Numbers.Int32Max
    ensures SpanSeconds(Numbers.IntToDecimal(n) + [Unit('m')]) == 60 * n
  {
    var shift := Numbers.IntToDecimal(n) + [Unit('m')];
    assert shift[..|shift| - 1] == Numbers.IntToDecimal(n);
    Numbers.DecimalRoundTrip(n);
  }

  /** A jar just stored is found by any lookup with a positive span whose
      cut-off stays in range. */
  lemma FreshAfterSet<J>(c: Cache<J>, key: Str, jar: J, now: Instant, shift: Str)
    requires 0 < SpanSeconds(shift) <= MaxSpanSeconds
    requires now - SpanSeconds(shift) * TicksPerSecond >= 0
    ensures GetFresh(Set(c, key, jar, now), key, shift, now) == Ok(Some(jar))
  {
  }

  /** A longer span never loses a hit that a shorter span finds. */
  lemma LongerSpanKeepsHits<J>(c: Cache<J>, key: Str, short: Str, long: Str, now: Instant)
    requires SpanSeconds(short) <= SpanSeconds(long)
    requires -MaxSpanSeconds <= SpanSeconds(short) && SpanSeconds(long) <= MaxSpanSeconds
    requires 0 <= now - SpanSeconds(long) * TicksPerSecond && now - SpanSeconds(short) * TicksPerSecond <= MaxTicks
    requires key in c && GetFresh(c, key, short, now) == Ok(Some(c[key].jar))
    ensures GetFresh(c, key, long, now) == GetFresh(c, key, short, now)
  {
  }
}
