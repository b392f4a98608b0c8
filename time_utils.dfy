/**
 * Quarter-hour alignment of UTC instants (app/utils/time.py).
 *
 * A datetime is modelled by its count of microseconds since the Unix epoch in
 * UTC, the resolution of Python's `datetime`. POSIX time counts no leap
 * seconds, so every minute, hour and day has a fixed length and the calendar
 * fields used by the alignment rule (the minute of the hour, the start of the
 * hour) are plain Euclidean division and remainder.
 */
module TimeUtils {

  import opened Wrappers

  const US_PER_MS: int := 1_000
  const US_PER_MINUTE: int := 60_000_000
  const US_PER_QUARTER: int := 900_000_000
  const US_PER_HOUR: int := 3_600_000_000
  const US_PER_DAY: int := 86_400_000_000
  const MS_PER_QUARTER: int := 900_000

  /** The minute marks an aligned instant may carry, in increasing order. */
  const QUARTER_MINUTES: seq<int> := [0, 15, 30, 45]

  /** `dt.minute`: the minute within the hour. */
  function Minute(dt: int): (m: int)
    ensures 0 <= m < 60
    ensures HourStart(dt) + m * US_PER_MINUTE <= dt < HourStart(dt) + (m + 1) * US_PER_MINUTE
  {
    (dt % US_PER_HOUR) / US_PER_MINUTE
  }

  /** `dt.replace(minute=0, second=0, microsecond=0)`: the start of dt's hour. */
  function HourStart(dt: int): (r: int)
    ensures r % US_PER_HOUR == 0
    ensures r <= dt < r + US_PER_HOUR
  {
    dt - dt % US_PER_HOUR
  }

  /** `dt.replace(second=0, microsecond=0)`: dt with the seconds dropped. */
  function TruncateToMinute(dt: int): (r: int)
    ensures r % US_PER_MINUTE == 0
    ensures r <= dt < r + US_PER_MINUTE
  {
    dt - dt % US_PER_MINUTE
  }

  /**
   * `dt.replace(minute=q, second=0, microsecond=0)`: the same hour as dt, at
   * minute q, with the seconds cleared. `replace` accepts minutes 0 to 59 only.
   */
  function ReplaceMinute(dt: int, q: int): (r: int)
    requires 0 <= q < 60
    ensures HourStart(r) == HourStart(dt)
    ensures Minute(r) == q
    ensures r % US_PER_MINUTE == 0
  {
    var h := HourStart(dt);
    HourDivMod(h + q * US_PER_MINUTE, dt / US_PER_HOUR, q * US_PER_MINUTE);
    MinuteDivMod(q * US_PER_MINUTE, q, 0);
    MinuteDivMod(h + q * US_PER_MINUTE, 60 * (dt / US_PER_HOUR) + q, 0);
    h + q * US_PER_MINUTE
  }

  /**
   * Index of the first element of qs that is greater than minute, or |qs| when
   * there is none: the search done by `next(m for m in qs if m > minute)`.
   */
  function FirstAbove(qs: seq<int>, minute: int): (i: nat)
    ensures i <= |qs|
    ensures forall j :: 0 <= j < i ==> qs[j] <= minute
    ensures i < |qs| ==> qs[i] > minute
  {
    if qs == [] then 0
    else if qs[0] > minute then 0
    else 1 + FirstAbove(qs[1..], minute)
  }

  /** The smallest quarter mark strictly after minute, if the hour has one. */
  function NextQuarter(minute: int): (r: Option<int>)
    ensures r.Some? ==> r.value in QUARTER_MINUTES && r.value > minute
    ensures r.Some? ==> forall q :: q in QUARTER_MINUTES && q > minute ==> r.value <= q
    ensures r.None? <==> forall q :: q in QUARTER_MINUTES ==> q <= minute
  {
    var i := FirstAbove(QUARTER_MINUTES, minute);
    if i < |QUARTER_MINUTES| then Some(QUARTER_MINUTES[i]) else None
  }

  /**
   * The candidate computed before the final guard of align_to_next_quarter:
   * a quarter mark of dt's hour, or minute 0 of the next hour.
   */
  function QuarterCandidate(dt: int): (r: int)
    ensures r % US_PER_MINUTE == 0
    ensures Minute(r) in QUARTER_MINUTES
    ensures HourStart(dt) < r <= HourStart(dt) + US_PER_HOUR
  {
    match NextQuarter(Minute(dt))
    case None =>
      var r := HourStart(dt) + US_PER_HOUR;
      HourDivMod(r, dt / US_PER_HOUR + 1, 0);
      MinuteDivMod(r, 60 * (dt / US_PER_HOUR + 1), 0);
      assert QUARTER_MINUTES[0] == 0;
      r
    case Some(q) => ReplaceMinute(dt, q)
  }

  /**
   * align_to_next_quarter: move dt forward to the next minute mark in
   * QUARTER_MINUTES of its hour, or to the start of the next hour, with the
   * seconds cleared; add a further quarter hour when the candidate is not
   * after dt truncated to the minute.
   */
  function AlignToNextQuarter(dt: int): (r: int)
    ensures r == (dt / US_PER_QUARTER + 1) * US_PER_QUARTER
    ensures r % US_PER_QUARTER == 0
    ensures dt < r <= dt + US_PER_QUARTER
  {
    var next := QuarterCandidate(dt);
    CandidateClosedForm(dt);
    NextMultipleBounds(dt);
    if next <= TruncateToMinute(dt) then next + US_PER_QUARTER else next
  }

  /** The next multiple of a quarter hour lies within one quarter hour after dt. */
  lemma NextMultipleBounds(dt: int)
    ensures (dt / US_PER_QUARTER + 1) * US_PER_QUARTER % US_PER_QUARTER == 0
    ensures dt < (dt / US_PER_QUARTER + 1) * US_PER_QUARTER <= dt + US_PER_QUARTER
  {
    var k := dt / US_PER_QUARTER;
    assert (k + 1) * US_PER_QUARTER == k * US_PER_QUARTER + US_PER_QUARTER;
    QuarterIndex((k + 1) * US_PER_QUARTER, k + 1);
  }

  /** x / US_PER_QUARTER == k as soon as x lies in the k-th quarter. */
  lemma QuarterIndex(x: int, k: int)
    requires k * US_PER_QUARTER <= x < k * US_PER_QUARTER + US_PER_QUARTER
    ensures x / US_PER_QUARTER == k
  {
  }

  /** Euclidean division by a minute is determined by quotient and remainder. */
  lemma MinuteDivMod(x: int, k: int, r: int)
    requires x == k * US_PER_MINUTE + r && 0 <= r < US_PER_MINUTE
    ensures x / US_PER_MINUTE == k && x % US_PER_MINUTE == r
  {
  }

  /** The hour/minute decomposition of an instant. */
  lemma Decompose(dt: int)
    ensures HourStart(dt) == (dt / US_PER_HOUR) * US_PER_HOUR
    ensures dt == HourStart(dt) + Minute(dt) * US_PER_MINUTE + dt % US_PER_MINUTE
    ensures TruncateToMinute(dt) == HourStart(dt) + Minute(dt) * US_PER_MINUTE
  {
    var a := dt / US_PER_HOUR;
    var rem := dt % US_PER_HOUR;
    var m := rem / US_PER_MINUTE;
    var s := rem % US_PER_MINUTE;
    assert rem == m * US_PER_MINUTE + s;
    MinuteDivMod(dt, 60 * a + m, s);
  }

  /** The quarter mark chosen for each minute of the hour. */
  lemma NextQuarterByRange(minute: int)
    requires 0 <= minute < 60
    ensures minute < 15 ==> NextQuarter(minute) == Some(15)
    ensures 15 <= minute < 30 ==> NextQuarter(minute) == Some(30)
    ensures 30 <= minute < 45 ==> NextQuarter(minute) == Some(45)
    ensures 45 <= minute ==> NextQuarter(minute) == None
  {
    var qs := QUARTER_MINUTES;
    assert qs[0] == 0 && qs[1] == 15 && qs[2] == 30 && qs[3] == 45;
  }

  /**
   * The candidate is already strictly after dt truncated to the minute, so
   * the extra quarter hour of the final guard is never added.
   */
  lemma {:induction false} GuardIsDead(dt: int)
    ensures QuarterCandidate(dt) > TruncateToMinute(dt)
    ensures AlignToNextQuarter(dt) == QuarterCandidate(dt)
  {
    Decompose(dt);
    NextQuarterByRange(Minute(dt));
  }

  /** The hour/minute rule picks the next multiple of a quarter hour. */
  lemma {:induction false} CandidateClosedForm(dt: int)
    ensures QuarterCandidate(dt) == (dt / US_PER_QUARTER + 1) * US_PER_QUARTER
  {
    Decompose(dt);
    var a := dt / US_PER_HOUR;
    var m := Minute(dt);
    NextQuarterByRange(m);
    if m < 15 {
      QuarterIndex(dt, 4 * a);
    } else if m < 30 {
      QuarterIndex(dt, 4 * a + 1);
    } else if m < 45 {
      QuarterIndex(dt, 4 * a + 2);
    } else {
      QuarterIndex(dt, 4 * a + 3);
    }
  }

  /**
   * Below a minute of 45 the result stays in dt's hour, on the smallest
   * quarter mark after dt's minute, with seconds and microseconds cleared.
   */
  lemma {:induction false} AlignSameHour(dt: int)
    requires Minute(dt) < 45
    ensures HourStart(AlignToNextQuarter(dt)) == HourStart(dt)
    ensures Minute(AlignToNextQuarter(dt)) in QUARTER_MINUTES
    ensures Minute(AlignToNextQuarter(dt)) > Minute(dt)
    ensures forall q :: q in QUARTER_MINUTES && q > Minute(dt) ==> Minute(AlignToNextQuarter(dt)) <= q
    ensures AlignToNextQuarter(dt) % US_PER_MINUTE == 0
  {
    var r := AlignToNextQuarter(dt);
    GuardIsDead(dt);
    Decompose(dt);
    Decompose(r);
    var a := dt / US_PER_HOUR;
    var q := NextQuarter(Minute(dt)).value;
    assert r == a * US_PER_HOUR + q * US_PER_MINUTE;
    HourDivMod(r, a, q * US_PER_MINUTE);
    MinuteDivMod(q * US_PER_MINUTE, q, 0);
  }

  /**
   * From minute 45 on the result is minute 0 of the following hour; the
   * epoch arithmetic carries into the day, month and year as needed.
   */
  lemma {:induction false} AlignNextHour(dt: int)
    requires Minute(dt) >= 45
    ensures AlignToNextQuarter(dt) == HourStart(dt) + US_PER_HOUR
    ensures HourStart(AlignToNextQuarter(dt)) == AlignToNextQuarter(dt)
    ensures Minute(AlignToNextQuarter(dt)) == 0
  {
    var r := AlignToNextQuarter(dt);
    GuardIsDead(dt);
    Decompose(dt);
    NextQuarterByRange(Minute(dt));
    var a := dt / US_PER_HOUR;
    assert r == (a + 1) * US_PER_HOUR;
    HourDivMod(r, a + 1, 0);
  }

  /** Euclidean division by an hour is determined by quotient and remainder. */
  lemma HourDivMod(x: int, k: int, r: int)
    requires x == k * US_PER_HOUR + r && 0 <= r < US_PER_HOUR
    ensures x / US_PER_HOUR == k && x % US_PER_HOUR == r
  {
  }

  /**
   * `ms(dt)`: `int(dt.timestamp() * 1000)`, the epoch milliseconds of dt,
   * truncated toward zero as Python's `int` does; the float product is taken
   * as exact.
   */
  function Ms(dt: int): (m: int)
    ensures dt >= 0 ==> 0 <= dt - m * US_PER_MS < US_PER_MS
    ensures dt < 0 ==> -US_PER_MS < dt - m * US_PER_MS <= 0
    ensures dt >= 0 ==> m == dt / US_PER_MS
  {
    if dt >= 0 then dt / US_PER_MS else -((-dt) / US_PER_MS)
  }

  /**
   * `datetime.fromtimestamp(m / 1000, tz=timezone.utc)`: the instant of m
   * epoch milliseconds, with the float division taken as exact.
   */
  function FromMs(m: int): (dt: int)
    ensures dt % US_PER_MS == 0
    ensures dt / US_PER_MS == m
  {
    m * US_PER_MS
  }

  /**
   * An instant already on a quarter-hour boundary moves forward by exactly
   * one quarter hour: alignment is never the identity.
   */
  lemma {:induction false} AlignOnBoundary(x: int)
    requires x % US_PER_QUARTER == 0
    ensures AlignToNextQuarter(x) == x + US_PER_QUARTER
  {
    QuarterIndex(x, x / US_PER_QUARTER);
  }

  /** Converting milliseconds to an instant and back is the identity. */
  lemma MsFromMs(m: int)
    ensures Ms(FromMs(m)) == m
  {
  }

  /**
   * `ms` of an aligned instant loses nothing: the instant has no sub-millisecond
   * part, and its millisecond count is itself a multiple of a quarter hour.
   */
  lemma {:induction false} MsOfAligned(dt: int)
    ensures FromMs(Ms(AlignToNextQuarter(dt))) == AlignToNextQuarter(dt)
    ensures Ms(AlignToNextQuarter(dt)) % MS_PER_QUARTER == 0
    ensures Ms(AlignToNextQuarter(dt)) == (dt / US_PER_QUARTER + 1) * MS_PER_QUARTER
  {
    var k := dt / US_PER_QUARTER + 1;
    assert AlignToNextQuarter(dt) == FromMs(k * MS_PER_QUARTER);
    MsFromMs(k * MS_PER_QUARTER);
  }

  /**
   * Aligning a millisecond timestamp through a datetime, as the order service
   * does, yields the next multiple of 900000 ms strictly after it.
   */
  lemma {:induction false} AlignMillis(m: int)
    ensures Ms(AlignToNextQuarter(FromMs(m))) == (m / MS_PER_QUARTER + 1) * MS_PER_QUARTER
  {
    MsOfAligned(FromMs(m));
    var k := m / MS_PER_QUARTER;
    QuarterIndex(FromMs(m), k);
  }

  /** Midnight UTC of 2024-01-01: day 19723 of the epoch. */
  const JAN_1_2024: int := 19723 * US_PER_DAY

  /** Euclidean division by a day is determined by quotient and remainder. */
  lemma DayDivMod(x: int, k: int, r: int)
    requires x == k * US_PER_DAY + r && 0 <= r < US_PER_DAY
    ensures x / US_PER_DAY == k && x % US_PER_DAY == r
  {
  }

  /** 2024-01-01 13:36 UTC aligns to 13:45 of the same hour. */
  lemma AlignExampleSameHour()
    ensures AlignToNextQuarter(JAN_1_2024 + 13 * US_PER_HOUR + 36 * US_PER_MINUTE)
         == JAN_1_2024 + 13 * US_PER_HOUR + 45 * US_PER_MINUTE
    ensures Minute(JAN_1_2024 + 13 * US_PER_HOUR + 45 * US_PER_MINUTE) == 45
    ensures (JAN_1_2024 + 13 * US_PER_HOUR + 45 * US_PER_MINUTE) % US_PER_DAY / US_PER_HOUR == 13
  {
    var r := JAN_1_2024 + 13 * US_PER_HOUR + 45 * US_PER_MINUTE;
    QuarterIndex(JAN_1_2024 + 13 * US_PER_HOUR + 36 * US_PER_MINUTE, 19723 * 96 + 13 * 4 + 2);
    DayDivMod(r, 19723, 13 * US_PER_HOUR + 45 * US_PER_MINUTE);
    HourDivMod(r, 19723 * 24 + 13, 45 * US_PER_MINUTE);
    HourDivMod(13 * US_PER_HOUR + 45 * US_PER_MINUTE, 13, 45 * US_PER_MINUTE);
    MinuteDivMod(45 * US_PER_MINUTE, 45, 0);
  }

  /** 2024-01-01 13:59 UTC aligns to 14:00. */
  lemma AlignExampleNextHour()
    ensures AlignToNextQuarter(JAN_1_2024 + 13 * US_PER_HOUR + 59 * US_PER_MINUTE)
         == JAN_1_2024 + 14 * US_PER_HOUR
    ensures Minute(JAN_1_2024 + 14 * US_PER_HOUR) == 0
    ensures (JAN_1_2024 + 14 * US_PER_HOUR) % US_PER_DAY / US_PER_HOUR == 14
  {
    var r := JAN_1_2024 + 14 * US_PER_HOUR;
    QuarterIndex(JAN_1_2024 + 13 * US_PER_HOUR + 59 * US_PER_MINUTE, 19723 * 96 + 13 * 4 + 3);
    DayDivMod(r, 19723, 14 * US_PER_HOUR);
    HourDivMod(r, 19723 * 24 + 14, 0);
    HourDivMod(14 * US_PER_HOUR, 14, 0);
  }
}
