/**
  Naive datetimes as integer microseconds since a midnight-aligned epoch,
  the scheduler's five-minute rounding (`round_to_nearest_5_minutes`) and
  its refresh rule.
*/
module TimeRounding {
  import opened Wrappers

  const USEC_PER_SECOND: int := 1_000_000
  const USEC_PER_MINUTE: int := 60 * USEC_PER_SECOND
  const USEC_PER_HOUR: int := 60 * USEC_PER_MINUTE
  const USEC_PER_DAY: int := 24 * USEC_PER_HOUR
  const FIVE_MINUTES: int := 5 * USEC_PER_MINUTE

  /** `dt.minute` */
  function MinuteOf(t: int): (m: int)
    ensures 0 <= m < 60
  {
    (t / USEC_PER_MINUTE) % 60
  }

  /** `dt.replace(minute=0, second=0, microsecond=0)` */
  function HourStart(t: int): (h: int)
    ensures h % USEC_PER_HOUR == 0 && h <= t < h + USEC_PER_HOUR
  {
    t - t % USEC_PER_HOUR
  }

  /**
    Rounds to the nearest five-minute mark the way the code does: keep the
    hour, floor the minute to a multiple of 5, add 5 when `minute % 5 >= 3`,
    and roll minute 60 into the next hour; seconds and microseconds are dropped.
  */
  function RoundToNearest5Minutes(t: int): (r: int)
    ensures HourStart(t) <= r <= HourStart(t) + USEC_PER_HOUR
    ensures MinuteOf(t) < 58 ==> r < HourStart(t) + USEC_PER_HOUR
  {
    var minute := MinuteOf(t);
    var rounded := (minute / 5) * 5 + (if minute % 5 >= 3 then 5 else 0);
    if rounded >= 60 then
      DivModUnique(t + USEC_PER_HOUR, USEC_PER_HOUR, t / USEC_PER_HOUR + 1, t % USEC_PER_HOUR);
      HourStart(t + USEC_PER_HOUR)
    else HourStart(t) + rounded * USEC_PER_MINUTE
  }

  /** A reference definition: shift by two minutes and floor to a five-minute mark. */
  function NearestMark(t: int): (r: int)
    ensures r % FIVE_MINUTES == 0
    ensures t - 3 * USEC_PER_MINUTE < r <= t + 2 * USEC_PER_MINUTE
  {
    ((t + 2 * USEC_PER_MINUTE) / FIVE_MINUTES) * FIVE_MINUTES
  }

  lemma {:induction false} MulAtLeast(x: int, d: int)
    requires x >= 1 && d > 0
    ensures x * d >= d
  {
    if x > 1 {
      MulAtLeast(x - 1, d);
    }
  }

  lemma DivModUnique(t: int, d: int, q: int, r: int)
    requires d > 0 && t == q * d + r && 0 <= r < d
    ensures t / d == q && t % d == r
  {
    var q0, r0 := t / d, t % d;
    assert (q - q0) * d == r0 - r;
    if q > q0 {
      MulAtLeast(q - q0, d);
    } else if q < q0 {
      MulAtLeast(q0 - q, d);
    }
  }

  lemma DivMonotone(a: int, b: int, d: int)
    requires d > 0 && a <= b
    ensures a / d <= b / d
  {
    var qa, qb := a / d, b / d;
    if qa > qb {
      MulAtLeast(qa - qb, d);
    }
  }

  /** Splits `t` into hour, minute-in-hour and sub-minute parts. */
  lemma Decompose(t: int) returns (h: int, m: int, s: int)
    ensures t == h * USEC_PER_HOUR + m * USEC_PER_MINUTE + s
    ensures 0 <= m < 60 && 0 <= s < USEC_PER_MINUTE
    ensures MinuteOf(t) == m && HourStart(t) == h * USEC_PER_HOUR
  {
    var k := t / USEC_PER_MINUTE;
    s := t % USEC_PER_MINUTE;
    h := k / 60;
    m := k % 60;
    assert t == h * USEC_PER_HOUR + m * USEC_PER_MINUTE + s;
    DivModUnique(t, USEC_PER_HOUR, h, m * USEC_PER_MINUTE + s);
  }

  /** The mark of `h:m:s`: the slot of `m` within hour `h`, one slot later for minutes 3 and 4 of a slot. */
  function MarkOf(h: int, m: int): int
  {
    (12 * h + m / 5 + (if m % 5 >= 3 then 1 else 0)) * FIVE_MINUTES
  }

  lemma NearestMarkOf(h: int, m: int, s: int)
    requires 0 <= m < 60 && 0 <= s < USEC_PER_MINUTE
    ensures NearestMark(h * USEC_PER_HOUR + m * USEC_PER_MINUTE + s) == MarkOf(h, m)
  {
    var k, j := m / 5, m % 5;
    var up := if j >= 3 then 1 else 0;
    var rest := (j + 2 - 5 * up) * USEC_PER_MINUTE + s;
    var shifted := h * USEC_PER_HOUR + m * USEC_PER_MINUTE + s + 2 * USEC_PER_MINUTE;
    assert shifted == (12 * h + k + up) * FIVE_MINUTES + rest;
    DivModUnique(shifted, FIVE_MINUTES, 12 * h + k + up, rest);
  }

  lemma RoundOf(h: int, m: int, s: int)
    requires 0 <= m < 60 && 0 <= s < USEC_PER_MINUTE
    ensures RoundToNearest5Minutes(h * USEC_PER_HOUR + m * USEC_PER_MINUTE + s) == MarkOf(h, m)
  {
    var t := h * USEC_PER_HOUR + m * USEC_PER_MINUTE + s;
    DivModUnique(t, USEC_PER_MINUTE, 60 * h + m, s);
    DivModUnique(60 * h + m, 60, h, m);
    DivModUnique(t, USEC_PER_HOUR, h, m * USEC_PER_MINUTE + s);
    assert MinuteOf(t) == m && HourStart(t) == h * USEC_PER_HOUR;
    if (m / 5) * 5 + (if m % 5 >= 3 then 5 else 0) >= 60 {
      DivModUnique(t + USEC_PER_HOUR, USEC_PER_HOUR, h + 1, m * USEC_PER_MINUTE + s);
    }
  }

  /** The code's rounding agrees with the reference definition on every input. */
  lemma RoundIsNearestMark(t: int)
    ensures RoundToNearest5Minutes(t) == NearestMark(t)
  {
    var h, m, s := Decompose(t);
    NearestMarkOf(h, m, s);
    RoundOf(h, m, s);
  }

  /**
    The rounded time lies on a five-minute mark (its minute is a multiple of
    5, its seconds and microseconds are zero) and is within three minutes of
    the input: at most two minutes later, less than three minutes earlier.
  */
  lemma RoundLandsOnMark(t: int)
    ensures RoundToNearest5Minutes(t) % FIVE_MINUTES == 0
    ensures MinuteOf(RoundToNearest5Minutes(t)) % 5 == 0
    ensures RoundToNearest5Minutes(t) % USEC_PER_MINUTE == 0
    ensures t - 3 * USEC_PER_MINUTE < RoundToNearest5Minutes(t) <= t + 2 * USEC_PER_MINUTE
  {
    RoundIsNearestMark(t);
    MarkIsWholeMinute(NearestMark(t));
  }

  /** An instant on a five-minute mark is a whole minute whose minute is a multiple of 5. */
  lemma MarkIsWholeMinute(r: int)
    requires r % FIVE_MINUTES == 0
    ensures r % USEC_PER_MINUTE == 0 && MinuteOf(r) % 5 == 0
  {
    var q := r / FIVE_MINUTES;
    DivModUnique(r, USEC_PER_MINUTE, 5 * q, 0);
    DivModUnique(5 * q, 60, (5 * q) / 60, (5 * q) % 60);
  }

  /** Rounds up exactly when the minute's remainder by five is at least 3. */
  lemma RoundUpIff(t: int)
    ensures RoundToNearest5Minutes(t) > t <==> MinuteOf(t) % 5 >= 3
    ensures MinuteOf(t) >= 58 ==> RoundToNearest5Minutes(t) == HourStart(t) + USEC_PER_HOUR
  {
    var h, m, s := Decompose(t);
    if m >= 58 {
      DivModUnique(t + USEC_PER_HOUR, USEC_PER_HOUR, h + 1, m * USEC_PER_MINUTE + s);
    }
  }

  /** Rounding twice is rounding once. */
  lemma RoundIdempotent(t: int)
    ensures RoundToNearest5Minutes(RoundToNearest5Minutes(t)) == RoundToNearest5Minutes(t)
  {
    var r := RoundToNearest5Minutes(t);
    RoundIsNearestMark(t);
    RoundIsNearestMark(r);
    DivModUnique(r + 2 * USEC_PER_MINUTE, FIVE_MINUTES, r / FIVE_MINUTES, 2 * USEC_PER_MINUTE);
  }

  /** Rounding never reverses the order of two instants. */
  lemma RoundMonotone(a: int, b: int)
    requires a <= b
    ensures RoundToNearest5Minutes(a) <= RoundToNearest5Minutes(b)
  {
    RoundIsNearestMark(a);
    RoundIsNearestMark(b);
    DivMonotone(a + 2 * USEC_PER_MINUTE, b + 2 * USEC_PER_MINUTE, FIVE_MINUTES);
  }

  /**
    The refresh test of the scheduler loop: refresh when nothing was ever
    published, otherwise when the rounded current time is later than the
    rounded time of the last update.
  */
  function UpdateNeeded(lastUpdate: Option<int>, now: int): (r: bool)
    ensures lastUpdate.None? ==> r
  {
    match lastUpdate
    case None => true
    case Some(last) => RoundToNearest5Minutes(now) > RoundToNearest5Minutes(last)
  }

  /**
    The refresh rule in plain terms: with a previous update, a refresh is due
    exactly when the clock has reached three minutes past the mark the last
    update rounds to (the first instant that rounds to the next mark).
  */
  lemma DueIff(last: int, now: int)
    ensures UpdateNeeded(Some(last), now) <==> now >= RoundToNearest5Minutes(last) + 3 * USEC_PER_MINUTE
  {
    RoundIsNearestMark(last);
    RoundIsNearestMark(now);
    var ql := (last + 2 * USEC_PER_MINUTE) / FIVE_MINUTES;
    var qn := (now + 2 * USEC_PER_MINUTE) / FIVE_MINUTES;
    var next := (ql + 1) * FIVE_MINUTES;
    DivModUnique(next, FIVE_MINUTES, ql + 1, 0);
    DivModUnique(next - 1, FIVE_MINUTES, ql, FIVE_MINUTES - 1);
    if now + 2 * USEC_PER_MINUTE >= next {
      DivMonotone(next, now + 2 * USEC_PER_MINUTE, FIVE_MINUTES);
      assert qn >= ql + 1;
    } else {
      DivMonotone(now + 2 * USEC_PER_MINUTE, next - 1, FIVE_MINUTES);
      assert qn <= ql;
    }
  }

  /** Five minutes after the last update a refresh is always due. */
  lemma DueAfterFiveMinutes(last: int, now: int)
    requires now - last >= FIVE_MINUTES
    ensures UpdateNeeded(Some(last), now)
  {
    RoundIsNearestMark(last);
    RoundIsNearestMark(now);
    var ql := (last + 2 * USEC_PER_MINUTE) / FIVE_MINUTES;
    DivModUnique(last + 7 * USEC_PER_MINUTE, FIVE_MINUTES, ql + 1, (last + 2 * USEC_PER_MINUTE) % FIVE_MINUTES);
    DivMonotone(last + 7 * USEC_PER_MINUTE, now + 2 * USEC_PER_MINUTE, FIVE_MINUTES);
  }

  /** A refresh is only due once the clock has moved forward past the last update. */
  lemma DueMeansLater(last: int, now: int)
    requires UpdateNeeded(Some(last), now)
    ensures now > last
  {
    if now <= last {
      RoundMonotone(now, last);
    }
  }

  /**
    A refresh may be due one second after the last update: last update at
    00:02:59, tick at 00:03:00 (the two round to 00:00 and 00:05).
  */
  lemma DueOneSecondLater()
    ensures UpdateNeeded(Some(179 * USEC_PER_SECOND), 180 * USEC_PER_SECOND)
  {
    RoundIsNearestMark(179 * USEC_PER_SECOND);
    RoundIsNearestMark(180 * USEC_PER_SECOND);
    DivModUnique(299 * USEC_PER_SECOND, FIVE_MINUTES, 0, 299 * USEC_PER_SECOND);
    DivModUnique(300 * USEC_PER_SECOND, FIVE_MINUTES, 1, 0);
  }
}
