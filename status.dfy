/**
  The arithmetic of the `/info` report and of the city list: whether a flood
  wait is still running, the remaining time as `H:MM:SS`, and the wrap-around
  of the "previous" and "next" buttons.
*/
module Status {
  import opened Wrappers
  import opened Decimal
  import TimeRounding

  /** `flood_until and datetime.now() < flood_until` */
  predicate FloodActive(floodUntil: Option<int>, now: int)
  {
    floodUntil.Some? && now < floodUntil.value
  }

  /**
    A wait of `seconds` recorded at `t0` is reported as running exactly
    during the `seconds` whole seconds that follow.
  */
  lemma FloodWindow(t0: int, seconds: int, k: int)
    ensures FloodActive(Some(t0 + seconds * TimeRounding.USEC_PER_SECOND), t0 + k * TimeRounding.USEC_PER_SECOND)
        <==> k < seconds
  {
  }

  lemma FloodWindowExample(t0: int)
    ensures FloodActive(Some(t0 + 30 * TimeRounding.USEC_PER_SECOND), t0 + 29 * TimeRounding.USEC_PER_SECOND)
    ensures !FloodActive(Some(t0 + 30 * TimeRounding.USEC_PER_SECOND), t0 + 31 * TimeRounding.USEC_PER_SECOND)
  {
    FloodWindow(t0, 30, 29);
    FloodWindow(t0, 30, 31);
  }

  datatype Duration = Duration(hours: nat, minutes: nat, seconds: nat)

  /** `remaining // 3600`, then minutes and seconds of `remaining % 3600`. */
  function SplitRemaining(remaining: nat): (d: Duration)
    ensures d.hours * 3600 + d.minutes * 60 + d.seconds == remaining
    ensures d.minutes < 60 && d.seconds < 60
  {
    var hours := remaining / 3600;
    var rest := remaining % 3600;
    Duration(hours, rest / 60, rest % 60)
  }

  /** Hours printed with two digits when below 10, as they are otherwise; minutes and seconds with two. */
  function FormatRemaining(remaining: nat): (s: string)
    ensures |s| >= 8 && s[|s| - 3] == ':' && s[|s| - 6] == ':'
    ensures remaining < 36000 ==> |s| == 8
  {
    var d := SplitRemaining(remaining);
    HoursText(d.hours) + ":" + Pad2(d.minutes) + ":" + Pad2(d.seconds)
  }

  /**
    The countdown text is canonical: digits apart from the two colons, the
    minute and second fields below 60, and no leading zero once the hours
    take more than two digits.
  */
  lemma FormatRemainingCanonical(remaining: nat)
    ensures var s := FormatRemaining(remaining);
      && (forall i :: 0 <= i < |s| && i != |s| - 3 && i != |s| - 6 ==> IsDigit(s[i]))
      && ValueOf(s[|s| - 5..|s| - 3]) < 60 && ValueOf(s[|s| - 2..]) < 60
      && (|s| > 8 ==> s[0] != '0')
  {
    var d := SplitRemaining(remaining);
    var hh, mm, ss := HoursText(d.hours), Pad2(d.minutes), Pad2(d.seconds);
    var s := FormatRemaining(remaining);
    assert s == hh + ":" + mm + ":" + ss;
    assert |mm| == 2 && |ss| == 2;
    assert s[|s| - 5..|s| - 3] == mm && s[|s| - 2..] == ss;
    ParsePad2(d.minutes);
    ParsePad2(d.seconds);
    forall i | 0 <= i < |s| && i != |s| - 3 && i != |s| - 6
      ensures IsDigit(s[i])
    {
      if i < |hh| {
        assert s[i] == hh[i];
      } else if i < |s| - 3 {
        assert s[i] == mm[i - |hh| - 1];
      } else {
        assert s[i] == ss[i - |s| + 2];
      }
    }
  }

  /** `f'{hours:02d}' if hours < 10 else hours` */
  function HoursText(hours: nat): (s: string)
    ensures |s| >= 2 && forall i :: 0 <= i < |s| ==> IsDigit(s[i])
    ensures ValueOf(s) == hours
    ensures hours < 10 ==> |s| == 2 && s[0] == '0'
    ensures hours >= 10 ==> s[0] != '0'
  {
    if hours < 10 then ParsePad2(hours); Pad2(hours) else ValueOfShow(hours); Show(hours)
  }

  /** Reads an `H:MM:SS` text back as a number of seconds. */
  function ParseRemaining(s: string): Option<nat>
  {
    ParseFields(Split(s, ':'))
  }

  function ParseFields(parts: seq<string>): Option<nat>
  {
    if |parts| != 3 then None
    else match (ParseNat(parts[0]), ParseNat(parts[1]), ParseNat(parts[2]))
      case (Some(h), Some(m), Some(sec)) => Some(h * 3600 + m * 60 + sec)
      case _ => None
  }

  lemma RemainingFields(remaining: nat)
    ensures var d := SplitRemaining(remaining);
      Split(FormatRemaining(remaining), ':') == [HoursText(d.hours), Pad2(d.minutes), Pad2(d.seconds)]
  {
    var d := SplitRemaining(remaining);
    var hh, mm, ss := HoursText(d.hours), Pad2(d.minutes), Pad2(d.seconds);
    var tail := mm + [':'] + ss;
    assert FormatRemaining(remaining) == hh + [':'] + tail;
    assert forall k :: 0 <= k < |hh| ==> hh[k] != ':' by {
      forall k | 0 <= k < |hh| ensures hh[k] != ':' { assert IsDigit(hh[k]); }
    }
    assert forall k :: 0 <= k < |mm| ==> mm[k] != ':' by {
      forall k | 0 <= k < |mm| ensures mm[k] != ':' { assert IsDigit(mm[k]); }
    }
    assert forall k :: 0 <= k < |ss| ==> ss[k] != ':' by {
      forall k | 0 <= k < |ss| ensures ss[k] != ':' { assert IsDigit(ss[k]); }
    }
    SplitNoSeparator(ss, ':');
    SplitFirst(mm, ss, ':');
    assert Split(tail, ':') == [mm, ss];
    SplitFirst(hh, tail, ':');
  }

  lemma FieldsParse(d: Duration)
    ensures ParseFields([HoursText(d.hours), Pad2(d.minutes), Pad2(d.seconds)])
         == Some(d.hours * 3600 + d.minutes * 60 + d.seconds)
  {
    if d.hours < 10 { ParsePad2(d.hours); } else { ParseShow(d.hours); }
    ParsePad2(d.minutes);
    ParsePad2(d.seconds);
  }

  /** The countdown text reads back as the number of seconds it was made from. */
  lemma FormatRemainingRoundTrip(remaining: nat)
    ensures ParseRemaining(FormatRemaining(remaining)) == Some(remaining)
  {
    RemainingFields(remaining);
    FieldsParse(SplitRemaining(remaining));
  }

  /**
    The `/info` countdown: none when no wait is running, otherwise the
    whole seconds left (`int(total_seconds())` of a positive span) as text.
  */
  function FloodCountdown(floodUntil: Option<int>, now: int): (r: Option<string>)
    ensures r.Some? <==> FloodActive(floodUntil, now)
    ensures r.Some? ==> ParseRemaining(r.value) == Some((floodUntil.value - now) / TimeRounding.USEC_PER_SECOND)
  {
    if FloodActive(floodUntil, now) then
      var remaining := (floodUntil.value - now) / TimeRounding.USEC_PER_SECOND;
      FormatRemainingRoundTrip(remaining);
      Some(FormatRemaining(remaining))
    else None
  }

  /** `(current_index - 1) % len(cities)`: Python's `%` is never negative for a positive divisor. */
  function PrevIndex(index: int, count: int): (r: int)
    requires count > 0
    ensures 0 <= r < count
  {
    (index - 1) % count
  }

  /** `(current_index + 1) % len(cities)` */
  function NextIndex(index: int, count: int): (r: int)
    requires count > 0
    ensures 0 <= r < count
  {
    (index + 1) % count
  }

  /** The two buttons undo each other, and wrap from the first city to the last and back. */
  lemma PaginationInverse(index: int, count: int)
    requires count > 0 && 0 <= index < count
    ensures PrevIndex(NextIndex(index, count), count) == index
    ensures NextIndex(PrevIndex(index, count), count) == index
    ensures index == 0 ==> PrevIndex(index, count) == count - 1
    ensures index == count - 1 ==> NextIndex(index, count) == 0
  {
    NextOf(index, count);
    PrevOf(index, count);
    if index == count - 1 {
      PrevOf(0, count);
    } else {
      PrevOf(index + 1, count);
    }
    if index == 0 {
      NextOf(count - 1, count);
    } else {
      NextOf(index - 1, count);
    }
  }

  /** Within range, "next" is one more, wrapping from the last index to 0. */
  lemma NextOf(index: int, count: int)
    requires count > 0 && 0 <= index < count
    ensures NextIndex(index, count) == if index == count - 1 then 0 else index + 1
  {
    if index == count - 1 {
      TimeRounding.DivModUnique(index + 1, count, 1, 0);
    } else {
      TimeRounding.DivModUnique(index + 1, count, 0, index + 1);
    }
  }

  /** Within range, "previous" is one less, wrapping from 0 to the last index. */
  lemma PrevOf(index: int, count: int)
    requires count > 0 && 0 <= index < count
    ensures PrevIndex(index, count) == if index == 0 then count - 1 else index - 1
  {
    if index == 0 {
      TimeRounding.DivModUnique(index - 1, count, -1, count - 1);
    } else {
      TimeRounding.DivModUnique(index - 1, count, 0, index - 1);
    }
  }
}
