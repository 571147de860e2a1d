/**
  The clock face: the "HH:MM" label the scheduler prints, its parsing in
  `draw_clock`, the hand angles, and the integer placement of a hand sprite
  (`rotate_hand`) and of an overlay (`place_overlay_on_base`).
  Angles are in half-degrees so that the hour hand's `minutes * 0.5` stays integral.
*/
module Clock {
  import opened Wrappers
  import opened Decimal
  import TimeRounding

  // ---------------------------------------------------------------------
  // The time label

  /** `dt.hour` */
  function HourOfDay(t: int): (h: int)
    ensures 0 <= h < 24
  {
    (t / TimeRounding.USEC_PER_HOUR) % 24
  }

  /** `datetime.now(timezone(timedelta(seconds=offset)))`, given the UTC reading. */
  function LocalTime(utcNow: int, utcOffsetSeconds: int): int
  {
    utcNow + utcOffsetSeconds * TimeRounding.USEC_PER_SECOND
  }

  /**
    The offset is a whole number of seconds: the local reading keeps the
    UTC reading's fraction of a second, and one more second of offset is
    one second later.
  */
  lemma LocalTimeShiftsWholeSeconds(utcNow: int, utcOffsetSeconds: int)
    ensures LocalTime(utcNow, utcOffsetSeconds) % TimeRounding.USEC_PER_SECOND == utcNow % TimeRounding.USEC_PER_SECOND
    ensures LocalTime(utcNow, utcOffsetSeconds + 1) == LocalTime(utcNow, utcOffsetSeconds) + TimeRounding.USEC_PER_SECOND
  {
    TimeRounding.DivModUnique(LocalTime(utcNow, utcOffsetSeconds), TimeRounding.USEC_PER_SECOND,
                              utcNow / TimeRounding.USEC_PER_SECOND + utcOffsetSeconds, utcNow % TimeRounding.USEC_PER_SECOND);
  }

  /** `dt.strftime("%H:%M")` */
  function FormatClock(t: int): (s: string)
    ensures |s| == 5 && s[2] == ':'
  {
    Pad2(HourOfDay(t)) + ":" + Pad2(TimeRounding.MinuteOf(t))
  }

  datatype ClockTime = ClockTime(hours: int, minutes: int)

  /** `hours, minutes = map(int, time_str.split(":"))`; an error unless there are exactly two digit strings. */
  function ParseClock(s: string): (r: Option<ClockTime>)
    ensures ':' !in s ==> r.None?
    ensures r.Some? <==> |Split(s, ':')| == 2 && ParseNat(Split(s, ':')[0]).Some? && ParseNat(Split(s, ':')[1]).Some?
  {
    var parts := Split(s, ':');
    if |parts| != 2 then None
    else match (ParseNat(parts[0]), ParseNat(parts[1]))
      case (Some(h), Some(m)) => Some(ClockTime(h, m))
      case _ => None
  }

  /** The label the scheduler prints is read back as the hour and minute it came from. */
  lemma ParseFormatClock(t: int)
    ensures ParseClock(FormatClock(t)) == Some(ClockTime(HourOfDay(t), TimeRounding.MinuteOf(t)))
  {
    var hh, mm := Pad2(HourOfDay(t)), Pad2(TimeRounding.MinuteOf(t));
    var s := FormatClock(t);
    assert FirstIndex(s, ':') == 2;
    assert s[..2] == hh && s[3..] == mm;
    SplitNoSeparator(mm, ':');
    assert Split(s, ':') == [hh, mm];
    ParsePad2(HourOfDay(t));
    ParsePad2(TimeRounding.MinuteOf(t));
  }

  // ---------------------------------------------------------------------
  // Hand angles (counter-clockwise positive, as Pillow rotates)

  /** `-((hours % 12) * 30 + minutes * 0.5)` degrees, in half-degrees. */
  function HourAngle(hours: int, minutes: int): (r: int)
    ensures 0 <= minutes < 60 ==> -720 < r <= 0
  {
    -((hours % 12) * 60 + minutes)
  }

  /** `-(minutes * 6)` degrees, in half-degrees. */
  function MinuteAngle(minutes: int): (r: int)
    ensures 0 <= minutes < 60 ==> -720 < r <= 0 && r % 12 == 0
  {
    -(minutes * 12)
  }

  /**
    Both hands turn clockwise by less than a full turn, the hour hand repeats
    every 12 hours, and the hands agree: twelve times the hour hand's turn is
    the minute hand's turn, modulo a full turn.
  */
  lemma HandAnglesConsistent(hours: nat, minutes: nat)
    requires minutes < 60
    ensures -720 < HourAngle(hours, minutes) <= 0 && -720 < MinuteAngle(minutes) <= 0
    ensures HourAngle(hours + 12, minutes) == HourAngle(hours, minutes)
    ensures (12 * HourAngle(hours, minutes) - MinuteAngle(minutes)) % 720 == 0
  {
    var q := hours % 12;
    assert (hours + 12) % 12 == q;
    assert 12 * HourAngle(hours, minutes) - MinuteAngle(minutes) == -720 * q;
  }

  /** 3:00 gives -90° and 0°; 6:30 gives -195° and -180°. */
  lemma HandAngleExamples()
    ensures HourAngle(3, 0) == -90 * 2 && MinuteAngle(0) == 0
    ensures HourAngle(6, 30) == -195 * 2 && MinuteAngle(30) == -180 * 2
  {
  }

  // ---------------------------------------------------------------------
  // Placement

  /** `offset_pixels`: the pivot sits this far above the bottom of a hand sprite. */
  const PIVOT_OFFSET: int := 5

  /** Where `rotate_hand` puts a sprite and where the rotated canvas lands on the face. */
  datatype HandPlacement = HandPlacement(canvasSize: int, pasteX: int, pasteY: int, destX: int, destY: int)

  function Max(a: int, b: int): int { if a >= b then a else b }

  /**
    A `spriteWidth` by `spriteHeight` hand is pasted into a square transparent
    canvas three times its larger side so that its pivot (the middle column,
    five rows above its bottom) is at the canvas centre; after rotation about
    that centre the canvas is composited so that its centre, hence the
    pivot, lands on the centre of the clock face. The sprite lies
    horizontally inside the canvas, and vertically too unless it is tiny.
  */
  function PlaceHand(spriteWidth: nat, spriteHeight: nat, faceWidth: nat, faceHeight: nat): (p: HandPlacement)
    ensures p.canvasSize >= 3 * spriteWidth && p.canvasSize >= 3 * spriteHeight
    ensures p.pasteX + spriteWidth / 2 == p.canvasSize / 2
    ensures p.pasteY + (spriteHeight - PIVOT_OFFSET) == p.canvasSize / 2
    ensures 0 <= p.pasteX && p.pasteX + spriteWidth <= p.canvasSize
    ensures 0 <= p.pasteY && (Max(spriteWidth, spriteHeight) >= 3 ==> p.pasteY + spriteHeight <= p.canvasSize)
    ensures p.destX + p.pasteX + spriteWidth / 2 == faceWidth / 2
    ensures p.destY + p.pasteY + (spriteHeight - PIVOT_OFFSET) == faceHeight / 2
  {
    var expanded := Max(spriteWidth, spriteHeight) * 3;
    var handX := expanded / 2 - spriteWidth / 2;
    var handY := expanded / 2 - (spriteHeight - PIVOT_OFFSET);
    HandPlacement(expanded, handX, handY, faceWidth / 2 - expanded / 2, faceHeight / 2 - expanded / 2)
  }

  /**
    `place_overlay_on_base`: the top-left corner that centres an overlay on
    `(x, y)`; the overlay covers the point, with at most one more pixel after
    it than before it on each axis.
  */
  function PlaceOverlay(x: int, y: int, overlayWidth: nat, overlayHeight: nat): (corner: (int, int))
    ensures corner.0 <= x <= corner.0 + overlayWidth && corner.1 <= y <= corner.1 + overlayHeight
    ensures 0 <= (corner.0 + overlayWidth - x) - (x - corner.0) <= 1
    ensures 0 <= (corner.1 + overlayHeight - y) - (y - corner.1) <= 1
  {
    (x - overlayWidth / 2, y - overlayHeight / 2)
  }
}
