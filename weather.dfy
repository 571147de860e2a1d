/**
  Weather classification (`translate_weather`) and the signed temperature
  label drawn on the badge.
*/
module Weather {
  import opened Wrappers
  import opened Decimal
  import TimeRounding

  /** The weather glyphs the template set provides. */
  datatype Kind = Rain | Snow | Cloud | Sun | Moon

  /** Microseconds since local midnight, as a `datetime.time` value. */
  type TimeOfDay = t: int | 0 <= t < TimeRounding.USEC_PER_DAY

  /** `DAY_START` and `DAY_END`: 06:00 and 21:00. */
  const DAY_START: int := 6 * TimeRounding.USEC_PER_HOUR
  const DAY_END: int := 21 * TimeRounding.USEC_PER_HOUR

  predicate IsDaytime(t: TimeOfDay) { DAY_START <= t < DAY_END }

  /**
    Maps an OpenWeatherMap condition id and a time of day to a glyph; a
    group outside 2, 3, 5, 6, 7 and 8 has no glyph. Python's `//` and `%`
    agree with Dafny's for the positive divisors used here.
  */
  function TranslateWeather(weatherId: int, now: TimeOfDay): (r: Option<Kind>)
    ensures r == Some(Rain) <==> weatherId / 100 in {2, 3, 5}
    ensures r == Some(Snow) <==> weatherId / 100 == 6
    ensures r == Some(Sun) <==> weatherId / 100 == 8 && weatherId % 10 <= 1 && IsDaytime(now)
    ensures r == Some(Moon) <==> weatherId / 100 == 8 && weatherId % 10 <= 1 && !IsDaytime(now)
    ensures r == Some(Cloud) <==> weatherId / 100 == 7 || (weatherId / 100 == 8 && weatherId % 10 > 1)
    ensures r == None <==> weatherId / 100 !in {2, 3, 5, 6, 7, 8}
  {
    var group := weatherId / 100;
    if group in {2, 3, 5} then Some(Rain)
    else if group == 6 then Some(Snow)
    else if group == 7 then Some(Cloud)
    else if group == 8 then
      (if weatherId % 10 in {0, 1} then (if IsDaytime(now) then Some(Sun) else Some(Moon))
       else Some(Cloud))
    else None
  }

  /**
    Examples: 200, 600, 701, 800 at noon and at 23:00, 804. The id 810 ends
    in 0, so the code draws the sun for it at noon, not a cloud.
  */
  lemma TranslateWeatherExamples()
    ensures TranslateWeather(200, 0) == Some(Rain)
    ensures TranslateWeather(600, 0) == Some(Snow)
    ensures TranslateWeather(701, 0) == Some(Cloud)
    ensures TranslateWeather(800, 12 * TimeRounding.USEC_PER_HOUR) == Some(Sun)
    ensures TranslateWeather(800, 23 * TimeRounding.USEC_PER_HOUR) == Some(Moon)
    ensures TranslateWeather(804, 12 * TimeRounding.USEC_PER_HOUR) == Some(Cloud)
    ensures TranslateWeather(810, 12 * TimeRounding.USEC_PER_HOUR) == Some(Sun)
    ensures TranslateWeather(900, 12 * TimeRounding.USEC_PER_HOUR) == None
  {
  }

  /** The temperature label: `+n` above zero, `-n` below, `0` at zero. */
  function FormatTemperature(temp: int): (s: string)
    ensures |s| >= 1
    ensures s[0] == '+' <==> temp > 0
    ensures s[0] == '-' <==> temp < 0
    ensures s == "0" <==> temp == 0
    ensures temp != 0 ==> |s| >= 2 && s[1] != '0' && forall i :: 1 <= i < |s| ==> IsDigit(s[i])
  {
    if temp > 0 then "+" + Show(temp)
    else if temp < 0 then "-" + Show(-temp)
    else "0"
  }

  /** Python's `int()` on an optionally signed decimal string. */
  function ParseSigned(s: string): Option<int>
  {
    if |s| >= 1 && s[0] == '+' then
      match ParseNat(s[1..]) case Some(n) => Some(n) case None => None
    else if |s| >= 1 && s[0] == '-' then
      match ParseNat(s[1..]) case Some(n) => Some(-(n as int)) case None => None
    else
      match ParseNat(s) case Some(n) => Some(n) case None => None
  }

  /** The label reads back as the temperature it was made from. */
  lemma FormatTemperatureRoundTrip(temp: int)
    ensures ParseSigned(FormatTemperature(temp)) == Some(temp)
  {
    var s := FormatTemperature(temp);
    if temp > 0 {
      assert s[0] == '+' && s[1..] == Show(temp);
      ParseShow(temp);
      assert ParseSigned(s) == Some(temp);
    } else if temp < 0 {
      assert s[0] == '-' && s[1..] == Show(-temp);
      ParseShow(-temp);
      assert ParseSigned(s) == Some(-(-temp));
    } else {
      assert s == Show(0) && s[0] == '0';
      ParseShow(0);
      assert ParseSigned(s) == Some(0);
    }
  }
}
