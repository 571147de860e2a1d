/**
  `SharedData`: the state the command handlers and the avatar loop share.
  The asyncio lock is left out (the model is sequential); the clock that
  `set_flood_wait` and `update_last_time` read is a parameter.
*/
module SharedState {
  import opened Wrappers
  import TimeRounding

  /** What `get()` returns: display name, caption, latitude, longitude. */
  datatype Target = Target(cityName: Option<string>, profileText: Option<string>, lat: Option<real>, lon: Option<real>)

  /** `None not in (city_name, profile_text, lat, lon)` */
  predicate IsComplete(t: Target)
  {
    t.cityName.Some? && t.profileText.Some? && t.lat.Some? && t.lon.Some?
  }

  class SharedData {
    var cityName: Option<string>
    var profileText: Option<string>
    var lat: Option<real>
    var lon: Option<real>
    var lastFloodWait: Option<int>
    var floodWaitUntil: Option<int>
    var running: bool
    var lastUpdateTime: Option<int>

    /** Nothing chosen yet, no flood wait, running, never updated. */
    constructor()
      ensures Get() == Target(None, None, None, None) && !IsComplete(Get())
      ensures GetFloodInfo() == (None, None)
      ensures IsRunning() && GetLastTime() == None
    {
      cityName, profileText, lat, lon := None, None, None, None;
      lastFloodWait, floodWaitUntil := None, None;
      running := true;
      lastUpdateTime := None;
    }

    function IsRunning(): bool
      reads this
    {
      running
    }

    function Get(): Target
      reads this
    {
      Target(cityName, profileText, lat, lon)
    }

    function GetFloodInfo(): (Option<int>, Option<int>)
      reads this
    {
      (lastFloodWait, floodWaitUntil)
    }

    function GetLastTime(): Option<int>
      reads this
    {
      lastUpdateTime
    }

    /** Replaces the whole target at once; afterwards `get()` returns exactly the new values. */
    method Update(city: string, text: string, latitude: real, longitude: real)
      modifies this`cityName, this`profileText, this`lat, this`lon
      ensures Get() == Target(Some(city), Some(text), Some(latitude), Some(longitude))
      ensures IsComplete(Get())
    {
      cityName, profileText, lat, lon := Some(city), Some(text), Some(latitude), Some(longitude);
    }

    /** Records a flood wait of `seconds` observed at `now`: it lasts until `now + seconds`. */
    method SetFloodWait(seconds: int, now: int)
      modifies this`lastFloodWait, this`floodWaitUntil
      ensures GetFloodInfo() == (Some(seconds), Some(now + seconds * TimeRounding.USEC_PER_SECOND))
    {
      lastFloodWait := Some(seconds);
      floodWaitUntil := Some(now + seconds * TimeRounding.USEC_PER_SECOND);
    }

    /** Clears the run flag and nothing else. */
    method Stop()
      modifies this`running
      ensures !IsRunning()
    {
      running := false;
    }

    /** Stamps a successful avatar update with the current time. */
    method UpdateLastTime(now: int)
      modifies this`lastUpdateTime
      ensures GetLastTime() == Some(now)
    {
      lastUpdateTime := Some(now);
    }
  }
}
