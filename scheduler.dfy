/**
  The avatar loop `run_telethon`: every cycle it decides whether a new
  5-minute slot has begun, clears the profile gallery once ten published
  photos have piled up, fetches the weather, builds the avatar and uploads it.
  Telegram and the weather service are not called: each cycle is handed a
  `Tick` that says what the clock read and how each remote call turned out.
*/
module Scheduler {
  import opened Wrappers
  import TimeRounding
  import Weather
  import Clock
  import Caption
  import opened SharedState

  /** The history of published photos is cleared when it holds this many. */
  const HISTORY_CAPACITY: nat := 10
  /** Seconds slept after an ordinary cycle and after an error. */
  const IDLE_SLEEP: nat := 10

  /** A published profile photo, as far as the loop cares: a handle to delete it by. */
  type Photo = int

  /**
    What `generate_icon` is called with, kept as the values its texts are
    made from: the caption, the local time, the truncated temperature and
    the weather picture. The texts it draws are the member functions.
  */
  datatype Icon = Icon(profileText: string, localTime: int, temp: int, kind: Weather.Kind)
  {
    /** `re.sub(r"[ -]{2,}", " ", profile_text)` */
    function CaptionText(): string
    {
      Caption.CollapseRuns(profileText)
    }

    /** `round_to_nearest_5_minutes(local_time).strftime("%H:%M")` */
    function TimeText(): string
    {
      Clock.FormatClock(TimeRounding.RoundToNearest5Minutes(localTime))
    }

    /** The signed temperature text. */
    function TempText(): string
    {
      Weather.FormatTemperature(temp)
    }
  }

  /** The remote calls a cycle makes, in order. */
  datatype Request =
    | DeletePhotos(photos: seq<Photo>)
    | FetchWeather(lat: real, lon: real)
    | UploadAvatar(icon: Icon)

  /** How `DeletePhotosRequest` turned out. */
  datatype DeleteReply = Deleted | DeleteFlood(seconds: nat) | DeleteFailed

  /** How the weather request turned out: a report, an empty answer, or an exception. */
  datatype WeatherReply = Report(temp: real, weatherId: int, utcOffsetSeconds: int) | NoReport | WeatherFailed

  /** How the upload turned out. */
  datatype UploadReply = Uploaded(photo: Photo) | UploadFlood(seconds: nat) | UploadFailed

  /** What a bot command handler did to the shared state since the previous cycle. */
  datatype Command = NoCommand | SetTarget(city: string, text: string, lat: real, lon: real) | StopCommand

  /**
    One pass of the loop: the command that ran before it, the naive clock at
    the start (`now`), the UTC clock used for the local time label, the naive
    clock read afterwards (`later`), and the three remote replies.
  */
  datatype Tick = Tick(command: Command, now: int, utcNow: int, later: int,
                       deletion: DeleteReply, weather: WeatherReply, upload: UploadReply)

  /**
    The whole effect of one cycle: the requests made, the photos deleted and
    uploaded, the history afterwards, the new last-update stamp, the flood
    wait recorded, and how long the loop then sleeps.
  */
  datatype Outcome = Outcome(requests: seq<Request>, deleted: seq<Photo>, uploaded: seq<Photo>,
                             history: seq<Photo>, stamp: Option<int>, floodWait: Option<nat>, sleep: nat)

  /** `int(x)` on a float: truncation toward zero. */
  function Truncate(x: real): (n: int)
    ensures 0.0 <= x ==> n as real <= x < n as real + 1.0
    ensures x < 0.0 ==> n as real - 1.0 < x <= n as real
  {
    if x >= 0.0 then x.Floor else -((-x).Floor)
  }

  /** The avatar built from a weather report, or `None` when the weather code has no picture (the `KeyError` of `I[None]`). */
  function MakeIcon(profileText: string, report: WeatherReply, utcNow: int, later: int): (r: Option<Icon>)
    requires report.Report?
    ensures r.Some? <==> Weather.TranslateWeather(report.weatherId, later % TimeRounding.USEC_PER_DAY).Some?
  {
    var kind := Weather.TranslateWeather(report.weatherId, later % TimeRounding.USEC_PER_DAY);
    if kind.None? then None
    else
      var local := Clock.LocalTime(utcNow, report.utcOffsetSeconds);
      Some(Icon(profileText, local, Truncate(report.temp), kind.value))
  }

  /** A cycle that does nothing but sleep. */
  function Idle(history: seq<Photo>): Outcome
  {
    Outcome([], [], [], history, None, None, IDLE_SLEEP)
  }

  /** The sleep after a failed remote call: `seconds + 1` after a flood wait, 10 after any other error. */
  function Interrupted(requests: seq<Request>, deleted: seq<Photo>, history: seq<Photo>, flood: Option<nat>): Outcome
  {
    Outcome(requests, deleted, [], history, None, flood, if flood.Some? then flood.value + 1 else IDLE_SLEEP)
  }

  /**
    The effect of one cycle, as a function of the shared target, the last
    update time and the history before it.
  */
  function CycleSpec(target: Target, lastUpdate: Option<int>, history: seq<Photo>, tick: Tick): (o: Outcome)
    ensures |o.requests| <= 3 && |o.uploaded| <= 1
    ensures o.requests != [] ==> (o.requests[0].DeletePhotos? <==> |history| == HISTORY_CAPACITY)
    ensures o.uploaded != [] ==>
      |o.requests| >= 2 && o.requests[|o.requests| - 1].UploadAvatar? && o.requests[|o.requests| - 2].FetchWeather?
  {
    if !TimeRounding.UpdateNeeded(lastUpdate, tick.now) || !IsComplete(target) then Idle(history)
    else if |history| == HISTORY_CAPACITY && !tick.deletion.Deleted? then
      Interrupted([DeletePhotos(history)], [], history,
                  if tick.deletion.DeleteFlood? then Some(tick.deletion.seconds) else None)
    else
      var full := |history| == HISTORY_CAPACITY;
      var deleted := if full then history else [];
      var kept := if full then [] else history;
      var fetched := (if full then [DeletePhotos(history)] else []) + [FetchWeather(target.lat.value, target.lon.value)];
      if !tick.weather.Report? then Outcome(fetched, deleted, [], kept, None, None, IDLE_SLEEP)
      else match MakeIcon(target.profileText.value, tick.weather, tick.utcNow, tick.later)
        case None => Interrupted(fetched, deleted, kept, None)
        case Some(icon) =>
          var sent := fetched + [UploadAvatar(icon)];
          match tick.upload
          case Uploaded(p) => Outcome(sent, deleted, [p], kept + [p], Some(tick.later), None, IDLE_SLEEP)
          case UploadFlood(s) => Interrupted(sent, deleted, kept, Some(s))
          case UploadFailed => Interrupted(sent, deleted, kept, None)
  }

  // ---------------------------------------------------------------------
  // What one cycle guarantees

  /** Nothing is sent while the current slot is already published or no target is set. */
  lemma IdleUnlessDueAndSet(target: Target, lastUpdate: Option<int>, history: seq<Photo>, tick: Tick)
    ensures var o := CycleSpec(target, lastUpdate, history, tick);
      o.requests == [] <==> !TimeRounding.UpdateNeeded(lastUpdate, tick.now) || !IsComplete(target)
    ensures var o := CycleSpec(target, lastUpdate, history, tick);
      o.requests == [] ==> o == Idle(history)
  {
  }

  /**
    Every photo is accounted for: the history before the cycle followed by
    what it uploaded is what it deleted followed by the history after it.
  */
  lemma CycleConservesPhotos(target: Target, lastUpdate: Option<int>, history: seq<Photo>, tick: Tick)
    ensures var o := CycleSpec(target, lastUpdate, history, tick);
      history + o.uploaded == o.deleted + o.history
  {
    var o := CycleSpec(target, lastUpdate, history, tick);
    if !TimeRounding.UpdateNeeded(lastUpdate, tick.now) || !IsComplete(target) {
      assert o.uploaded == [] && o.deleted == [] && o.history == history;
    } else if |history| == HISTORY_CAPACITY && !tick.deletion.Deleted? {
      assert o.uploaded == [] && o.deleted == [] && o.history == history;
    } else if |history| == HISTORY_CAPACITY {
      assert o.deleted == history && o.history == o.uploaded;
    } else {
      assert o.deleted == [] && o.history == history + o.uploaded;
    }
  }

  /**
    The gallery is cleared only when it holds exactly ten photos, and then all
    ten at once; the history never grows past ten; at most one photo is
    uploaded per cycle.
  */
  lemma CycleBoundsHistory(target: Target, lastUpdate: Option<int>, history: seq<Photo>, tick: Tick)
    requires |history| <= HISTORY_CAPACITY
    ensures var o := CycleSpec(target, lastUpdate, history, tick);
      |o.history| <= HISTORY_CAPACITY && |o.uploaded| <= 1
    ensures var o := CycleSpec(target, lastUpdate, history, tick);
      o.deleted != [] ==> |history| == HISTORY_CAPACITY && o.deleted == history
    ensures var o := CycleSpec(target, lastUpdate, history, tick);
      forall r :: r in o.requests && r.DeletePhotos? ==> r.photos == history && |history| == HISTORY_CAPACITY
  {
  }

  /**
    A due cycle with a complete target and ten photos held starts with the
    clean-up of exactly those ten. Only when it succeeds does the cycle go
    on to the weather request, having deleted all ten; otherwise it stops
    there and keeps them. A photo uploaded after the clean-up is then the
    whole history.
  */
  lemma FullHistoryRotates(target: Target, lastUpdate: Option<int>, history: seq<Photo>, tick: Tick)
    requires TimeRounding.UpdateNeeded(lastUpdate, tick.now) && IsComplete(target)
    requires |history| == HISTORY_CAPACITY
    ensures var o := CycleSpec(target, lastUpdate, history, tick);
      |o.requests| >= 1 && o.requests[0] == DeletePhotos(history)
    ensures var o := CycleSpec(target, lastUpdate, history, tick);
      tick.deletion.Deleted? <==> o.deleted == history
    ensures var o := CycleSpec(target, lastUpdate, history, tick);
      tick.deletion.Deleted? ==> |o.requests| >= 2 && o.requests[1] == FetchWeather(target.lat.value, target.lon.value)
    ensures var o := CycleSpec(target, lastUpdate, history, tick);
      !tick.deletion.Deleted? ==> o.requests == [DeletePhotos(history)] && o.history == history && o.uploaded == []
    ensures var o := CycleSpec(target, lastUpdate, history, tick);
      o.uploaded != [] ==> o.history == o.uploaded && |o.history| == 1
  {
  }

  /**
    The last-update time moves exactly when a photo was uploaded, and then to
    the clock reading after the upload; a flood wait is recorded only on a
    cycle that uploaded nothing, and it sets the sleep to one second more.
  */
  lemma CycleStampsUploads(target: Target, lastUpdate: Option<int>, history: seq<Photo>, tick: Tick)
    ensures var o := CycleSpec(target, lastUpdate, history, tick);
      o.stamp.Some? <==> o.uploaded != []
    ensures var o := CycleSpec(target, lastUpdate, history, tick);
      o.stamp.Some? ==> o.stamp == Some(tick.later) && o.uploaded == [tick.upload.photo] && o.floodWait.None?
    ensures var o := CycleSpec(target, lastUpdate, history, tick);
      o.sleep == (if o.floodWait.Some? then o.floodWait.value + 1 else IDLE_SLEEP)
  {
  }

  /**
    What is uploaded: the caption with its space and hyphen runs collapsed, a
    clock label on a 5-minute mark of the place's local time, the truncated
    temperature, and the picture for the weather code.
  */
  lemma UploadedIconWellFormed(target: Target, lastUpdate: Option<int>, history: seq<Photo>, tick: Tick, icon: Icon)
    requires UploadAvatar(icon) in CycleSpec(target, lastUpdate, history, tick).requests
    ensures icon.profileText == target.profileText.value && icon.temp == Truncate(tick.weather.temp)
    ensures icon.localTime == Clock.LocalTime(tick.utcNow, tick.weather.utcOffsetSeconds)
    ensures icon.CaptionText() == Caption.CollapseRuns(target.profileText.value)
    ensures Caption.NoDoubleSeparator(icon.CaptionText())
    ensures exists h, m :: Clock.ParseClock(icon.TimeText()) == Some(Clock.ClockTime(h, m)) && 0 <= h < 24 && 0 <= m < 60 && m % 5 == 0
    ensures Weather.ParseSigned(icon.TempText()) == Some(Truncate(tick.weather.temp))
    ensures Weather.TranslateWeather(tick.weather.weatherId, tick.later % TimeRounding.USEC_PER_DAY) == Some(icon.kind)
  {
    var report := tick.weather;
    assert MakeIcon(target.profileText.value, report, tick.utcNow, tick.later) == Some(icon);
    var r := TimeRounding.RoundToNearest5Minutes(Clock.LocalTime(tick.utcNow, report.utcOffsetSeconds));
    TimeRounding.RoundLandsOnMark(Clock.LocalTime(tick.utcNow, report.utcOffsetSeconds));
    Clock.ParseFormatClock(r);
    assert Clock.ParseClock(icon.TimeText()) == Some(Clock.ClockTime(Clock.HourOfDay(r), TimeRounding.MinuteOf(r)));
    Weather.FormatTemperatureRoundTrip(Truncate(report.temp));
  }

  /** After an upload, a later tick in the same 5-minute slot does nothing. */
  lemma NoSecondUploadInSlot(target: Target, lastUpdate: Option<int>, history: seq<Photo>, tick: Tick, next: Tick)
    requires CycleSpec(target, lastUpdate, history, tick).uploaded != []
    requires TimeRounding.RoundToNearest5Minutes(next.now) == TimeRounding.RoundToNearest5Minutes(tick.later)
    ensures var o := CycleSpec(target, lastUpdate, history, tick);
      CycleSpec(target, o.stamp, o.history, next) == Idle(o.history)
  {
    CycleStampsUploads(target, lastUpdate, history, tick);
  }

  // ---------------------------------------------------------------------
  // The loop

  /**
    One pass of the `try` block. Returns the requests made, the history
    afterwards and the sleep; records the flood wait or the update time in
    `shared` as the outcome says, and touches nothing else.
  */
  method Cycle(shared: SharedData, toDelete: seq<Photo>, tick: Tick)
      returns (history: seq<Photo>, requests: seq<Request>, sleep: nat)
    modifies shared`lastFloodWait, shared`floodWaitUntil, shared`lastUpdateTime
    ensures var o := CycleSpec(old(shared.Get()), old(shared.GetLastTime()), toDelete, tick);
      history == o.history && requests == o.requests && sleep == o.sleep
    ensures var o := CycleSpec(old(shared.Get()), old(shared.GetLastTime()), toDelete, tick);
      shared.GetLastTime() == (if o.stamp.Some? then o.stamp else old(shared.GetLastTime()))
    ensures var o := CycleSpec(old(shared.Get()), old(shared.GetLastTime()), toDelete, tick);
      shared.GetFloodInfo() == NextFlood(old(shared.GetFloodInfo()), o, tick)
  {
    history, requests, sleep := toDelete, [], IDLE_SLEEP;
    var lastUpdate := shared.GetLastTime();
    if !TimeRounding.UpdateNeeded(lastUpdate, tick.now) {
      return;
    }
    var target := shared.Get();
    if !IsComplete(target) {
      return;
    }
    if |history| == HISTORY_CAPACITY {
      requests := requests + [DeletePhotos(history)];
      match tick.deletion {
        case Deleted =>
          history := [];
        case DeleteFlood(s) =>
          shared.SetFloodWait(s, tick.later);
          sleep := s + 1;
          return;
        case DeleteFailed =>
          return;
      }
    }
    requests := requests + [FetchWeather(target.lat.value, target.lon.value)];
    if !tick.weather.Report? {
      return;
    }
    var icon := MakeIcon(target.profileText.value, tick.weather, tick.utcNow, tick.later);
    if icon.None? {
      return;
    }
    requests := requests + [UploadAvatar(icon.value)];
    match tick.upload {
      case Uploaded(p) =>
        history := history + [p];
        shared.UpdateLastTime(tick.later);
      case UploadFlood(s) =>
        shared.SetFloodWait(s, tick.later);
        sleep := s + 1;
      case UploadFailed =>
    }
  }

  /** The shared-state change a bot command makes between two cycles. */
  method Apply(shared: SharedData, command: Command)
    modifies shared`cityName, shared`profileText, shared`lat, shared`lon, shared`running
    ensures command.SetTarget? ==> shared.Get() == Target(Some(command.city), Some(command.text), Some(command.lat), Some(command.lon))
    ensures !command.SetTarget? ==> shared.Get() == old(shared.Get())
    ensures shared.IsRunning() == (old(shared.IsRunning()) && !command.StopCommand?)
  {
    match command {
      case NoCommand =>
      case SetTarget(city, text, lat, lon) =>
        shared.Update(city, text, lat, lon);
      case StopCommand =>
        shared.Stop();
    }
  }

  /** The photos all cycles uploaded, or deleted, in order. */
  ghost function AllUploaded(outcomes: seq<Outcome>): seq<Photo>
  {
    if outcomes == [] then [] else AllUploaded(outcomes[..|outcomes| - 1]) + outcomes[|outcomes| - 1].uploaded
  }

  ghost function AllDeleted(outcomes: seq<Outcome>): seq<Photo>
  {
    if outcomes == [] then [] else AllDeleted(outcomes[..|outcomes| - 1]) + outcomes[|outcomes| - 1].deleted
  }

  lemma {:induction false} AccountStep(outcomes: seq<Outcome>, o: Outcome, before: seq<Photo>)
    requires AllUploaded(outcomes) == AllDeleted(outcomes) + before
    requires before + o.uploaded == o.deleted + o.history
    ensures AllUploaded(outcomes + [o]) == AllDeleted(outcomes + [o]) + o.history
  {
    var next := outcomes + [o];
    assert next[..|next| - 1] == outcomes;
    calc {
      AllUploaded(next);
      AllDeleted(outcomes) + before + o.uploaded;
      { assert before + o.uploaded == o.deleted + o.history; }
      AllDeleted(outcomes) + (o.deleted + o.history);
      AllDeleted(next) + o.history;
    }
  }

  /** Every gallery clean-up among `requests` names exactly ten photos. */
  predicate DeletesFull(requests: seq<Request>)
  {
    forall r :: r in requests && r.DeletePhotos? ==> |r.photos| == HISTORY_CAPACITY
  }

  /** The target a cycle sees after the command that ran before it. */
  function NextTarget(target: Target, command: Command): Target
  {
    if command.SetTarget? then Target(Some(command.city), Some(command.text), Some(command.lat), Some(command.lon))
    else target
  }

  /** The last-update time after a cycle: its stamp when it uploaded, unchanged otherwise. */
  function NextLast(lastUpdate: Option<int>, o: Outcome): Option<int>
  {
    if o.stamp.Some? then o.stamp else lastUpdate
  }

  /**
    The flood-wait record after a cycle: the wait it was told to take and the
    instant, in microseconds, until which it lasts, both counted from the
    cycle's end; unchanged when the cycle saw no flood wait.
  */
  function NextFlood(flood: (Option<int>, Option<int>), o: Outcome, tick: Tick): (Option<int>, Option<int>)
  {
    if o.floodWait.Some?
    then (Some(o.floodWait.value as int), Some(tick.later + o.floodWait.value * TimeRounding.USEC_PER_SECOND))
    else flood
  }

  /**
    Cycle `k` of a run that started from `target0`: it saw the target the
    command before it left, it ran as `CycleSpec` says from the last-update
    time and history the cycles before it left, it left its own history and
    stamp for the next one, its requests and sleep are the ones logged, and
    it was not preceded by a stop.
  */
  ghost predicate CycleRan(target0: Target, ticks: seq<Tick>, log: seq<seq<Request>>, sleeps: seq<nat>,
                           outcomes: seq<Outcome>, targets: seq<Target>,
                           lasts: seq<Option<int>>, histories: seq<seq<Photo>>, k: int)
  {
    0 <= k < |outcomes| && k < |targets| && k < |ticks| && k + 1 < |lasts| && k + 1 < |histories|
    && k < |log| && k < |sleeps| && log[k] == outcomes[k].requests && sleeps[k] == outcomes[k].sleep
    && targets[k] == NextTarget(if k == 0 then target0 else targets[k - 1], ticks[k].command)
    && outcomes[k] == CycleSpec(targets[k], lasts[k], histories[k], ticks[k])
    && histories[k + 1] == outcomes[k].history && lasts[k + 1] == NextLast(lasts[k], outcomes[k])
    && !ticks[k].command.StopCommand?
  }

  /** Recording one more cycle keeps the earlier cycles' records. */
  lemma CycleRanExtend(target0: Target, ticks: seq<Tick>, log: seq<seq<Request>>, sleeps: seq<nat>,
                       outcomes: seq<Outcome>, targets: seq<Target>,
                       lasts: seq<Option<int>>, histories: seq<seq<Photo>>,
                       o: Outcome, t: Target, l: Option<int>, h: seq<Photo>)
    requires |log| == |sleeps| == |targets| == |outcomes| && |lasts| == |histories| == |outcomes| + 1
    requires forall k :: 0 <= k < |outcomes| ==> CycleRan(target0, ticks, log, sleeps, outcomes, targets, lasts, histories, k)
    requires |outcomes| < |ticks|
    requires t == NextTarget(if outcomes == [] then target0 else targets[|outcomes| - 1], ticks[|outcomes|].command)
    requires o == CycleSpec(t, lasts[|outcomes|], histories[|outcomes|], ticks[|outcomes|])
    requires h == o.history && l == NextLast(lasts[|outcomes|], o)
    requires !ticks[|outcomes|].command.StopCommand?
    ensures forall k :: 0 <= k <= |outcomes| ==>
      CycleRan(target0, ticks, log + [o.requests], sleeps + [o.sleep], outcomes + [o], targets + [t], lasts + [l], histories + [h], k)
  {
    var n := |outcomes|;
    forall k | 0 <= k <= n
      ensures CycleRan(target0, ticks, log + [o.requests], sleeps + [o.sleep], outcomes + [o], targets + [t], lasts + [l], histories + [h], k)
    {
      if k < n {
        assert CycleRan(target0, ticks, log, sleeps, outcomes, targets, lasts, histories, k);
        assert (log + [o.requests])[k] == log[k] && (sleeps + [o.sleep])[k] == sleeps[k];
        assert (targets + [t])[k] == targets[k];
        assert k > 0 ==> (targets + [t])[k - 1] == targets[k - 1];
        assert (outcomes + [o])[k] == outcomes[k];
        assert (lasts + [l])[k] == lasts[k] && (lasts + [l])[k + 1] == lasts[k + 1];
        assert (histories + [h])[k] == histories[k] && (histories + [h])[k + 1] == histories[k + 1];
      } else {
        assert (log + [o.requests])[k] == o.requests && (sleeps + [o.sleep])[k] == o.sleep;
        assert (targets + [t])[k] == t;
        assert k > 0 ==> (targets + [t])[k - 1] == targets[k - 1];
        assert (outcomes + [o])[k] == o;
        assert (lasts + [l])[k] == lasts[k] && (lasts + [l])[k + 1] == l;
        assert (histories + [h])[k] == histories[k] && (histories + [h])[k + 1] == h;
      }
    }
  }

  /** Recording one more cycle's flood-wait record keeps the earlier ones. */
  lemma FloodsExtend(floods: seq<(Option<int>, Option<int>)>, outcomes: seq<Outcome>, ticks: seq<Tick>,
                     o: Outcome, f: (Option<int>, Option<int>))
    requires |floods| == |outcomes| + 1 && |outcomes| < |ticks|
    requires forall k :: 0 <= k < |outcomes| ==> floods[k + 1] == NextFlood(floods[k], outcomes[k], ticks[k])
    requires f == NextFlood(floods[|outcomes|], o, ticks[|outcomes|])
    ensures forall k :: 0 <= k < |outcomes| + 1 ==>
      (floods + [f])[k + 1] == NextFlood((floods + [f])[k], (outcomes + [o])[k], ticks[k])
  {
    forall k | 0 <= k < |outcomes| + 1
      ensures (floods + [f])[k + 1] == NextFlood((floods + [f])[k], (outcomes + [o])[k], ticks[k])
    {
      assert (floods + [f])[k] == floods[k];
      if k < |outcomes| {
        assert (floods + [f])[k + 1] == floods[k + 1] && (outcomes + [o])[k] == outcomes[k];
      }
    }
  }

  lemma DeletesFullExtend(log: seq<seq<Request>>, requests: seq<Request>)
    requires forall k :: 0 <= k < |log| ==> DeletesFull(log[k])
    requires DeletesFull(requests)
    ensures forall k :: 0 <= k < |log| + 1 ==> DeletesFull((log + [requests])[k])
  {
  }

  /**
    Recording cycle `n` of a run, which saw `target` and produced `o` and
    the flood-wait record `flood`, keeps every record of the run consistent:
    the earlier cycles' records, the bound on the history, the photo account
    and the size of every deletion.
  */
  lemma RecordCycle(target0: Target, ticks: seq<Tick>, log: seq<seq<Request>>, sleeps: seq<nat>,
                    outcomes: seq<Outcome>, targets: seq<Target>, lasts: seq<Option<int>>, histories: seq<seq<Photo>>,
                    floods: seq<(Option<int>, Option<int>)>, target: Target, o: Outcome, flood: (Option<int>, Option<int>))
    requires |log| == |sleeps| == |targets| == |outcomes| < |ticks|
    requires |lasts| == |histories| == |floods| == |outcomes| + 1
    requires forall k :: 0 <= k < |outcomes| ==> CycleRan(target0, ticks, log, sleeps, outcomes, targets, lasts, histories, k)
    requires forall k :: 0 <= k < |outcomes| ==> floods[k + 1] == NextFlood(floods[k], outcomes[k], ticks[k])
    requires |histories[|outcomes|]| <= HISTORY_CAPACITY
    requires AllUploaded(outcomes) == AllDeleted(outcomes) + histories[|outcomes|]
    requires forall k :: 0 <= k < |log| ==> DeletesFull(log[k])
    requires target == NextTarget(if outcomes == [] then target0 else targets[|outcomes| - 1], ticks[|outcomes|].command)
    requires !ticks[|outcomes|].command.StopCommand?
    requires o == CycleSpec(target, lasts[|outcomes|], histories[|outcomes|], ticks[|outcomes|])
    requires flood == NextFlood(floods[|outcomes|], o, ticks[|outcomes|])
    ensures forall k :: 0 <= k <= |outcomes| ==>
      CycleRan(target0, ticks, log + [o.requests], sleeps + [o.sleep], outcomes + [o], targets + [target],
               lasts + [NextLast(lasts[|outcomes|], o)], histories + [o.history], k)
    ensures forall k :: 0 <= k < |outcomes| + 1 ==>
      (floods + [flood])[k + 1] == NextFlood((floods + [flood])[k], (outcomes + [o])[k], ticks[k])
    ensures |o.history| <= HISTORY_CAPACITY
    ensures AllUploaded(outcomes + [o]) == AllDeleted(outcomes + [o]) + o.history
    ensures forall k :: 0 <= k < |log| + 1 ==> DeletesFull((log + [o.requests])[k])
  {
    var n := |outcomes|;
    CycleConservesPhotos(target, lasts[n], histories[n], ticks[n]);
    CycleBoundsHistory(target, lasts[n], histories[n], ticks[n]);
    AccountStep(outcomes, o, histories[n]);
    CycleRanExtend(target0, ticks, log, sleeps, outcomes, targets, lasts, histories, o, target,
                   NextLast(lasts[n], o), o.history);
    DeletesFullExtend(log, o.requests);
    FloodsExtend(floods, outcomes, ticks, o, flood);
  }

  /**
    `while shared_data.is_running()`: runs one cycle per tick, applying each
    tick's command first, until the ticks run out or a stop is seen.
    Cycle `k` behaves as `CycleSpec` says for the target in force, the
    last-update time left by the cycles before it and the history they left,
    which starts empty (`to_delete = []`); its requests and sleep are the ones
    logged. The loop stops exactly at the first stop command (or at once when
    it was already stopped). Across the run the history never holds more than
    ten photos, every photo ever uploaded has either been deleted or is still
    in the history, and every deletion names ten photos.
  */
  method Run(shared: SharedData, ticks: seq<Tick>)
      returns (history: seq<Photo>, log: seq<seq<Request>>, sleeps: seq<nat>,
               ghost outcomes: seq<Outcome>, ghost targets: seq<Target>,
               ghost lasts: seq<Option<int>>, ghost histories: seq<seq<Photo>>,
               ghost floods: seq<(Option<int>, Option<int>)>)
    modifies shared
    ensures |log| == |sleeps| == |outcomes| == |targets| <= |ticks|
    ensures |lasts| == |histories| == |outcomes| + 1
    ensures histories[0] == [] && history == histories[|outcomes|]
    ensures lasts[0] == old(shared.GetLastTime()) && shared.GetLastTime() == lasts[|outcomes|]
    ensures forall k :: 0 <= k < |outcomes| ==> CycleRan(old(shared.Get()), ticks, log, sleeps, outcomes, targets, lasts, histories, k)
    ensures |outcomes| < |ticks| ==>
      !shared.IsRunning() && (ticks[|outcomes|].command.StopCommand? || (|outcomes| == 0 && !old(shared.IsRunning())))
    ensures !old(shared.IsRunning()) ==> |outcomes| == 0 && !shared.IsRunning()
    ensures |outcomes| == |ticks| ==> shared.IsRunning() == old(shared.IsRunning())
    ensures var inForce := if outcomes == [] then old(shared.Get()) else targets[|outcomes| - 1];
      shared.Get() == if |outcomes| < |ticks| then NextTarget(inForce, ticks[|outcomes|].command) else inForce
    ensures |floods| == |outcomes| + 1 && floods[0] == old(shared.GetFloodInfo()) && shared.GetFloodInfo() == floods[|outcomes|]
    ensures forall k :: 0 <= k < |outcomes| ==> floods[k + 1] == NextFlood(floods[k], outcomes[k], ticks[k])
    ensures |history| <= HISTORY_CAPACITY
    ensures AllUploaded(outcomes) == AllDeleted(outcomes) + history
    ensures forall k :: 0 <= k < |log| ==> DeletesFull(log[k])
  {
    ghost var target0 := shared.Get();
    history, log, sleeps, outcomes := [], [], [], [];
    targets, lasts, histories := [], [shared.GetLastTime()], [[]];
    floods := [shared.GetFloodInfo()];
    var i := 0;
    while i < |ticks|
      invariant i == |log| == |sleeps| == |outcomes| == |targets| <= |ticks|
      invariant |lasts| == |histories| == i + 1
      invariant histories[0] == [] && history == histories[i]
      invariant lasts[0] == old(shared.GetLastTime()) && shared.GetLastTime() == lasts[i]
      invariant target0 == old(shared.Get())
      invariant i > 0 ==> shared.Get() == targets[i - 1] && shared.IsRunning() && old(shared.IsRunning())
      invariant i == 0 ==> shared.Get() == target0 && shared.IsRunning() == old(shared.IsRunning())
      invariant forall k :: 0 <= k < i ==> CycleRan(target0, ticks, log, sleeps, outcomes, targets, lasts, histories, k)
      invariant |history| <= HISTORY_CAPACITY
      invariant AllUploaded(outcomes) == AllDeleted(outcomes) + history
      invariant forall k :: 0 <= k < |log| ==> DeletesFull(log[k])
      invariant |floods| == i + 1 && floods[0] == old(shared.GetFloodInfo()) && shared.GetFloodInfo() == floods[i]
      invariant forall k :: 0 <= k < i ==> floods[k + 1] == NextFlood(floods[k], outcomes[k], ticks[k])
    {
      ghost var inForce := shared.Get();
      Apply(shared, ticks[i].command);
      if !shared.IsRunning() {
        assert shared.Get() == NextTarget(inForce, ticks[i].command);
        break;
      }
      assert shared.GetLastTime() == lasts[i] && shared.GetFloodInfo() == floods[i];
      ghost var target, last := shared.Get(), shared.GetLastTime();
      ghost var o := CycleSpec(target, last, history, ticks[i]);
      var requests, sleep;
      history, requests, sleep := Cycle(shared, history, ticks[i]);
      assert history == o.history && requests == o.requests && sleep == o.sleep;
      assert shared.GetLastTime() == NextLast(last, o);
      assert shared.Get() == target && shared.IsRunning();
      RecordCycle(target0, ticks, log, sleeps, outcomes, targets, lasts, histories, floods, target, o, shared.GetFloodInfo());
      log, sleeps, outcomes := log + [requests], sleeps + [sleep], outcomes + [o];
      targets, lasts, histories := targets + [target], lasts + [shared.GetLastTime()], histories + [history];
      floods := floods + [shared.GetFloodInfo()];
      i := i + 1;
    }
  }
}
