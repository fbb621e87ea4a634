/** The main loop, one tick at a time. Each tick compares the clock with the
    sync deadline; past it, the deadline moves an hour ahead and the time
    service and the weather service are asked again. Then the temperatures
    are written and coloured.

    The clock, the time service, the weather service and the sensor are
    inputs (`Event`); the display calls are the emitted `Command`s. */
module Poll {
  import opened Wrappers
  import opened Numerals
  import opened Weather
  import opened Display

  /** Seconds between two weather syncs. */
  const RefreshInterval: int := 60 * 60

  /** What the loop keeps between ticks: the next sync deadline, the time
      reported by the time service at the last sync, and the weather value
      (`None` until a fetch has succeeded). */
  datatype SyncState = SyncState(deadline: int, timestamp: int, weather: Option<Weather>)

  const Start := SyncState(0, 0, None)

  /** The inputs of one tick: the clock, what the time service and the weather
      service would answer if asked, and the sensor's indoor temperature. */
  datatype Event = Event(now: int, timeService: int, fetch: Fetch, indoor: int)

  /** The sync is strict: at the deadline itself nothing is fetched. */
  function ShouldRefetch(now: int, deadline: int): (refetch: bool)
    ensures !refetch <==> now <= deadline
    ensures now == deadline ==> !refetch
  {
    now > deadline
  }

  /** The sync part of a tick. */
  function Sync(s: SyncState, e: Event): (s': SyncState)
    ensures e.now <= s'.deadline
    ensures s.deadline <= s'.deadline
    ensures s'.deadline != s.deadline <==> ShouldRefetch(e.now, s.deadline)
    ensures ShouldRefetch(e.now, s.deadline) ==> s'.deadline == e.now + RefreshInterval
    ensures ShouldRefetch(e.now, s.deadline) ==> s'.timestamp == e.timeService
    ensures !ShouldRefetch(e.now, s.deadline) ==> s' == s
    ensures e.fetch.FetchFailed? ==> s'.weather == s.weather
    ensures ShouldRefetch(e.now, s.deadline) && e.fetch.Fetched? ==> s'.weather == Some(e.fetch.current)
  {
    if ShouldRefetch(e.now, s.deadline) then
      SyncState(e.now + RefreshInterval, e.timeService, CallWeatherApi(e.fetch, s.weather))
    else
      s
  }

  /** A complete frame: two text writes followed by six colour assignments. */
  predicate FullFrame(cmds: seq<Command>) {
    && |cmds| == 8
    && (forall j :: 0 <= j < 2 ==> cmds[j].SetText?)
    && (forall j :: 2 <= j < 8 ==> cmds[j].SetTextColor?)
  }

  /** A tick either renders and continues, or stops the loop with an error. */
  datatype TickResult =
    | Continue(state: SyncState, commands: seq<Command>)
    | Crashed

  /** One tick as written: with no weather value held, reading its temperature
      fails and the loop stops. */
  function Tick(s: SyncState, units: string, e: Event): (r: TickResult)
    ensures r.Continue? ==> r.state == Sync(s, e) && FullFrame(r.commands)
  {
    var s' := Sync(s, e);
    var indoorText := DecimalText(e.indoor);
    match s'.weather
    case None => Crashed
    case Some(w) =>
      match DetermineColors(w, indoorText, units, s'.timestamp)
      case None => Crashed
      case Some(colours) =>
        Continue(s', WriteTemperatures(DecimalText(w.temp), indoorText) + colours)
  }

  /** A tick stops the loop exactly when no weather value is held after its
      sync; the indoor text never fails to parse. */
  lemma TickCrashesExactlyWithoutWeather(s: SyncState, units: string, e: Event)
    ensures Tick(s, units, e).Crashed? <==> Sync(s, e).weather.None?
  {
    IndoorTextParsesBack(e.indoor);
  }

  /** A rendering tick writes the indoor and outdoor texts to slots 4 and 5 and
      then colours slots 1, 3, 5, 0, 2, 4; the day/night decision is taken at
      the time-service timestamp of the last sync, not at the tick's clock. */
  lemma TickRenders(s: SyncState, units: string, e: Event)
    requires Sync(s, e).weather.Some?
    ensures var s' := Sync(s, e);
            var w := s'.weather.value;
            && Tick(s, units, e).Continue?
            && Tick(s, units, e).commands[0] == SetText(DecimalText(e.indoor), IndoorTextSlot)
            && Tick(s, units, e).commands[1] == SetText(DecimalText(w.temp), OutdoorTextSlot)
            && Tick(s, units, e).commands[2..]
               == DetermineColors(w, DecimalText(e.indoor), units, s'.timestamp).value
  {
    IndoorTextParsesBack(e.indoor);
  }

  /** Between syncs the clock reading does not affect what is shown. */
  lemma RenderIgnoresClockBetweenSyncs(s: SyncState, units: string, e1: Event, e2: Event)
    requires !ShouldRefetch(e1.now, s.deadline) && !ShouldRefetch(e2.now, s.deadline)
    requires e1.indoor == e2.indoor
    ensures Tick(s, units, e1) == Tick(s, units, e2)
  {
  }

  /** From the start state a tick stops the loop unless it syncs and the
      fetch succeeds. */
  lemma FirstFetchFailureCrashes(units: string, e: Event)
    ensures Tick(Start, units, e).Crashed? <==> (e.now <= 0 || e.fetch.FetchFailed?)
  {
    TickCrashesExactlyWithoutWeather(Start, units, e);
  }

  /** The tick as evidently intended: when there is nothing to show yet, the
      display is left as it is and the loop goes on. */
  function SafeTick(s: SyncState, units: string, e: Event): (r: (SyncState, seq<Command>))
    ensures r.0 == Sync(s, e)
    ensures FullFrame(r.1) <==> Sync(s, e).weather.Some?
    ensures |r.1| == 0 <==> Sync(s, e).weather.None?
  {
    TickCrashesExactlyWithoutWeather(s, units, e);
    match Tick(s, units, e)
    case Continue(s', commands) => (s', commands)
    case Crashed => (Sync(s, e), [])
  }

  /** The corrected tick never drops a frame the written one renders: once a
      weather value is held, both render the same frame from the same state. */
  lemma SafeTickAgreesWhenTickRenders(s: SyncState, units: string, e: Event)
    requires Sync(s, e).weather.Some?
    ensures Tick(s, units, e).Continue?
    ensures SafeTick(s, units, e) == (Tick(s, units, e).state, Tick(s, units, e).commands)
  {
    TickCrashesExactlyWithoutWeather(s, units, e);
  }

  // ---------------------------------------------------------------------------
  // Runs of many ticks

  /** The state after a sequence of ticks. */
  function SyncAll(s: SyncState, events: seq<Event>): SyncState
    decreases |events|
  {
    if events == [] then s else SyncAll(Sync(s, events[0]), events[1..])
  }

  /** The clock readings of the ticks that synced, in order. */
  function RefetchTimes(s: SyncState, events: seq<Event>): seq<int>
    decreases |events|
  {
    if events == [] then []
    else
      (if ShouldRefetch(events[0].now, s.deadline) then [events[0].now] else [])
      + RefetchTimes(Sync(s, events[0]), events[1..])
  }

  /** The frames a run of corrected ticks shows, one command list per tick. */
  function Run(s: SyncState, units: string, events: seq<Event>): (r: (SyncState, seq<seq<Command>>))
    ensures r.0 == SyncAll(s, events)
    ensures |r.1| == |events|
    decreases |events|
  {
    if events == [] then (s, [])
    else
      var (s1, frame) := SafeTick(s, units, events[0]);
      var (s2, frames) := Run(s1, units, events[1..]);
      (s2, [frame] + frames)
  }

  /** Frame `i` of a run is the frame the corrected tick `i` shows from the
      state the first `i` ticks left behind. */
  lemma {:induction false} RunFrameIsTickFrame(s: SyncState, units: string, events: seq<Event>)
    ensures forall i :: 0 <= i < |events| ==>
              Run(s, units, events).1[i] == SafeTick(SyncAll(s, events[..i]), units, events[i]).1
    decreases |events|
  {
    if events != [] {
      var s1 := Sync(s, events[0]);
      var rest := events[1..];
      RunFrameIsTickFrame(s1, units, rest);
      var frames := Run(s, units, events).1;
      assert frames == [SafeTick(s, units, events[0]).1] + Run(s1, units, rest).1;
      forall i | 0 <= i < |events|
        ensures frames[i] == SafeTick(SyncAll(s, events[..i]), units, events[i]).1
      {
        if i > 0 {
          assert events[..i][1..] == rest[..i - 1];
          assert events[..i] != [];
          assert SyncAll(s, events[..i]) == SyncAll(s1, rest[..i - 1]);
          assert events[i] == rest[i - 1];
        }
      }
    }
  }

  /** The start state's deadline 0 makes the first tick with a positive clock
      sync. */
  lemma FirstPositiveTickSyncs(now: int)
    ensures ShouldRefetch(now, Start.deadline) <==> now > 0
  {
  }

  /** Two syncs are always more than an hour apart, whatever the clock does,
      and the first comes only after the starting deadline. */
  lemma {:induction false} RefetchesSpaced(s: SyncState, events: seq<Event>)
    ensures var ts := RefetchTimes(s, events);
            && (|ts| > 0 ==> ts[0] > s.deadline)
            && forall i :: 0 <= i < |ts| - 1 ==> ts[i] + RefreshInterval < ts[i + 1]
    decreases |events|
  {
    if events != [] {
      var e := events[0];
      var s1 := Sync(s, e);
      RefetchesSpaced(s1, events[1..]);
      var rest := RefetchTimes(s1, events[1..]);
      if ShouldRefetch(e.now, s.deadline) {
        assert RefetchTimes(s, events) == [e.now] + rest;
      } else {
        assert RefetchTimes(s, events) == rest;
      }
    }
  }

  /** After a run the deadline lies at or beyond every clock reading seen. */
  lemma {:induction false} DeadlineCoversEveryTick(s: SyncState, events: seq<Event>)
    ensures SyncAll(s, events).deadline >= s.deadline
    ensures forall i :: 0 <= i < |events| ==> events[i].now <= SyncAll(s, events).deadline
    decreases |events|
  {
    if events != [] {
      var s1 := Sync(s, events[0]);
      DeadlineCoversEveryTick(s1, events[1..]);
      forall i | 0 <= i < |events|
        ensures events[i].now <= SyncAll(s, events).deadline
      {
        if i > 0 {
          assert events[i] == events[1..][i - 1];
        }
      }
    }
  }

  /** Running ticks one after another is running the prefix, then the last tick. */
  lemma {:induction false} SyncAllSnoc(s: SyncState, events: seq<Event>, e: Event)
    ensures SyncAll(s, events + [e]) == Sync(SyncAll(s, events), e)
    decreases |events|
  {
    if events != [] {
      assert (events + [e])[1..] == events[1..] + [e];
      SyncAllSnoc(Sync(s, events[0]), events[1..], e);
    }
  }

  /** Tick `i` of a run syncs and its weather request succeeds. */
  predicate FetchedAt(s: SyncState, events: seq<Event>, i: nat)
    requires i < |events|
  {
    ShouldRefetch(events[i].now, SyncAll(s, events[..i]).deadline) && events[i].fetch.Fetched?
  }

  /** The weather value held after a run is the one fetched by the last tick
      that synced with a successful request; with no such tick it is the value
      held before the run. Failed requests and ticks that do not sync leave it
      alone, and a held value is never lost. */
  lemma {:induction false} HeldWeatherIsLatestFetch(s: SyncState, events: seq<Event>)
    ensures (forall i :: 0 <= i < |events| ==> !FetchedAt(s, events, i)) ==>
              SyncAll(s, events).weather == s.weather
    ensures forall i :: 0 <= i < |events| && FetchedAt(s, events, i)
                        && (forall j :: i < j < |events| ==> !FetchedAt(s, events, j)) ==>
              SyncAll(s, events).weather == Some(events[i].fetch.current)
    ensures s.weather.Some? ==> SyncAll(s, events).weather.Some?
    decreases |events|
  {
    if events != [] {
      var n := |events| - 1;
      var prefix := events[..n];
      var last := events[n];
      assert events == prefix + [last];
      SyncAllSnoc(s, prefix, last);
      HeldWeatherIsLatestFetch(s, prefix);
      var p := SyncAll(s, prefix);
      assert events[..n] == prefix;
      forall i | 0 <= i < n
        ensures FetchedAt(s, events, i) == FetchedAt(s, prefix, i)
      {
        assert events[..i] == prefix[..i];
      }
      if !FetchedAt(s, events, n) {
        assert SyncAll(s, events).weather == p.weather;
      }
    }
  }

  /** Once a weather value is held, every later tick of a run shows a full
      frame: two texts and six colours. */
  lemma {:induction false} EveryFrameFullOnceWeatherHeld(s: SyncState, units: string, events: seq<Event>)
    requires s.weather.Some?
    ensures forall i :: 0 <= i < |events| ==> FullFrame(Run(s, units, events).1[i])
    decreases |events|
  {
    if events != [] {
      var s1 := Sync(s, events[0]);
      FallbackNeverBlanks(events[0].fetch, s.weather);
      EveryFrameFullOnceWeatherHeld(s1, units, events[1..]);
      var frames := Run(s, units, events).1;
      assert frames == [SafeTick(s, units, events[0]).1] + Run(s1, units, events[1..]).1;
    }
  }
}
