/** The current-weather record the program reads from the weather service, and
    the stale-value fallback of `callWeatherAPI`: a failed fetch hands back the
    value the caller already had. The request itself is outside the model; its
    outcome is an input. */
module Weather {
  import opened Wrappers

  /** The fields of the service's "current" object that the program reads:
      the temperature (already an integer here) and sunrise and sunset as Unix
      times. */
  datatype Weather = Weather(temp: int, sunrise: int, sunset: int)

  /** Outcome of one request to the weather service. */
  datatype Fetch = Fetched(current: Weather) | FetchFailed

  /** The weather value the program holds after a request, given the value it
      held before (`None` is the program's initial empty object). */
  function CallWeatherApi(fetch: Fetch, last: Option<Weather>): (r: Option<Weather>)
    ensures fetch.FetchFailed? ==> r == last
    ensures fetch.Fetched? ==> r == Some(fetch.current)
  {
    match fetch
    case Fetched(current) => Some(current)
    case FetchFailed => last
  }

  /** Once the program holds a weather value it never loses it again. */
  lemma FallbackNeverBlanks(fetch: Fetch, last: Option<Weather>)
    requires last.Some?
    ensures CallWeatherApi(fetch, last).Some?
  {
  }
}
