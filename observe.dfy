/**
 * Observer events (`src/util/observe.rs`): what the library reports around
 * each HTTP request. An event names the surface (CDX search or content), the
 * phase (start, completion or error), the request method and URL, and, by
 * phase, the HTTP status, the elapsed time and an error class.
 */
module Observe {
  import opened Wrappers
  import opened Text

  datatype Surface = Cdx | Content

  datatype Phase = Start | Complete | Error

  /** Coarse classification of a failed request. */
  datatype ErrorClass = Timeout | Connect | Tls | Protocol | Decode | Blocked | Http | Other

  /** A duration, in nanoseconds. */
  type Duration = nat

  datatype Event = Event(
    surface: Surface,
    phase: Phase,
    httpMethod: string,
    url: string,
    status: Option<U16>,
    elapsed: Option<Duration>,
    error: Option<ErrorClass>,
    extras: seq<(string, string)>)

  /** The shape every event built by the library has: an error class exactly
      on error events, a status and an elapsed time on completions, none of
      the three on start events, and no extras. */
  predicate WellFormed(e: Event) {
    && (e.error.Some? <==> e.phase == Error)
    && (e.phase == Start ==> e.status.None? && e.elapsed.None?)
    && (e.phase == Complete ==> e.status.Some? && e.elapsed.Some?)
    && e.extras == []
  }

  /** `Event::start`. */
  function StartEvent(surface: Surface, httpMethod: string, url: string): (e: Event)
    ensures WellFormed(e) && e.phase == Start
    ensures e.surface == surface && e.httpMethod == httpMethod && e.url == url
  {
    Event(surface, Start, httpMethod, url, None, None, None, [])
  }

  /** `Event::complete`. */
  function CompleteEvent(surface: Surface, httpMethod: string, url: string, status: U16, elapsed: Duration): (e: Event)
    ensures WellFormed(e) && e.phase == Complete
    ensures e.surface == surface && e.httpMethod == httpMethod && e.url == url
    ensures e.status == Some(status) && e.elapsed == Some(elapsed)
  {
    Event(surface, Complete, httpMethod, url, Some(status), Some(elapsed), None, [])
  }

  /** `Event::error`: status and elapsed time are passed through as given. */
  function ErrorEvent(surface: Surface, httpMethod: string, url: string, status: Option<U16>,
                      elapsed: Option<Duration>, error: ErrorClass): (e: Event)
    ensures WellFormed(e) && e.phase == Error && e.error == Some(error)
    ensures e.surface == surface && e.httpMethod == httpMethod && e.url == url
    ensures e.status == status && e.elapsed == elapsed
  {
    Event(surface, Error, httpMethod, url, status, elapsed, Some(error), [])
  }

  /** The three constructors build exactly the well-formed events. */
  lemma WellFormedIsConstructed(e: Event)
    ensures WellFormed(e) <==>
      || e == StartEvent(e.surface, e.httpMethod, e.url)
      || (e.status.Some? && e.elapsed.Some?
          && e == CompleteEvent(e.surface, e.httpMethod, e.url, e.status.value, e.elapsed.value))
      || (e.error.Some? && e == ErrorEvent(e.surface, e.httpMethod, e.url, e.status, e.elapsed, e.error.value))
  {
  }

  /** The events of one request: a start, then exactly one completion or
      error, for the same surface, method and URL. */
  predicate RequestEvents(t: seq<Event>) {
    && |t| == 2
    && WellFormed(t[0]) && WellFormed(t[1])
    && t[0].phase == Start && t[1].phase != Start
    && t[1].surface == t[0].surface && t[1].httpMethod == t[0].httpMethod && t[1].url == t[0].url
  }
}
