/**
 * The HTTP exchange as the clients see it. The network is an oracle: the
 * `n`-th request a call makes receives `net(n)`, a response (status,
 * Location header, body) or a client failure, together with the time it
 * took. A call's visible behaviour is its trace of steps: pacer waits,
 * observer events and requests sent.
 */
module Http {
  import opened Wrappers
  import opened Text
  import Observe

  /** A failure of the HTTP client, as its `is_timeout` and `is_connect`
      predicates classify it. */
  datatype ClientError = TimedOut | ConnectFailed | OtherFailure

  /** The observer class of a client failure. */
  function TransportClass(e: ClientError): (c: Observe.ErrorClass)
    ensures c == Observe.Timeout <==> e == TimedOut
    ensures c == Observe.Connect <==> e == ConnectFailed
    ensures c == Observe.Other <==> e == OtherFailure
  {
    match e
    case TimedOut => Observe.Timeout
    case ConnectFailed => Observe.Connect
    case OtherFailure => Observe.Other
  }

  /** A received response: its status, the raw bytes of its Location header
      if it has one, and its body or the failure met while reading it. */
  datatype Response = Response(status: U16, location: Option<seq<U8>>, body: Result<seq<U8>, ClientError>)

  /** What the network gives one request, and how long it took. */
  datatype Reply = Reply(outcome: Result<Response, ClientError>, elapsed: Observe.Duration)

  type Network = nat -> Reply

  const OK: U16 := 200
  const FOUND: U16 := 302
  const BAD_GATEWAY: U16 := 502

  predicate IsVisibleAscii(b: U8) {
    b == 9 || (32 <= b < 127)
  }

  /** `HeaderValue::to_str`: the header as text when it holds only visible
      ASCII characters or tabs. */
  function HeaderText(h: seq<U8>): (r: Option<string>)
    ensures r.Some? <==> forall i :: 0 <= i < |h| ==> IsVisibleAscii(h[i])
    ensures r.Some? ==> |r.value| == |h| && forall i :: 0 <= i < |h| ==> r.value[i] as int == h[i] as int
  {
    if forall i :: 0 <= i < |h| ==> IsVisibleAscii(h[i]) then
      Some(seq(|h|, i requires 0 <= i < |h| => h[i] as char))
    else None
  }

  /** The Location of a response, as text, when it is present and readable. */
  function LocationText(r: Response): Option<string> {
    if r.location.Some? then HeaderText(r.location.value) else None
  }

  /** One visible step of a call. */
  datatype Step = Pace | Emit(event: Observe.Event) | Send(httpMethod: string, url: string)

  function Paced(pacer: bool): seq<Step> {
    if pacer then [Pace] else []
  }

  function Emitted(observer: bool, e: Observe.Event): seq<Step> {
    if observer then [Emit(e)] else []
  }

  /** Whether the pacer runs before or after the start event. */
  datatype Order = PaceThenStart | StartThenPace

  /** One request as the trace shows it: where the pacer ran, what was sent,
      and the events that followed it. */
  datatype RequestRecord = RequestRecord(
    order: Order, surface: Observe.Surface, httpMethod: string, url: string, after: seq<Observe.Event>)

  function EmittedAll(observer: bool, es: seq<Observe.Event>): (steps: seq<Step>)
    ensures |steps| == if observer then |es| else 0
    ensures observer ==> forall i :: 0 <= i < |es| ==> steps[i] == Emit(es[i])
  {
    if !observer || es == [] then [] else [Emit(es[0])] + EmittedAll(observer, es[1..])
  }

  /** The steps of one request: pacer and start event (in the recorded
      order), the request itself, then the events that followed. */
  function RecordSteps(pacer: bool, observer: bool, r: RequestRecord): seq<Step> {
    var start := Emitted(observer, Observe.StartEvent(r.surface, r.httpMethod, r.url));
    var opening := if r.order == PaceThenStart then Paced(pacer) + start else start + Paced(pacer);
    opening + [Send(r.httpMethod, r.url)] + EmittedAll(observer, r.after)
  }

  function Steps(pacer: bool, observer: bool, rs: seq<RequestRecord>): seq<Step> {
    if rs == [] then [] else RecordSteps(pacer, observer, rs[0]) + Steps(pacer, observer, rs[1..])
  }

  /** The event discipline for one request: the first event after it is
      the one completion or error event for the same surface, method and
      URL. */
  predicate Closed(r: RequestRecord) {
    && |r.after| >= 1
    && Observe.RequestEvents([Observe.StartEvent(r.surface, r.httpMethod, r.url), r.after[0]])
  }

  /** The closing event of a request that failed to send. */
  function SendFailed(surface: Observe.Surface, httpMethod: string, url: string, e: ClientError,
                      elapsed: Observe.Duration): (ev: Observe.Event)
    ensures Closed(RequestRecord(PaceThenStart, surface, httpMethod, url, [ev]))
    ensures ev.phase == Observe.Error && ev.error == Some(TransportClass(e)) && ev.status.None?
  {
    Observe.ErrorEvent(surface, httpMethod, url, None, Some(elapsed), TransportClass(e))
  }

  /** The closing event of a request answered with an unexpected status. */
  function StatusFailed(surface: Observe.Surface, httpMethod: string, url: string, status: U16,
                        elapsed: Observe.Duration): (ev: Observe.Event)
    ensures Closed(RequestRecord(PaceThenStart, surface, httpMethod, url, [ev]))
    ensures ev.phase == Observe.Error && ev.error == Some(Observe.Http) && ev.status == Some(status)
  {
    Observe.ErrorEvent(surface, httpMethod, url, Some(status), Some(elapsed), Observe.Http)
  }

  /** The closing event of a request answered as expected. */
  function Completed(surface: Observe.Surface, httpMethod: string, url: string, status: U16,
                     elapsed: Observe.Duration): (ev: Observe.Event)
    ensures Closed(RequestRecord(PaceThenStart, surface, httpMethod, url, [ev]))
    ensures ev.phase == Observe.Complete && ev.status == Some(status)
  {
    Observe.CompleteEvent(surface, httpMethod, url, status, elapsed)
  }

  lemma {:induction false} EmittedAllSnoc(observer: bool, es: seq<Observe.Event>, e: Observe.Event)
    ensures EmittedAll(observer, es + [e]) == EmittedAll(observer, es) + Emitted(observer, e)
  {
    if observer && es != [] {
      assert (es + [e])[1..] == es[1..] + [e];
      EmittedAllSnoc(observer, es[1..], e);
    }
  }

  /** An event that follows a request extends its steps by that event's
      emission and nothing else. */
  lemma RecordStepsSnoc(pacer: bool, observer: bool, r: RequestRecord, e: Observe.Event)
    ensures RecordSteps(pacer, observer, r.(after := r.after + [e]))
         == RecordSteps(pacer, observer, r) + Emitted(observer, e)
  {
    EmittedAllSnoc(observer, r.after, e);
  }

  /** The trace of several requests splits at a request boundary. */
  lemma StepsAppend(pacer: bool, observer: bool, a: seq<RequestRecord>, b: seq<RequestRecord>)
    ensures Steps(pacer, observer, a + b) == Steps(pacer, observer, a) + Steps(pacer, observer, b)
  {
    if a == [] {
      assert a + b == b;
    } else {
      assert (a + b)[1..] == a[1..] + b;
      StepsAppend(pacer, observer, a[1..], b);
    }
  }

  /** A further request extends the trace by that request's steps. */
  lemma StepsSnoc(pacer: bool, observer: bool, rs: seq<RequestRecord>, r: RequestRecord)
    ensures Steps(pacer, observer, rs + [r]) == Steps(pacer, observer, rs) + RecordSteps(pacer, observer, r)
  {
    StepsAppend(pacer, observer, rs, [r]);
    assert [r][1..] == [];
  }
}
