/**
 * The content downloader of the library (`src/downloader.rs`): archive
 * URLs, the resolution of a redirect snapshot (a HEAD, a guessed page
 * checked against the expected digest, a GET when the guess is wrong, and
 * a second HEAD on the redirect's target), the shallow variant without the
 * second HEAD, and downloads with their retry policy. The `n`-th request
 * of a call receives `net(n)`; SHA-1 is a parameter.
 */
module Downloader {
  import opened Wrappers
  import opened Text
  import Util
  import Items
  import Observe
  import Http
  import Retries
  import Digest
  import Utf8

  datatype Error =
    | Io(ioError: Digest.IoError)
    | Client(clientError: Http.ClientError)
    | UnexpectedRedirect(location: Option<string>)
    | UnexpectedRedirectUrl(redirectUrl: string)
    | UnexpectedStatus(status: U16)
    | InvalidUtf8

  const MILLISECOND: nat := 1_000_000
  const SECOND: nat := 1_000_000_000

  const MAX_RETRIES: U32 := 7
  const RETRY_INITIAL_DELAY: Observe.Duration := 250 * MILLISECOND
  const BAD_GATEWAY_DELAY: Observe.Duration := 30 * SECOND

  /** I/O and client failures back off exponentially, a 502 waits 30
      seconds, and every other error stops the retries. */
  function CustomRetryPolicy(e: Error): (p: Option<Retries.RetryPolicy>)
    ensures p.None? <==> e.Io? || e.Client?
    ensures p == Some(Retries.Delay(BAD_GATEWAY_DELAY)) <==> e == UnexpectedStatus(Http.BAD_GATEWAY)
    ensures p == Some(Retries.Break) <==> !(e.Io? || e.Client? || e == UnexpectedStatus(Http.BAD_GATEWAY))
  {
    match e
    case Io(_) => None
    case Client(_) => None
    case UnexpectedStatus(s) =>
      if s == Http.BAD_GATEWAY then Some(Retries.Delay(BAD_GATEWAY_DELAY)) else Some(Retries.Break)
    case _ => Some(Retries.Break)
  }

  /** The errors a download is retried on. */
  predicate Transient(e: Error) {
    e.Io? || e.Client? || e == UnexpectedStatus(Http.BAD_GATEWAY)
  }

  /** The `Retryable` implementation. */
  const RETRYABLE: Retries.RetryableSpec<Error> :=
    Retries.RetryableSpec(MAX_RETRIES, RETRY_INITIAL_DELAY, Some(Retries.Warn), CustomRetryPolicy)

  datatype RedirectResolution = RedirectResolution(
    url: string,
    timestamp: string,
    content: seq<U8>,
    validInitialContent: bool,
    validDigest: bool)

  const ARCHIVE_PREFIX: string := "https://web.archive.org/web/"

  /** The archive URL of a capture: `id_` asks for the original bytes,
      `if_` for the archive's rewritten page. */
  function WaybackUrl(url: string, timestamp: string, original: bool): (u: string)
  {
    ARCHIVE_PREFIX + timestamp + (if original then "id_" else "if_") + "/" + url
  }

  /** The `id_` archive URL of a one-line URL at a fourteen-digit timestamp
      is an archive URL naming that URL and timestamp. */
  lemma ParseOriginalUrl(url: string, timestamp: string)
    requires Items.IsLine(url) && |timestamp| == 14 && AllDigits(timestamp)
    ensures Items.ParseUrlInfo(WaybackUrl(url, timestamp, true)) == Success(Items.UrlInfo(url, timestamp))
  {
    var u := WaybackUrl(url, timestamp, true);
    Items.UrlLayout(ARCHIVE_PREFIX, timestamp, "id_", url);
    assert u[..8] == u[..|ARCHIVE_PREFIX|][..8] == "https://";
    assert !StartsWith(u, "http://") by {
      assert u[4] == 's';
    }
    assert Items.MatchScheme(u) == Some(8);
    var rest := u[8..];
    assert rest[..20] == u[8..28] == ARCHIVE_PREFIX[8..] == Items.HOST_PATTERN;
    Items.HostPatternMatchesItself();
    assert rest[20..34] == u[28..42];
    var tail := rest[34..];
    assert tail[..4] == u[42..46] == "id_/";
    assert tail[4..] == u[46..] == url;
  }

  /** The `if_` archive URL is never an archive URL in the parser's sense. */
  lemma ParseRewrittenUrlFails(url: string, timestamp: string)
    requires |timestamp| == 14
    ensures Items.ParseUrlInfo(WaybackUrl(url, timestamp, false)).Failure?
  {
    var u := WaybackUrl(url, timestamp, false);
    Items.UrlLayout(ARCHIVE_PREFIX, timestamp, "if_", url);
    assert u[..8] == u[..|ARCHIVE_PREFIX|][..8] == "https://";
    assert !StartsWith(u, "http://") by {
      assert u[4] == 's';
    }
    assert Items.MatchScheme(u) == Some(8);
    var tail := u[8..][34..];
    assert tail[..4] == u[42..46] == "if_/";
    assert tail[0] == 'i' && tail[1] == 'f';
  }

  /** Reading an in-memory byte slice cannot fail, so `compute_digest` over
      it is the encoded SHA-1 of those bytes. */
  lemma SliceDigest(bytes: seq<U8>, sha1: seq<U8> -> Digest.Sha1Value)
    ensures Digest.DigestOfStream([Digest.Data(bytes)], sha1) == Success(Digest.BytesToString(sha1(bytes)))
  {
    var results := [Digest.Data(bytes)];
    assert results[1..] == [];
    assert Digest.ReadToEnd([]) == Success([]);
    assert Digest.ReadToEnd(results) == Success(bytes) by {
      if bytes != [] {
        assert Digest.ReadToEnd(results) == Digest.Prepend(bytes, Digest.ReadToEnd(results[1..]));
        assert bytes + [] == bytes;
      }
    }
  }

  /** The digest of the page guessed for a redirect to `url` (by
      `SliceDigest`, what `compute_digest` gives over its bytes). */
  function GuessDigest(url: string, sha1: seq<U8> -> Digest.Sha1Value): string
  {
    Digest.BytesToString(sha1(Utf8.Encode(Util.GuessRedirectContent(url))))
  }

  // ------------------------------------------------------------ one request

  /** The one event that closes a content request expecting `expected`:
      a transport failure's class, an unexpected status, or the completion. */
  function Closing(httpMethod: string, url: string, reply: Http.Reply, expected: U16): (ev: Observe.Event)
    ensures Http.Closed(Http.RequestRecord(Http.PaceThenStart, Observe.Content, httpMethod, url, [ev]))
    ensures reply.outcome.Failure? ==>
      ev.phase == Observe.Error && ev.error == Some(Http.TransportClass(reply.outcome.error)) && ev.status.None?
    ensures reply.outcome.Success? && reply.outcome.value.status != expected ==>
      ev.phase == Observe.Error && ev.error == Some(Observe.Http) && ev.status == Some(reply.outcome.value.status)
    ensures ev.phase == Observe.Complete <==> reply.outcome.Success? && reply.outcome.value.status == expected
    ensures ev.phase == Observe.Complete ==> ev.status == Some(expected)
    ensures ev.elapsed == Some(reply.elapsed)
  {
    match reply.outcome
    case Failure(e) => Http.SendFailed(Observe.Content, httpMethod, url, e, reply.elapsed)
    case Success(response) =>
      if response.status == expected then Http.Completed(Observe.Content, httpMethod, url, expected, reply.elapsed)
      else Http.StatusFailed(Observe.Content, httpMethod, url, response.status, reply.elapsed)
  }

  /** The record of a content request the pacer precedes. */
  function Request(httpMethod: string, url: string, reply: Http.Reply, expected: U16): (r: Http.RequestRecord)
    ensures Http.Closed(r) && |r.after| == 1
    ensures r.order == Http.PaceThenStart && r.surface == Observe.Content
    ensures r.httpMethod == httpMethod && r.url == url
  {
    Http.RequestRecord(Http.PaceThenStart, Observe.Content, httpMethod, url, [Closing(httpMethod, url, reply, expected)])
  }

  /** Every request is preceded by the pacer and closed by exactly one
      completion or error event. */
  predicate Disciplined(records: seq<Http.RequestRecord>) {
    forall i :: 0 <= i < |records| ==> Http.Closed(records[i]) && records[i].order == Http.PaceThenStart
  }

  lemma DisciplinedAppend(a: seq<Http.RequestRecord>, b: seq<Http.RequestRecord>)
    requires Disciplined(a) && Disciplined(b)
    ensures Disciplined(a + b)
  {
    forall i | 0 <= i < |a + b|
      ensures Http.Closed((a + b)[i]) && (a + b)[i].order == Http.PaceThenStart
    {
      if i < |a| {
        assert (a + b)[i] == a[i];
      } else {
        assert (a + b)[i] == b[i - |a|];
      }
    }
  }

  /** What a HEAD that must be answered by a redirect yields: the text of
      its Location header. */
  function Located(reply: Http.Reply): (r: Result<string, Error>)
  {
    match reply.outcome
    case Failure(e) => Failure(Client(e))
    case Success(response) =>
      if response.status != Http.FOUND then Failure(UnexpectedStatus(response.status))
      else match Http.LocationText(response)
        case None => Failure(UnexpectedRedirect(None))
        case Some(location) => Success(location)
  }

  /** What a GET that must be answered with 200 yields: the body. */
  function Fetched(reply: Http.Reply): (r: Result<seq<U8>, Error>)
  {
    match reply.outcome
    case Failure(e) => Failure(Client(e))
    case Success(response) =>
      if response.status != Http.OK then Failure(UnexpectedStatus(response.status))
      else match response.body
        case Failure(e) => Failure(Client(e))
        case Success(bytes) => Success(bytes)
  }

  /** What a HEAD that must redirect to an archive URL yields: the capture
      its Location names. */
  function Redirect(reply: Http.Reply): (r: Result<Items.UrlInfo, Error>)
  {
    match Located(reply)
    case Failure(e) => Failure(e)
    case Success(location) =>
      match Items.ParseUrlInfo(location)
      case Failure(_) => Failure(UnexpectedRedirectUrl(location))
      case Success(info) => Success(info)
  }

  /** Whether the guessed page of the first redirect fails the digest check,
      so that the content is fetched. */
  predicate GuessRejected(first: Http.Reply, expected: string, sha1: seq<U8> -> Digest.Sha1Value) {
    Redirect(first).Success? && GuessDigest(Redirect(first).value.url, sha1) != expected
  }

  /** The resolution once the content is known: the second HEAD must
      redirect to an archive URL, which names the resolved capture. */
  function Finish(second: Http.Reply, content: seq<U8>, validInitialContent: bool, validDigest: bool)
    : (r: Result<RedirectResolution, Error>)
  {
    match Redirect(second)
    case Failure(e) => Failure(e)
    case Success(info) => Success(RedirectResolution(info.url, info.timestamp, content, validInitialContent, validDigest))
  }

  /** The content of a redirect capture and the requests spent on it: the
      page the archive usually serves for a redirect to `target` when its
      digest is the expected one, without a request; otherwise the body of
      one GET on the initial archive URL. The flags say whether the content
      is that page and whether its digest is the expected one. */
  function Content(initialUrl: string, target: string, expected: string, reply: Http.Reply,
                   sha1: seq<U8> -> Digest.Sha1Value)
    : (r: (Result<(seq<U8>, bool, bool), Error>, seq<Http.RequestRecord>))
    ensures GuessDigest(target, sha1) == expected ==> r.1 == [] && r.0.Success? && r.0.value.2
    ensures GuessDigest(target, sha1) != expected ==> r.1 == [Request("GET", initialUrl, reply, Http.OK)]
    ensures r.0.Success? ==> |r.1| == if r.0.value.1 then 0 else 1
  {
    if GuessDigest(target, sha1) == expected then
      (Success((Utf8.Encode(Util.GuessRedirectContent(target)), true, true)), [])
    else
      var get := Request("GET", initialUrl, reply, Http.OK);
      match Fetched(reply)
      case Failure(e) => (Failure(e), [get])
      case Success(body) => (Success((body, false, Digest.BytesToString(sha1(body)) == expected)), [get])
  }

  /** The outcome of `resolve_redirect` and the requests it sends, as a
      function of the network's replies: the first HEAD on the capture,
      then the rest from the capture it redirects to. */
  function Resolution(url: string, timestamp: string, expected: string, net: Http.Network,
                      sha1: seq<U8> -> Digest.Sha1Value)
    : (r: (Result<RedirectResolution, Error>, seq<Http.RequestRecord>))
    ensures |r.1| >= 1 && r.1[0] == Request("HEAD", WaybackUrl(url, timestamp, true), net(0), Http.FOUND)
    ensures Redirect(net(0)).Failure? ==> r.0 == Failure(Redirect(net(0)).error) && |r.1| == 1
  {
    var initialUrl := WaybackUrl(url, timestamp, true);
    var head := Request("HEAD", initialUrl, net(0), Http.FOUND);
    match Redirect(net(0))
    case Failure(e) => (Failure(e), [head])
    case Success(info) =>
      var (r, rest) := Resolved(initialUrl, info, expected, net, sha1);
      (r, [head] + rest)
  }

  /** A resolution after its first HEAD redirected to `info`: the content,
      then the second HEAD on the redirect's target. */
  function Resolved(initialUrl: string, info: Items.UrlInfo, expected: string, net: Http.Network,
                    sha1: seq<U8> -> Digest.Sha1Value)
    : (Result<RedirectResolution, Error>, seq<Http.RequestRecord>)
  {
    var (content, spent) := Content(initialUrl, info.url, expected, net(1), sha1);
    match content
    case Failure(e) => (Failure(e), spent)
    case Success((bytes, validInitialContent, validDigest)) =>
      var second := net(1 + |spent|);
      (Finish(second, bytes, validInitialContent, validDigest),
       spent + [Request("HEAD", WaybackUrl(info.url, info.timestamp, true), second, Http.FOUND)])
  }

  /** After the first redirect at most two requests follow, each paced
      and closed by one event; the first of them is a GET exactly when the
      guess is rejected, and no other is. */
  lemma ResolvedRequests(initialUrl: string, info: Items.UrlInfo, expected: string, net: Http.Network,
                         sha1: seq<U8> -> Digest.Sha1Value)
    ensures var records := Resolved(initialUrl, info, expected, net, sha1).1;
      && |records| <= 2 && Disciplined(records)
      && forall i :: 0 <= i < |records| ==>
           (records[i].httpMethod == "GET" <==> i == 0 && GuessDigest(info.url, sha1) != expected)
  {
    if GuessDigest(info.url, sha1) == expected {
      ResolvedAccepted(initialUrl, info, expected, net, sha1);
    } else {
      ResolvedRejected(initialUrl, info, expected, net, sha1);
    }
  }

  /** Every request of a resolution is paced and closed by one event, and
      the first is a HEAD on the capture. */
  lemma ResolutionRequests(url: string, timestamp: string, expected: string, net: Http.Network,
                           sha1: seq<U8> -> Digest.Sha1Value)
    ensures var records := Resolution(url, timestamp, expected, net, sha1).1;
      && 1 <= |records| <= 3 && Disciplined(records)
      && records[0] == Request("HEAD", WaybackUrl(url, timestamp, true), net(0), Http.FOUND)
  {
    var initialUrl := WaybackUrl(url, timestamp, true);
    var head := Request("HEAD", initialUrl, net(0), Http.FOUND);
    assert Disciplined([head]);
    if Redirect(net(0)).Success? {
      var info := Redirect(net(0)).value;
      var rest := Resolved(initialUrl, info, expected, net, sha1).1;
      ResolvedRequests(initialUrl, info, expected, net, sha1);
      assert Resolution(url, timestamp, expected, net, sha1).1 == [head] + rest;
      DisciplinedAppend([head], rest);
    }
  }

  /** The one GET of a resolution, second, is sent exactly when the guessed
      page is rejected; every other request is a HEAD. */
  lemma ResolutionGet(url: string, timestamp: string, expected: string, net: Http.Network,
                      sha1: seq<U8> -> Digest.Sha1Value)
    ensures var records := Resolution(url, timestamp, expected, net, sha1).1;
      forall i :: 0 <= i < |records| ==>
        (records[i].httpMethod == "GET" <==> i == 1 && GuessRejected(net(0), expected, sha1))
  {
    var initialUrl := WaybackUrl(url, timestamp, true);
    var head := Request("HEAD", initialUrl, net(0), Http.FOUND);
    var records := Resolution(url, timestamp, expected, net, sha1).1;
    if Redirect(net(0)).Success? {
      var info := Redirect(net(0)).value;
      var rest := Resolved(initialUrl, info, expected, net, sha1).1;
      ResolvedRequests(initialUrl, info, expected, net, sha1);
      assert records == [head] + rest;
      GetAfterHead(head, rest, GuessDigest(info.url, sha1) != expected);
    } else {
      assert records == [head];
    }
  }

  /** A HEAD put in front of requests whose only GET can be the first makes
      the second the only possible GET. */
  lemma GetAfterHead(head: Http.RequestRecord, rest: seq<Http.RequestRecord>, rejected: bool)
    requires head.httpMethod == "HEAD"
    requires forall i :: 0 <= i < |rest| ==> (rest[i].httpMethod == "GET" <==> i == 0 && rejected)
    ensures forall i :: 0 <= i < |[head] + rest| ==>
      (([head] + rest)[i].httpMethod == "GET" <==> i == 1 && rejected)
  {
    forall i | 1 <= i < |[head] + rest|
      ensures ([head] + rest)[i] == rest[i - 1]
    {
    }
  }

  /** An accepted guess is the content, valid on both counts, without a
      GET; the second HEAD goes to the redirect's target and names the
      resolved capture. */
  lemma ResolutionGuessAccepted(url: string, timestamp: string, expected: string, net: Http.Network,
                                sha1: seq<U8> -> Digest.Sha1Value)
    requires Redirect(net(0)).Success? && !GuessRejected(net(0), expected, sha1)
    ensures var (r, records) := Resolution(url, timestamp, expected, net, sha1);
      var info := Redirect(net(0)).value;
      && |records| == 2
      && records[1] == Request("HEAD", WaybackUrl(info.url, info.timestamp, true), net(1), Http.FOUND)
      && r == Finish(net(1), Utf8.Encode(Util.GuessRedirectContent(info.url)), true, true)
  {
    var initialUrl := WaybackUrl(url, timestamp, true);
    var info := Redirect(net(0)).value;
    var (r, rest) := Resolved(initialUrl, info, expected, net, sha1);
    ResolvedAccepted(initialUrl, info, expected, net, sha1);
    var records := [Request("HEAD", initialUrl, net(0), Http.FOUND)] + rest;
    assert Resolution(url, timestamp, expected, net, sha1) == (r, records);
    assert records[1] == rest[0];
  }

  /** After an accepted guess: only the second HEAD, and the guessed page
      as valid content. */
  lemma ResolvedAccepted(initialUrl: string, info: Items.UrlInfo, expected: string, net: Http.Network,
                         sha1: seq<U8> -> Digest.Sha1Value)
    requires GuessDigest(info.url, sha1) == expected
    ensures var (r, rest) := Resolved(initialUrl, info, expected, net, sha1);
      && rest == [Request("HEAD", WaybackUrl(info.url, info.timestamp, true), net(1), Http.FOUND)]
      && r == Finish(net(1), Utf8.Encode(Util.GuessRedirectContent(info.url)), true, true)
  {
    var (content, spent) := Content(initialUrl, info.url, expected, net(1), sha1);
    assert spent == [] && content == Success((Utf8.Encode(Util.GuessRedirectContent(info.url)), true, true));
  }

  /** A rejected guess costs one GET on the capture; its body is the
      content, not the initial one, valid exactly when its digest is the
      expected one, and the second HEAD then names the resolved capture. */
  lemma ResolutionGuessRejected(url: string, timestamp: string, expected: string, net: Http.Network,
                                sha1: seq<U8> -> Digest.Sha1Value)
    requires GuessRejected(net(0), expected, sha1)
    ensures var (r, records) := Resolution(url, timestamp, expected, net, sha1);
      var info := Redirect(net(0)).value;
      && |records| >= 2
      && records[1] == Request("GET", WaybackUrl(url, timestamp, true), net(1), Http.OK)
      && (Fetched(net(1)).Failure? ==> r == Failure(Fetched(net(1)).error) && |records| == 2)
      && (Fetched(net(1)).Success? ==>
           var body := Fetched(net(1)).value;
           && |records| == 3
           && records[2] == Request("HEAD", WaybackUrl(info.url, info.timestamp, true), net(2), Http.FOUND)
           && r == Finish(net(2), body, false, Digest.BytesToString(sha1(body)) == expected))
  {
    var initialUrl := WaybackUrl(url, timestamp, true);
    var info := Redirect(net(0)).value;
    var (r, rest) := Resolved(initialUrl, info, expected, net, sha1);
    ResolvedRejected(initialUrl, info, expected, net, sha1);
    var records := [Request("HEAD", initialUrl, net(0), Http.FOUND)] + rest;
    assert Resolution(url, timestamp, expected, net, sha1) == (r, records);
    assert records[1] == rest[0];
    if |rest| == 2 {
      assert records[2] == rest[1];
    }
  }

  /** After a rejected guess: one GET on the capture, then, when its body
      was read, the second HEAD and the outcome on that body. */
  lemma ResolvedRejected(initialUrl: string, info: Items.UrlInfo, expected: string, net: Http.Network,
                         sha1: seq<U8> -> Digest.Sha1Value)
    requires GuessDigest(info.url, sha1) != expected
    ensures var (r, rest) := Resolved(initialUrl, info, expected, net, sha1);
      && |rest| >= 1
      && rest[0] == Request("GET", initialUrl, net(1), Http.OK)
      && (Fetched(net(1)).Failure? ==> r == Failure(Fetched(net(1)).error) && |rest| == 1)
      && (Fetched(net(1)).Success? ==>
           var body := Fetched(net(1)).value;
           && |rest| == 2
           && rest[1] == Request("HEAD", WaybackUrl(info.url, info.timestamp, true), net(2), Http.FOUND)
           && r == Finish(net(2), body, false, Digest.BytesToString(sha1(body)) == expected))
  {
    var get := Request("GET", initialUrl, net(1), Http.OK);
    var (content, spent) := Content(initialUrl, info.url, expected, net(1), sha1);
    assert spent == [get];
    if Fetched(net(1)).Success? {
      var body := Fetched(net(1)).value;
      assert content == Success((body, false, Digest.BytesToString(sha1(body)) == expected));
    } else {
      assert content == Failure(Fetched(net(1)).error);
    }
  }

  /** The content of a shallow resolution: the guessed page as text when it
      is accepted, otherwise the fetched body, which must be UTF-8, with
      whether its digest is the expected one. */
  function ShallowContent(initialUrl: string, target: string, expected: string, reply: Http.Reply,
                          sha1: seq<U8> -> Digest.Sha1Value)
    : (Result<(string, bool), Error>, seq<Http.RequestRecord>)
  {
    if GuessDigest(target, sha1) == expected then
      (Success((Util.GuessRedirectContent(target), true)), [])
    else
      var get := Request("GET", initialUrl, reply, Http.OK);
      match Fetched(reply)
      case Failure(e) => (Failure(e), [get])
      case Success(body) =>
        match Utf8.Decode(body)
        case None => (Failure(InvalidUtf8), [get])
        case Some(text) => (Success((text, Digest.BytesToString(sha1(body)) == expected)), [get])
  }

  /** The outcome of `resolve_redirect_shallow` and the requests it sends. */
  function ShallowResolution(url: string, timestamp: string, expected: string, net: Http.Network,
                             sha1: seq<U8> -> Digest.Sha1Value)
    : (s: (Result<(Items.UrlInfo, string, bool), Error>, seq<Http.RequestRecord>))
    ensures var r := s.0;
      && (Redirect(net(0)).Failure? ==> r == Failure(Redirect(net(0)).error))
      && (Redirect(net(0)).Success? && !GuessRejected(net(0), expected, sha1) ==>
           r == Success((Redirect(net(0)).value, Util.GuessRedirectContent(Redirect(net(0)).value.url), true)))
      && (GuessRejected(net(0), expected, sha1) ==>
           && (Fetched(net(1)).Failure? ==> r == Failure(Fetched(net(1)).error))
           && (Fetched(net(1)).Success? && Utf8.Decode(Fetched(net(1)).value).None? ==> r == Failure(InvalidUtf8))
           && (Fetched(net(1)).Success? && Utf8.Decode(Fetched(net(1)).value).Some? ==>
                r == Success((Redirect(net(0)).value, Utf8.Decode(Fetched(net(1)).value).value,
                              Digest.BytesToString(sha1(Fetched(net(1)).value)) == expected))))
  {
    var initialUrl := WaybackUrl(url, timestamp, true);
    var head := Request("HEAD", initialUrl, net(0), Http.FOUND);
    match Redirect(net(0))
    case Failure(e) => (Failure(e), [head])
    case Success(info) =>
      var (content, spent) := ShallowContent(initialUrl, info.url, expected, net(1), sha1);
      match content
      case Failure(e) => (Failure(e), [head] + spent)
      case Success((text, validDigest)) => (Success((info, text, validDigest)), [head] + spent)
  }

  /** The shallow resolution sends the same first HEAD and, exactly when
      the guess is rejected, one GET, and nothing else. */
  lemma ShallowRequests(url: string, timestamp: string, expected: string, net: Http.Network,
                        sha1: seq<U8> -> Digest.Sha1Value)
    ensures var records := ShallowResolution(url, timestamp, expected, net, sha1).1;
      && 1 <= |records| <= 2
      && records[0] == Request("HEAD", WaybackUrl(url, timestamp, true), net(0), Http.FOUND)
      && Disciplined(records)
      && (|records| == 2 <==> GuessRejected(net(0), expected, sha1))
      && (|records| == 2 ==> records[1] == Request("GET", WaybackUrl(url, timestamp, true), net(1), Http.OK))
  {
    var initialUrl := WaybackUrl(url, timestamp, true);
    var head := Request("HEAD", initialUrl, net(0), Http.FOUND);
    var records := ShallowResolution(url, timestamp, expected, net, sha1).1;
    if Redirect(net(0)).Success? {
      var info := Redirect(net(0)).value;
      var spent := ShallowContent(initialUrl, info.url, expected, net(1), sha1).1;
      assert records == [head] + spent;
      if GuessDigest(info.url, sha1) == expected {
        assert spent == [];
      } else {
        assert spent == [Request("GET", initialUrl, net(1), Http.OK)];
      }
    }
  }

  /** `Downloader`: the optional pacer and observer. */
  class Downloader {
    var pacer: bool
    var observer: bool

    /** `Downloader::new`: neither a pacer nor an observer. */
    constructor ()
      ensures !pacer && !observer
    {
      pacer := false;
      observer := false;
    }

    method WithPacer()
      modifies this
      ensures pacer && observer == old(observer)
    {
      pacer := true;
    }

    method WithObserver()
      modifies this
      ensures observer && pacer == old(pacer)
    {
      observer := true;
    }

    /** Paces, emits the start event, sends the request, and emits the one
        closing event for the status expected. */
    method Send(httpMethod: string, url: string, reply: Http.Reply, expected: U16)
      returns (trace: seq<Http.Step>, ghost record: Http.RequestRecord)
      ensures record == Request(httpMethod, url, reply, expected)
      ensures trace == Http.RecordSteps(pacer, observer, record)
    {
      trace := Http.Paced(pacer) + Http.Emitted(observer, Observe.StartEvent(Observe.Content, httpMethod, url))
        + [Http.Send(httpMethod, url)];
      record := Http.RequestRecord(Http.PaceThenStart, Observe.Content, httpMethod, url, []);
      var ev := Closing(httpMethod, url, reply, expected);
      Http.RecordStepsSnoc(pacer, observer, record, ev);
      record := record.(after := [ev]);
      trace := trace + Http.Emitted(observer, ev);
    }

    /** A HEAD that must be answered by a redirect with a readable Location. */
    method HeadLocation(url: string, reply: Http.Reply)
      returns (r: Result<string, Error>, trace: seq<Http.Step>, ghost record: Http.RequestRecord)
      ensures r == Located(reply)
      ensures record == Request("HEAD", url, reply, Http.FOUND)
      ensures trace == Http.RecordSteps(pacer, observer, record)
    {
      trace, record := Send("HEAD", url, reply, Http.FOUND);
      match reply.outcome {
        case Failure(e) =>
          r := Failure(Client(e));
        case Success(response) =>
          if response.status == Http.FOUND {
            match Http.LocationText(response) {
              case Some(location) => r := Success(location);
              case None => r := Failure(UnexpectedRedirect(None));
            }
          } else {
            r := Failure(UnexpectedStatus(response.status));
          }
      }
    }

    /** A GET that must be answered with 200, and its body. */
    method GetBody(url: string, reply: Http.Reply)
      returns (r: Result<seq<U8>, Error>, trace: seq<Http.Step>, ghost record: Http.RequestRecord)
      ensures r == Fetched(reply)
      ensures record == Request("GET", url, reply, Http.OK)
      ensures trace == Http.RecordSteps(pacer, observer, record)
    {
      trace, record := Send("GET", url, reply, Http.OK);
      match reply.outcome {
        case Failure(e) =>
          r := Failure(Client(e));
        case Success(response) =>
          if response.status != Http.OK {
            r := Failure(UnexpectedStatus(response.status));
          } else {
            match response.body {
              case Failure(e) => r := Failure(Client(e));
              case Success(bytes) => r := Success(bytes);
            }
          }
      }
    }

    /** `direct_resolve_redirect`: a HEAD on the `id_` archive URL of the
        capture, which must redirect; the result is its Location. */
    method DirectResolveRedirect(url: string, timestamp: string, reply: Http.Reply)
      returns (r: Result<string, Error>, trace: seq<Http.Step>, ghost record: Http.RequestRecord)
      ensures r == Located(reply)
      ensures record == Request("HEAD", WaybackUrl(url, timestamp, true), reply, Http.FOUND)
      ensures trace == Http.RecordSteps(pacer, observer, record)
    {
      r, trace, record := HeadLocation(WaybackUrl(url, timestamp, true), reply);
    }

    /** The first HEAD of a redirect resolution, on the capture's `id_`
        archive URL: it must redirect to an archive URL. */
    method Locate(url: string, reply: Http.Reply)
      returns (r: Result<Items.UrlInfo, Error>, trace: seq<Http.Step>, ghost record: Http.RequestRecord)
      ensures r == Redirect(reply)
      ensures record == Request("HEAD", url, reply, Http.FOUND)
      ensures trace == Http.RecordSteps(pacer, observer, record)
    {
      var location;
      location, trace, record := HeadLocation(url, reply);
      if location.Failure? {
        r := Failure(location.error);
        return;
      }
      var parsed := Items.ParseUrlInfo(location.value);
      if parsed.Failure? {
        r := Failure(UnexpectedRedirectUrl(location.value));
      } else {
        r := Success(parsed.value);
      }
    }

    /** The content of a redirect capture (see `Content`): the guessed page
        when its digest is the expected one, otherwise one GET. */
    method FetchContent(initialUrl: string, target: string, expected: string, reply: Http.Reply,
                        sha1: seq<U8> -> Digest.Sha1Value)
      returns (r: Result<(seq<U8>, bool, bool), Error>, trace: seq<Http.Step>, ghost records: seq<Http.RequestRecord>)
      ensures (r, records) == Content(initialUrl, target, expected, reply, sha1)
      ensures trace == Http.Steps(pacer, observer, records)
    {
      var guess := Util.GuessRedirectContent(target);
      var guessBytes := Utf8.Encode(guess);
      SliceDigest(guessBytes, sha1);
      var guessDigest := GuessDigest(target, sha1);
      if guessDigest == expected {
        r, trace, records := Success((guessBytes, true, true)), [], [];
      } else {
        var fetched, t, record := GetBody(initialUrl, reply);
        Http.StepsSnoc(pacer, observer, [], record);
        trace, records := t, [record];
        if fetched.Failure? {
          r := Failure(fetched.error);
        } else {
          var directBytes := fetched.value;
          SliceDigest(directBytes, sha1);
          var directDigest := Digest.BytesToString(sha1(directBytes));
          r := Success((directBytes, false, directDigest == expected));
        }
      }
    }

    /** `resolve_redirect`. The capture is asked for with a HEAD, which
        must redirect to an archive URL. When the digest of the page the
        archive usually serves for that redirect matches the expected
        digest, that page is the content and no GET is sent; otherwise one
        GET fetches the content and its digest decides `validDigest`. A
        second HEAD on the redirect's target must redirect again, and its
        Location names the resolved capture. */
    method ResolveRedirect(url: string, timestamp: string, expected: string, net: Http.Network,
                           sha1: seq<U8> -> Digest.Sha1Value)
      returns (r: Result<RedirectResolution, Error>, trace: seq<Http.Step>, ghost records: seq<Http.RequestRecord>)
      ensures (r, records) == Resolution(url, timestamp, expected, net, sha1)
      ensures trace == Http.Steps(pacer, observer, records)
    {
      var initialUrl := WaybackUrl(url, timestamp, true);
      var first, t0, rec0 := Locate(initialUrl, net(0));
      Http.StepsSnoc(pacer, observer, [], rec0);
      trace, records := t0, [rec0];
      if first.Failure? {
        r := Failure(first.error);
        return;
      }
      var info := first.value;
      var t1;
      ghost var rest;
      r, t1, rest := ResolveFrom(initialUrl, info, expected, net, sha1);
      Http.StepsAppend(pacer, observer, records, rest);
      trace, records := trace + t1, records + rest;
    }

    /** The rest of `resolve_redirect` once the first HEAD redirected to
        `info` (see `Resolved`). */
    method ResolveFrom(initialUrl: string, info: Items.UrlInfo, expected: string, net: Http.Network,
                       sha1: seq<U8> -> Digest.Sha1Value)
      returns (r: Result<RedirectResolution, Error>, trace: seq<Http.Step>, ghost records: seq<Http.RequestRecord>)
      ensures (r, records) == Resolved(initialUrl, info, expected, net, sha1)
      ensures trace == Http.Steps(pacer, observer, records)
    {
      var content;
      content, trace, records := FetchContent(initialUrl, info.url, expected, net(1), sha1);
      if content.Failure? {
        r := Failure(content.error);
        return;
      }
      var (bytes, validInitialContent, validDigest) := content.value;
      var next := if validInitialContent then 1 else 2;
      assert next == 1 + |records|;
      var t2;
      ghost var rec2;
      r, t2, rec2 := Conclude(info, bytes, validInitialContent, validDigest, net(next));
      Http.StepsSnoc(pacer, observer, records, rec2);
      assert (r, records + [rec2]) == Resolved(initialUrl, info, expected, net, sha1);
      trace, records := trace + t2, records + [rec2];
    }

    /** The end of `resolve_redirect`: the second HEAD, on the first
        redirect's target, must redirect to an archive URL, which names the
        resolved capture. */
    method Conclude(info: Items.UrlInfo, content: seq<U8>, validInitialContent: bool, validDigest: bool,
                    reply: Http.Reply)
      returns (r: Result<RedirectResolution, Error>, trace: seq<Http.Step>, ghost record: Http.RequestRecord)
      ensures r == Finish(reply, content, validInitialContent, validDigest)
      ensures record == Request("HEAD", WaybackUrl(info.url, info.timestamp, true), reply, Http.FOUND)
      ensures trace == Http.RecordSteps(pacer, observer, record)
    {
      var actual;
      actual, trace, record := DirectResolveRedirect(info.url, info.timestamp, reply);
      if actual.Failure? {
        r := Failure(actual.error);
      } else {
        var actualInfo := Items.ParseUrlInfo(actual.value);
        if actualInfo.Failure? {
          r := Failure(UnexpectedRedirectUrl(actual.value));
        } else {
          r := Success(RedirectResolution(actualInfo.value.url, actualInfo.value.timestamp, content,
                                          validInitialContent, validDigest));
        }
      }
    }

    /** The content of a shallow resolution (see `ShallowContent`). */
    method FetchShallowContent(initialUrl: string, target: string, expected: string, reply: Http.Reply,
                               sha1: seq<U8> -> Digest.Sha1Value)
      returns (r: Result<(string, bool), Error>, trace: seq<Http.Step>, ghost records: seq<Http.RequestRecord>)
      ensures (r, records) == ShallowContent(initialUrl, target, expected, reply, sha1)
      ensures trace == Http.Steps(pacer, observer, records)
    {
      var guess := Util.GuessRedirectContent(target);
      SliceDigest(Utf8.Encode(guess), sha1);
      var guessDigest := GuessDigest(target, sha1);
      if guessDigest == expected {
        r, trace, records := Success((guess, true)), [], [];
      } else {
        var fetched, t, record := GetBody(initialUrl, reply);
        Http.StepsSnoc(pacer, observer, [], record);
        trace, records := t, [record];
        if fetched.Failure? {
          r := Failure(fetched.error);
        } else {
          var directBytes := fetched.value;
          SliceDigest(directBytes, sha1);
          var directDigest := Digest.BytesToString(sha1(directBytes));
          match Utf8.Decode(directBytes) {
            case None =>
              r := Failure(InvalidUtf8);
            case Some(text) =>
              r := Success((text, directDigest == expected));
          }
        }
      }
    }

    /** `resolve_redirect_shallow`: the same HEAD and the same guess, with a
        GET when the guess is wrong, but no second HEAD; the result is the
        first redirect's archive URL, the content as text and whether its
        digest matched. Fetched content that is not UTF-8 is an error. */
    method ResolveRedirectShallow(url: string, timestamp: string, expected: string, net: Http.Network,
                                  sha1: seq<U8> -> Digest.Sha1Value)
      returns (r: Result<(Items.UrlInfo, string, bool), Error>, trace: seq<Http.Step>,
               ghost records: seq<Http.RequestRecord>)
      ensures (r, records) == ShallowResolution(url, timestamp, expected, net, sha1)
      ensures trace == Http.Steps(pacer, observer, records)
    {
      var initialUrl := WaybackUrl(url, timestamp, true);
      var first, t0, rec0 := Locate(initialUrl, net(0));
      Http.StepsSnoc(pacer, observer, [], rec0);
      trace, records := t0, [rec0];
      if first.Failure? {
        r := Failure(first.error);
        return;
      }
      var info := first.value;
      var content, t1, spent := FetchShallowContent(initialUrl, info.url, expected, net(1), sha1);
      Http.StepsAppend(pacer, observer, records, spent);
      trace, records := trace + t1, records + spent;
      if content.Failure? {
        r := Failure(content.error);
      } else {
        r := Success((info, content.value.0, content.value.1));
      }
    }

    /** `download_once`: one GET on the archive URL, which must be answered
        with 200; the result is the body. */
    method DownloadOnce(url: string, timestamp: string, original: bool, reply: Http.Reply)
      returns (r: Result<seq<U8>, Error>, trace: seq<Http.Step>, ghost record: Http.RequestRecord)
      ensures r == Fetched(reply)
      ensures record == Request("GET", WaybackUrl(url, timestamp, original), reply, Http.OK)
      ensures trace == Http.RecordSteps(pacer, observer, record)
    {
      r, trace, record := GetBody(WaybackUrl(url, timestamp, original), reply);
    }

    /** `download`: `download_once` retried under the downloader's policy;
        attempt `i` receives `net(i)`. Only transient failures are retried,
        and a transient failure is reported only after seven retries. */
    method Download(url: string, timestamp: string, original: bool, net: Http.Network)
      returns (r: Result<seq<U8>, Error>, attempts: nat, requestUrl: string)
      ensures requestUrl == WaybackUrl(url, timestamp, original)
      ensures 1 <= attempts <= MAX_RETRIES + 1 && r == Fetched(net(attempts - 1))
      ensures forall i :: 0 <= i < attempts - 1 ==> Fetched(net(i)).Failure? && Transient(Fetched(net(i)).error)
      ensures r.Failure? && Transient(r.error) ==> attempts == MAX_RETRIES + 1
    {
      requestUrl := WaybackUrl(url, timestamp, original);
      var attempt := (i: nat) => Fetched(net(i));
      r, attempts := Retries.RetryFn(RETRYABLE, attempt);
      assert RETRYABLE.customRetryPolicy == CustomRetryPolicy;
      forall i | 0 <= i < attempts - 1
        ensures Fetched(net(i)).Failure? && Transient(Fetched(net(i)).error)
      {
        assert attempt(i) == Fetched(net(i));
      }
    }

    /** `download_item`: the original bytes of a snapshot, from its `id_`
        archive URL. */
    method DownloadItem(item: Items.Item, net: Http.Network)
      returns (r: Result<seq<U8>, Error>, attempts: nat, requestUrl: string)
      ensures requestUrl == WaybackUrl(item.url, Items.Timestamp(item), true)
      ensures Items.IsLine(item.url) ==>
        Items.ParseUrlInfo(requestUrl) == Success(Items.UrlInfo(item.url, Items.Timestamp(item)))
      ensures 1 <= attempts <= MAX_RETRIES + 1 && r == Fetched(net(attempts - 1))
      ensures forall i :: 0 <= i < attempts - 1 ==> Fetched(net(i)).Failure? && Transient(Fetched(net(i)).error)
      ensures r.Failure? && Transient(r.error) ==> attempts == MAX_RETRIES + 1
    {
      r, attempts, requestUrl := Download(item.url, Items.Timestamp(item), true, net);
      if Items.IsLine(item.url) {
        ParseOriginalUrl(item.url, Items.Timestamp(item));
      }
    }
  }
}
