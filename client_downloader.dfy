/**
 * The content downloader of the client crate (`client/src/downloader.rs`):
 * archive URLs on the `http` scheme, a GET that must redirect (with or
 * without its body), a GET that must succeed, and downloads retried with
 * the downloader's own retry count and doubling backoff. No pacer and no
 * observer; the reply to the `n`-th request is `net(n)`.
 */
module ClientDownloader {
  import opened Wrappers
  import opened Text
  import Items
  import ClientItems
  import Http
  import Retries
  import Digest

  datatype Error =
    | IOError(ioError: Digest.IoError)
    | ClientError(clientError: Http.ClientError)
    | UnexpectedRedirect(location: Option<string>)
    | UnexpectedStatus(status: U16)

  const MILLISECOND: nat := 1_000_000
  const SECOND: nat := 1_000_000_000

  /** I/O and client failures take the default backoff, a 502 waits 30
      seconds, and every other error stops the retries. */
  function CustomRetryPolicy(e: Error): (p: Option<Retries.RetryPolicy>)
    ensures p.None? <==> e.IOError? || e.ClientError?
    ensures p == Some(Retries.Delay(30 * SECOND)) <==> e == UnexpectedStatus(Http.BAD_GATEWAY)
    ensures p == Some(Retries.Break) <==> !(e.IOError? || e.ClientError? || e == UnexpectedStatus(Http.BAD_GATEWAY))
  {
    match e
    case IOError(_) => None
    case ClientError(_) => None
    case UnexpectedStatus(s) =>
      if s == Http.BAD_GATEWAY then Some(Retries.Delay(30 * SECOND)) else Some(Retries.Break)
    case _ => Some(Retries.Break)
  }

  /** The errors a download is retried on. */
  predicate Transient(e: Error) {
    e.IOError? || e.ClientError? || e == UnexpectedStatus(Http.BAD_GATEWAY)
  }

  /** `RetryStrategy`: the delay handed out on the next error without a
      custom policy, always the initial one doubled once per such error. */
  class RetryStrategy {
    var delay: Retries.Duration
    ghost const initial: Retries.Duration
    ghost var doublings: nat

    ghost predicate Valid()
      reads this
    {
      delay == initial * Retries.Pow2(doublings)
    }

    constructor (delay: Retries.Duration)
      ensures Valid() && doublings == 0 && this.delay == initial == delay
    {
      this.delay := delay;
      initial := delay;
      doublings := 0;
    }

    /** `BackoffStrategy::delay`: a custom policy as it is, the delay left
        alone; otherwise the current delay, and the stored one doubles. */
    method NextDelay(attempt: U32, error: Error) returns (p: Retries.RetryPolicy)
      requires Valid()
      modifies this
      ensures Valid()
      ensures CustomRetryPolicy(error).Some? ==>
        p == CustomRetryPolicy(error).value && delay == old(delay) && doublings == old(doublings)
      ensures CustomRetryPolicy(error).None? ==>
        && p == Retries.Delay(initial * Retries.Pow2(old(doublings)))
        && delay == 2 * old(delay) && doublings == old(doublings) + 1
    {
      match CustomRetryPolicy(error) {
        case Some(custom) =>
          p := custom;
        case None =>
          var prevDelay := delay;
          delay := delay * 2;
          doublings := doublings + 1;
          p := Retries.Delay(prevDelay);
      }
    }
  }

  /** What was fetched: the content itself, or a redirect with the page
      that announced it and the content it led to. */
  datatype Content =
    | Direct(content: seq<U8>)
    | Redirect(location: string, originalContent: seq<U8>, content: seq<U8>)

  /** `Content::content`: the content reached, for both kinds. */
  function ContentOf(c: Content): (bytes: seq<U8>)
    ensures c.Direct? ==> bytes == c.content
    ensures c.Redirect? ==> bytes == c.content
  {
    match c
    case Direct(content) => content
    case Redirect(_, _, content) => content
  }

  /** The archive URL of a capture on the `http` scheme. */
  function WaybackUrl(url: string, timestamp: string, original: bool): string
  {
    Items.WAYBACK_PREFIX + timestamp + (if original then "id_" else "if_") + "/" + url
  }

  /** The downloader's archive URL of a snapshot is the snapshot's own. */
  lemma SnapshotWaybackUrl(item: ClientItems.Item, original: bool)
    ensures WaybackUrl(item.url, ClientItems.Timestamp(item), original) == ClientItems.WaybackUrl(item, original)
  {
    var a := WaybackUrl(item.url, ClientItems.Timestamp(item), original);
    var b := ClientItems.WaybackUrl(item, original);
    Items.UrlLayout(Items.WAYBACK_PREFIX, ClientItems.Timestamp(item), if original then "id_" else "if_", item.url);
    var n := |Items.WAYBACK_PREFIX|;
    assert a[..n] == b[..n] && a[n..n + 14] == b[n..n + 14];
    assert a[n + 14..n + 18] == b[n + 14..n + 18] && a[n + 18..] == b[n + 18..];
    assert a == a[..n] + a[n..n + 14] + a[n + 14..n + 18] + a[n + 18..];
    assert b == b[..n] + b[n..n + 14] + b[n + 14..n + 18] + b[n + 18..];
  }

  /** The `id_` URL of a one-line URL at a fourteen-digit timestamp is an
      archive URL naming them. */
  lemma ParseOriginalUrl(url: string, timestamp: string)
    requires Items.IsLine(url) && |timestamp| == 14 && AllDigits(timestamp)
    ensures Items.ParseUrlInfo(WaybackUrl(url, timestamp, true)) == Success(Items.UrlInfo(url, timestamp))
  {
    var u := WaybackUrl(url, timestamp, true);
    Items.UrlLayout(Items.WAYBACK_PREFIX, timestamp, "id_", url);
    assert u[..7] == u[..|Items.WAYBACK_PREFIX|][..7] == "http://";
    assert Items.MatchScheme(u) == Some(7);
    var rest := u[7..];
    assert rest[..20] == u[7..27] == Items.WAYBACK_PREFIX[7..] == Items.HOST_PATTERN;
    Items.HostPatternMatchesItself();
    assert rest[20..34] == u[27..41];
    var tail := rest[34..];
    assert tail[..4] == u[41..45] == "id_/";
    assert tail[4..] == u[45..] == url;
  }

  /** What a GET that must redirect yields: the text of its Location. */
  function Location(reply: Http.Reply): (r: Result<string, Error>)
    ensures reply.outcome.Failure? ==> r == Failure(ClientError(reply.outcome.error))
    ensures reply.outcome.Success? && reply.outcome.value.status != Http.FOUND ==>
      r == Failure(UnexpectedStatus(reply.outcome.value.status))
    ensures reply.outcome.Success? && reply.outcome.value.status == Http.FOUND ==>
      && (Http.LocationText(reply.outcome.value).None? ==> r == Failure(UnexpectedRedirect(None)))
      && (Http.LocationText(reply.outcome.value).Some? ==> r == Success(Http.LocationText(reply.outcome.value).value))
  {
    match reply.outcome
    case Failure(e) => Failure(ClientError(e))
    case Success(response) =>
      if response.status != Http.FOUND then Failure(UnexpectedStatus(response.status))
      else match Http.LocationText(response)
        case None => Failure(UnexpectedRedirect(None))
        case Some(location) => Success(location)
  }

  /** What a GET that must redirect yields with its body: the Location
      and the redirect page. The body is read only once the Location is
      known. */
  function LocationAndBody(reply: Http.Reply): (r: Result<(string, seq<U8>), Error>)
    ensures Location(reply).Failure? ==> r == Failure(Location(reply).error)
    ensures Location(reply).Success? && reply.outcome.value.body.Failure? ==>
      r == Failure(ClientError(reply.outcome.value.body.error))
    ensures r.Success? <==> Location(reply).Success? && reply.outcome.value.body.Success?
    ensures r.Success? ==> r.value == (Location(reply).value, reply.outcome.value.body.value)
  {
    match Location(reply)
    case Failure(e) => Failure(e)
    case Success(location) =>
      match reply.outcome.value.body
      case Failure(e) => Failure(ClientError(e))
      case Success(bytes) => Success((location, bytes))
  }

  /** What a GET that must be answered with 200 yields: the body. */
  function Body(reply: Http.Reply): (r: Result<seq<U8>, Error>)
    ensures reply.outcome.Failure? ==> r == Failure(ClientError(reply.outcome.error))
    ensures reply.outcome.Success? && reply.outcome.value.status != Http.OK ==>
      r == Failure(UnexpectedStatus(reply.outcome.value.status))
    ensures reply.outcome.Success? && reply.outcome.value.status == Http.OK ==>
      && (reply.outcome.value.body.Failure? ==> r == Failure(ClientError(reply.outcome.value.body.error)))
      && (reply.outcome.value.body.Success? ==> r == Success(reply.outcome.value.body.value))
  {
    match reply.outcome
    case Failure(e) => Failure(ClientError(e))
    case Success(response) =>
      if response.status != Http.OK then Failure(UnexpectedStatus(response.status))
      else match response.body
        case Failure(e) => Failure(ClientError(e))
        case Success(bytes) => Success(bytes)
  }

  /** A reply is never both a redirect and a download: a GET that yields a
      Location fails as a download with the redirect's status, and a body
      downloaded with 200 is no redirect. */
  lemma RedirectIsNotDownload(reply: Http.Reply)
    ensures Location(reply).Success? ==> Body(reply) == Failure(UnexpectedStatus(Http.FOUND))
    ensures Body(reply).Success? ==> Location(reply) == Failure(UnexpectedStatus(Http.OK))
  {
  }

  /** The number of retries `tryhard` is given: the retry count cast from
      `usize` to `u32`, which keeps its low 32 bits. */
  function RetryBound(retryCount: U64): (n: U32)
    ensures retryCount < U32_BOUND ==> n == retryCount
  {
    retryCount % U32_BOUND
  }

  /** `Downloader`: the retry count and the initial retry delay. */
  class Downloader {
    var retryCount: U64
    var retryDelay: Retries.Duration

    constructor (retryCount: U64, retryDelay: Retries.Duration)
      ensures this.retryCount == retryCount && this.retryDelay == retryDelay
    {
      this.retryCount := retryCount;
      this.retryDelay := retryDelay;
    }

    /** `Downloader::default`: seven retries from 250 ms. */
    constructor Default()
      ensures retryCount == 7 && retryDelay == 250 * MILLISECOND
    {
      retryCount := 7;
      retryDelay := 250 * MILLISECOND;
    }

    /** `download_redirect`: a GET on the `id_` archive URL that must
        redirect; the Location and the redirect page. */
    method DownloadRedirect(url: string, timestamp: string, reply: Http.Reply)
      returns (r: Result<(string, seq<U8>), Error>, requestUrl: string)
      ensures requestUrl == WaybackUrl(url, timestamp, true)
      ensures r == LocationAndBody(reply)
    {
      requestUrl := WaybackUrl(url, timestamp, true);
      match reply.outcome {
        case Failure(e) =>
          r := Failure(ClientError(e));
        case Success(response) =>
          if response.status == Http.FOUND {
            match Http.LocationText(response) {
              case Some(location) =>
                match response.body {
                  case Failure(e) => r := Failure(ClientError(e));
                  case Success(bytes) => r := Success((location, bytes));
                }
              case None =>
                r := Failure(UnexpectedRedirect(None));
            }
          } else {
            r := Failure(UnexpectedStatus(response.status));
          }
      }
    }

    /** `resolve_redirect`: the same GET, for its Location only. */
    method ResolveRedirect(url: string, timestamp: string, reply: Http.Reply)
      returns (r: Result<string, Error>, requestUrl: string)
      ensures requestUrl == WaybackUrl(url, timestamp, true)
      ensures r == Location(reply)
    {
      requestUrl := WaybackUrl(url, timestamp, true);
      match reply.outcome {
        case Failure(e) =>
          r := Failure(ClientError(e));
        case Success(response) =>
          if response.status == Http.FOUND {
            match Http.LocationText(response) {
              case Some(location) => r := Success(location);
              case None => r := Failure(UnexpectedRedirect(None));
            }
          } else {
            r := Failure(UnexpectedStatus(response.status));
          }
      }
    }

    /** `download_once`: a GET on the archive URL that must be answered
        with 200; the body. */
    method DownloadOnce(url: string, timestamp: string, original: bool, reply: Http.Reply)
      returns (r: Result<seq<U8>, Error>, requestUrl: string)
      ensures requestUrl == WaybackUrl(url, timestamp, original)
      ensures r == Body(reply)
    {
      requestUrl := WaybackUrl(url, timestamp, original);
      match reply.outcome {
        case Failure(e) =>
          r := Failure(ClientError(e));
        case Success(response) =>
          if response.status != Http.OK {
            r := Failure(UnexpectedStatus(response.status));
          } else {
            match response.body {
              case Failure(e) => r := Failure(ClientError(e));
              case Success(bytes) => r := Success(bytes);
            }
          }
      }
    }

    /** `download`: `download_once` retried at most `retryCount` times (cast
        to 32 bits), backing off from `retryDelay`; attempt `i` receives
        `net(i)`. Only transient failures are retried. */
    method Download(url: string, timestamp: string, original: bool, net: Http.Network)
      returns (r: Result<seq<U8>, Error>, attempts: nat, requestUrl: string)
      ensures requestUrl == WaybackUrl(url, timestamp, original)
      ensures 1 <= attempts <= RetryBound(retryCount) + 1 && r == Body(net(attempts - 1))
      ensures forall i :: 0 <= i < attempts - 1 ==> Body(net(i)).Failure? && Transient(Body(net(i)).error)
      ensures r.Failure? && Transient(r.error) ==> attempts == RetryBound(retryCount) + 1
    {
      requestUrl := WaybackUrl(url, timestamp, original);
      var spec := Retries.RetryableSpec(RetryBound(retryCount), retryDelay, None, CustomRetryPolicy);
      var attempt := (i: nat) => Body(net(i));
      r, attempts := Retries.RetryFn(spec, attempt);
      forall i | 0 <= i < attempts - 1
        ensures Body(net(i)).Failure? && Transient(Body(net(i)).error)
      {
        assert attempt(i) == Body(net(i));
      }
    }

    /** `download_item`: the original bytes of a snapshot, from its own
        `id_` archive URL. */
    method DownloadItem(item: ClientItems.Item, net: Http.Network)
      returns (r: Result<seq<U8>, Error>, attempts: nat, requestUrl: string)
      ensures requestUrl == ClientItems.WaybackUrl(item, true)
      ensures 1 <= attempts <= RetryBound(retryCount) + 1 && r == Body(net(attempts - 1))
      ensures forall i :: 0 <= i < attempts - 1 ==> Body(net(i)).Failure? && Transient(Body(net(i)).error)
      ensures r.Failure? && Transient(r.error) ==> attempts == RetryBound(retryCount) + 1
    {
      r, attempts, requestUrl := Download(item.url, ClientItems.Timestamp(item), true, net);
      SnapshotWaybackUrl(item, true);
    }
  }
}
