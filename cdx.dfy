/**
 * The CDX index client (`src/cdx.rs`): search URLs, the exchange with the
 * CDX server, the decoding of its JSON rows into snapshots, the resume-key
 * trailer of a page, paging through a result set, and the retry policy of
 * its errors. The response body's text decoding and the JSON decoder are
 * parameters.
 */
module Cdx {
  import opened Wrappers
  import opened Text
  import Items
  import Observe
  import Http
  import Retries

  const DEFAULT_CDX_BASE: string := "http://web.archive.org/cdx/search/cdx"
  const CDX_OPTIONS: string := "&output=json&fl=original,timestamp,digest,mimetype,length,statuscode"
  const BLOCKED_SITE_ERROR_MESSAGE: string :=
    "org.archive.util.io.RuntimeIOException: org.archive.wayback.exception.AdministrativeAccessControlException: Blocked Site Error\n"

  /** The errors of a search. `EmptyResumeKeyRow` stands for the panic of a
      page whose resume-key row is empty. */
  datatype Error =
    | ItemParsingError(itemError: Items.Error)
    | HttpClientError(clientError: Http.ClientError)
    | JsonError
    | BlockedQuery(query: string)
    | EmptyResumeKeyRow

  const MILLISECOND: nat := 1_000_000
  const SECOND: nat := 1_000_000_000

  /** Client failures and JSON failures wait 30 seconds before the next
      attempt; every other error stops the retries. No error falls back to
      the exponential backoff. */
  function CustomRetryPolicy(e: Error): (p: Option<Retries.RetryPolicy>)
    ensures p.Some?
    ensures p == Some(Retries.Delay(30 * SECOND)) <==> e.HttpClientError? || e.JsonError?
    ensures p == Some(Retries.Break) <==> !(e.HttpClientError? || e.JsonError?)
  {
    match e
    case HttpClientError(_) => Some(Retries.Delay(30 * SECOND))
    case JsonError => Some(Retries.Delay(30 * SECOND))
    case _ => Some(Retries.Break)
  }

  /** The `Retryable` implementation: seven retries, 250 ms initial delay,
      logged at `Warn`. */
  const RETRYABLE: Retries.RetryableSpec<Error> :=
    Retries.RetryableSpec(7, 250 * MILLISECOND, Some(Retries.Warn), CustomRetryPolicy)

  /** A retried search: a transient failure is reported only once all seven
      retries have failed, and any other failure ends the retries at once. */
  method RetrySearch<T>(attempt: nat -> Result<T, Error>) returns (r: Result<T, Error>, attempts: nat)
    ensures 1 <= attempts <= 8 && r == attempt(attempts - 1)
    ensures forall i :: 0 <= i < attempts - 1 ==>
      attempt(i).Failure? && (attempt(i).error.HttpClientError? || attempt(i).error.JsonError?)
    ensures r.Failure? && (r.error.HttpClientError? || r.error.JsonError?) ==> attempts == 8
  {
    r, attempts := Retries.RetryFn(RETRYABLE, attempt);
  }

  /** `IndexClient`: the server base URL and the optional pacer, User-Agent
      and observer. */
  class IndexClient {
    var base: string
    var pacer: bool
    var userAgent: Option<string>
    var observer: bool

    /** `IndexClient::new`: no pacer, no observer, and the library's own
        User-Agent. */
    constructor (base: string, version: string)
      ensures this.base == base && !pacer && !observer
      ensures userAgent == Some("wayback-rs/" + version)
    {
      this.base := base;
      pacer := false;
      userAgent := Some("wayback-rs/" + version);
      observer := false;
    }

    method WithPacer()
      modifies this
      ensures pacer && base == old(base) && userAgent == old(userAgent) && observer == old(observer)
    {
      pacer := true;
    }

    method WithObserver()
      modifies this
      ensures observer && base == old(base) && userAgent == old(userAgent) && pacer == old(pacer)
    {
      observer := true;
    }

    method WithUserAgent(userAgent: string)
      modifies this
      ensures this.userAgent == Some(userAgent)
      ensures base == old(base) && pacer == old(pacer) && observer == old(observer)
    {
      this.userAgent := Some(userAgent);
    }

    method WithoutUserAgent()
      modifies this
      ensures userAgent.None? && base == old(base) && pacer == old(pacer) && observer == old(observer)
    {
      userAgent := None;
    }
  }

  // ------------------------------------------------------------ rows

  function Field(row: seq<string>, i: nat): Option<string> {
    if i < |row| then Some(row[i]) else None
  }

  /** A row read positionally as url, timestamp, digest, MIME type, length
      and status. */
  function DecodeRow(row: seq<string>): (r: Result<Items.Item, Error>)
    ensures r.Failure? ==> r.error.ItemParsingError?
  {
    match Items.ParseOptionalRecord(Field(row, 0), Field(row, 1), Field(row, 2),
                                    Field(row, 3), Field(row, 4), Field(row, 5))
    case Failure(e) => Failure(ItemParsingError(e))
    case Success(item) => Success(item)
  }

  /** The error for a row that ends before position `i`. */
  function MissingField(i: nat): Items.Error
    requires i < 6
  {
    [Items.MissingUrl, Items.MissingTimestamp, Items.MissingDigest,
     Items.MissingMimeType, Items.MissingLength, Items.MissingStatus][i]
  }

  /** A row shorter than six fields fails on its first absent position. */
  lemma ShortRow(row: seq<string>)
    requires |row| < 6
    ensures DecodeRow(row) == Failure(ItemParsingError(MissingField(|row|)))
  {
  }

  /** The decoded data rows of a page, the header excluded. */
  function DataRows(rows: seq<seq<string>>): (rs: seq<Result<Items.Item, Error>>)
    ensures |rs| == if rows == [] then 0 else |rows| - 1
    ensures forall i :: 1 <= i < |rows| ==> rs[i - 1] == DecodeRow(rows[i])
  {
    if rows == [] then [] else Map(DecodeRow, rows[1..])
  }

  /** `decode_rows`: the header row is dropped and every other row decoded
      positionally; the page fails as a whole, with the error of its first
      failing row, when one of its rows does. */
  function DecodeRows(rows: seq<seq<string>>): (r: Result<seq<Items.Item>, Error>)
    ensures r.Success? ==> |r.value| == if |rows| == 0 then 0 else |rows| - 1
    ensures r.Success? <==> forall i :: 1 <= i < |rows| ==> DecodeRow(rows[i]).Success?
    ensures r.Success? ==> forall i :: 1 <= i < |rows| ==> DecodeRow(rows[i]) == Success(r.value[i - 1])
    ensures r.Failure? ==> r.error.ItemParsingError?
  {
    Collect(DataRows(rows))
  }

  /** The first failing data row decides the error of the page. */
  lemma {:induction false} DecodeRowsFirstFailure(rows: seq<seq<string>>, j: nat)
    requires 1 <= j < |rows| && DecodeRow(rows[j]).Failure?
    requires forall i :: 1 <= i < j ==> DecodeRow(rows[i]).Success?
    ensures DecodeRows(rows) == Failure(DecodeRow(rows[j]).error)
  {
    DataRowsFirstFailure(DataRows(rows), rows, j);
  }

  /** `Collect` on the data rows of a page stops at the failing row `j`. */
  lemma {:induction false} DataRowsFirstFailure(rs: seq<Result<Items.Item, Error>>, rows: seq<seq<string>>, j: nat)
    requires 1 <= j < |rows| && |rs| == |rows| - 1
    requires rs[j - 1].Failure?
    requires forall i :: 0 <= i < j - 1 ==> rs[i].Success?
    ensures Collect(rs) == Failure(rs[j - 1].error)
  {
    CollectFirstFailure(rs, j - 1);
  }

  lemma DecodeRecord(row: seq<string>, item: Items.Item)
    requires row == Items.ToRecord(item)
    ensures DecodeRow(row) == Success(item)
  {
    Items.RecordRoundTrip(item);
  }

  /** The CDX rows of some snapshots, in order. */
  function Records(items: seq<Items.Item>): (rows: seq<seq<string>>)
    ensures |rows| == |items| && forall i :: 0 <= i < |items| ==> rows[i] == Items.ToRecord(items[i])
  {
    seq(|items|, i requires 0 <= i < |items| => Items.ToRecord(items[i]))
  }

  lemma DataRowOfRecord(header: seq<string>, items: seq<Items.Item>, i: nat)
    requires i < |items|
    ensures i < |DataRows([header] + Records(items))|
    ensures DataRows([header] + Records(items))[i] == Success(items[i])
  {
    var rows := [header] + Records(items);
    var row := rows[i + 1];
    assert row == Items.ToRecord(items[i]);
    DecodeRecord(row, items[i]);
  }

  lemma DataRowsOfRecords(header: seq<string>, items: seq<Items.Item>)
    ensures var rs := DataRows([header] + Records(items));
      |rs| == |items| && forall i :: 0 <= i < |items| ==> rs[i] == Success(items[i])
  {
    forall i | 0 <= i < |items|
      ensures DataRows([header] + Records(items))[i] == Success(items[i])
    {
      DataRowOfRecord(header, items, i);
    }
  }

  /** A header followed by the records of some snapshots decodes to exactly
      those snapshots. */
  lemma DecodeRecords(header: seq<string>, items: seq<Items.Item>)
    ensures DecodeRows([header] + Records(items)) == Success(items)
  {
    DataRowsOfRecords(header, items);
    CollectSuccesses(DataRows([header] + Records(items)), items);
  }

  /** `load_json`: rows from the JSON decoder, then `decode_rows`. */
  function LoadJson(input: seq<U8>, json: seq<U8> -> Option<seq<seq<string>>>): (r: Result<seq<Items.Item>, Error>)
    ensures json(input).None? <==> r == Failure(JsonError)
    ensures json(input).Some? ==> r == DecodeRows(json(input).value)
  {
    match json(input)
    case None => Failure(JsonError)
    case Some(rows) => DecodeRows(rows)
  }

  // ------------------------------------------------------------ resume key

  /** A page ends with a resume-key trailer when its penultimate row is
      empty. */
  predicate HasTrailer(rows: seq<seq<string>>) {
    |rows| >= 2 && rows[|rows| - 2] == []
  }

  /** The page rows without the trailer, and the resume key it holds. */
  function SplitResumeKey(rows: seq<seq<string>>): (r: Result<(seq<seq<string>>, Option<string>), Error>)
    ensures !HasTrailer(rows) ==> r == Success((rows, None))
    ensures HasTrailer(rows) && rows[|rows| - 1] == [] ==> r == Failure(EmptyResumeKeyRow)
    ensures r.Success? && r.value.1.Some? ==>
      rows == r.value.0 + [[], [r.value.1.value] + rows[|rows| - 1][1..]]
  {
    if !HasTrailer(rows) then Success((rows, None))
    else
      var last := rows[|rows| - 1];
      if last == [] then Failure(EmptyResumeKeyRow)
      else
        assert [last[0]] + last[1..] == last;
        assert rows == rows[..|rows| - 2] + [rows[|rows| - 2], rows[|rows| - 1]];
        Success((rows[..|rows| - 2], Some(last[0])))
  }

  /** The resume key is peeled off in place: the last row is removed, then
      the empty one before it, and the key is the first field of the
      removed last row. */
  method TakeResumeKey(rows: seq<seq<string>>) returns (r: Result<(seq<seq<string>>, Option<string>), Error>)
    ensures r == SplitResumeKey(rows)
  {
    var page := rows;
    var len := |page|;
    if len >= 2 && page[len - 2] == [] {
      var last := page[len - 1];
      page := page[..len - 1];
      page := page[..len - 2];
      assert page == rows[..len - 2];
      if last == [] {
        return Failure(EmptyResumeKeyRow);
      }
      r := Success((page, Some(last[0])));
    } else {
      r := Success((page, None));
    }
  }

  /** The items and resume key of a decoded page. */
  function PageOf(rows: seq<seq<string>>): (r: Result<(seq<Items.Item>, Option<string>), Error>)
    ensures r.Success? ==> (r.value.1.Some? <==> HasTrailer(rows))
    ensures r.Success? && r.value.1.Some? ==>
      HasTrailer(rows) && rows[|rows| - 1] != [] && r.value.1.value == rows[|rows| - 1][0]
    ensures r.Success? && !HasTrailer(rows) ==> |r.value.0| == if rows == [] then 0 else |rows| - 1
    ensures r.Success? && HasTrailer(rows) ==> |r.value.0| == if |rows| == 2 then 0 else |rows| - 3
    ensures HasTrailer(rows) && rows[|rows| - 1] == [] ==> r == Failure(EmptyResumeKeyRow)
  {
    match SplitResumeKey(rows)
    case Failure(e) => Failure(e)
    case Success((data, key)) =>
      match DecodeRows(data)
      case Failure(e) => Failure(e)
      case Success(items) => Success((items, key))
  }

  /** Rows none of which is empty, followed by a key trailer or not, split
      back into those rows and that key. */
  lemma SplitOfPage(data: seq<seq<string>>, key: Option<string>)
    requires forall i :: 0 <= i < |data| ==> data[i] != []
    ensures SplitResumeKey(data + (if key.Some? then [[], [key.value]] else [])) == Success((data, key))
  {
    var rows := data + (if key.Some? then [[], [key.value]] else []);
    if key.Some? {
      assert HasTrailer(rows) && rows[|rows| - 1] == [key.value];
      assert rows[..|rows| - 2] == data;
    } else {
      assert rows == data;
    }
  }

  /** A page written as a header, the records of some snapshots and
      possibly a key trailer reads back as those snapshots and that key. */
  lemma PageOfRecords(header: seq<string>, items: seq<Items.Item>, key: Option<string>)
    requires header != []
    ensures var trailer := if key.Some? then [[], [key.value]] else [];
      PageOf([header] + Records(items) + trailer) == Success((items, key))
  {
    var data := [header] + Records(items);
    var trailer := if key.Some? then [[], [key.value]] else [];
    assert [header] + Records(items) + trailer == data + trailer;
    SplitOfPage(data, key);
    assert SplitResumeKey(data + trailer) == Success((data, key));
    DecodeRecords(header, items);
  }

  // ------------------------------------------------------------ URLs

  function ResumeKeyParam(key: Option<string>): string {
    if key.Some? then "&resumeKey=" + key.value else ""
  }

  /** What follows the query and the resume key in a page URL. */
  function PageOptions(limit: nat): string {
    "&limit=" + ToDecimal(limit) + "&showResumeKey=true" + CDX_OPTIONS
  }

  /** The URL of one page of a search. */
  function QueryUrl(base: string, query: string, limit: nat, key: Option<string>): (u: string)
    ensures StartsWith(u, base + "?url=" + query)
  {
    base + "?url=" + query + ResumeKeyParam(key) + PageOptions(limit)
  }

  /** The URL with a resume key is the URL without one with
      `&resumeKey=<key>` inserted right after the query. */
  lemma QueryUrlResumeKey(base: string, query: string, limit: nat, key: string)
    ensures var plain := QueryUrl(base, query, limit, None);
      var n := |base| + 5 + |query|;
      n <= |plain| && QueryUrl(base, query, limit, Some(key)) == plain[..n] + "&resumeKey=" + key + plain[n..]
  {
    var head := base + "?url=" + query;
    var tail := PageOptions(limit);
    var plain := QueryUrl(base, query, limit, None);
    assert head + "" == head;
    assert plain == head + tail;
    assert plain[..|head|] == head && plain[|head|..] == tail;
  }

  /** One `&filter=<field>:<value>` parameter, when a value is given. */
  function FilterParam(field: string, value: Option<string>): (p: string)
    ensures p == [] <==> value.None?
  {
    if value.Some? then "&filter=" + field + ":" + value.value else ""
  }

  /** The filters of `search`, built by appending: the timestamp filter
      first, then the digest filter, each only when given. */
  method BuildFilter(timestamp: Option<string>, digest: Option<string>) returns (filter: string)
    ensures timestamp.None? && digest.None? <==> filter == []
    ensures filter == FilterParam("timestamp", timestamp) + FilterParam("digest", digest)
  {
    filter := "";
    if timestamp.Some? {
      filter := filter + FilterParam("timestamp", timestamp);
    }
    ghost var first := filter;
    assert first == FilterParam("timestamp", timestamp);
    if digest.Some? {
      filter := filter + FilterParam("digest", digest);
    }
    assert filter == first + FilterParam("digest", digest);
  }

  function SearchUrl(base: string, query: string, filter: string): (u: string)
    ensures StartsWith(u, base + "?url=" + query + filter)
    ensures |u| == |base| + 5 + |query| + |filter| + |CDX_OPTIONS|
  {
    base + "?url=" + query + filter + CDX_OPTIONS
  }

  // ------------------------------------------------------------ exchange

  /** One GET against the CDX server: start event and pacer in the given
      order, the request, then the completion or error event, and the body
      text. A body that cannot be read fails without a closing event. */
  method Exchange(client: IndexClient, order: Http.Order, url: string, reply: Http.Reply,
                  text: seq<U8> -> string)
    returns (body: Result<(U16, string), Http.ClientError>, trace: seq<Http.Step>, ghost record: Http.RequestRecord)
    ensures record.order == order && record.surface == Observe.Cdx
    ensures record.httpMethod == "GET" && record.url == url
    ensures trace == Http.RecordSteps(client.pacer, client.observer, record)
    ensures reply.outcome.Failure? ==>
      && body == Failure(reply.outcome.error)
      && record.after == [Http.SendFailed(Observe.Cdx, "GET", url, reply.outcome.error, reply.elapsed)]
    ensures reply.outcome.Success? && reply.outcome.value.body.Failure? ==>
      body == Failure(reply.outcome.value.body.error) && record.after == []
    ensures reply.outcome.Success? && reply.outcome.value.body.Success? ==>
      && body == Success((reply.outcome.value.status, text(reply.outcome.value.body.value)))
      && record.after == [Http.Completed(Observe.Cdx, "GET", url, reply.outcome.value.status, reply.elapsed)]
  {
    var start := Http.Emitted(client.observer, Observe.StartEvent(Observe.Cdx, "GET", url));
    if order == Http.PaceThenStart {
      trace := Http.Paced(client.pacer) + start;
    } else {
      trace := start + Http.Paced(client.pacer);
    }
    trace := trace + [Http.Send("GET", url)];
    record := Http.RequestRecord(order, Observe.Cdx, "GET", url, []);
    match reply.outcome {
      case Failure(e) =>
        var ev := Http.SendFailed(Observe.Cdx, "GET", url, e, reply.elapsed);
        Http.RecordStepsSnoc(client.pacer, client.observer, record, ev);
        record := record.(after := [ev]);
        trace := trace + Http.Emitted(client.observer, ev);
        body := Failure(e);
      case Success(response) =>
        match response.body {
          case Failure(e) =>
            body := Failure(e);
          case Success(bytes) =>
            var ev := Http.Completed(Observe.Cdx, "GET", url, response.status, reply.elapsed);
            Http.RecordStepsSnoc(client.pacer, client.observer, record, ev);
            record := record.(after := [ev]);
            trace := trace + Http.Emitted(client.observer, ev);
            body := Success((response.status, text(bytes)));
        }
    }
  }

  /** The body of a reply was received in full. */
  predicate Received(reply: Http.Reply) {
    reply.outcome.Success? && reply.outcome.value.body.Success?
  }

  /** The body of a reply was lost after its headers arrived. */
  predicate BodyLost(reply: Http.Reply) {
    reply.outcome.Success? && reply.outcome.value.body.Failure?
  }

  function Status(reply: Http.Reply): U16
    requires reply.outcome.Success?
  {
    reply.outcome.value.status
  }

  function BodyText(reply: Http.Reply, text: seq<U8> -> string): string
    requires Received(reply)
  {
    text(reply.outcome.value.body.value)
  }

  /** The error event that follows the completion of a CDX request whose
      body is not JSON. */
  function DecodeFailed(url: string, status: U16, elapsed: Observe.Duration): (ev: Observe.Event)
    ensures Observe.WellFormed(ev) && ev.phase == Observe.Error && ev.error == Some(Observe.Decode)
    ensures ev.status == Some(status) && ev.surface == Observe.Cdx && ev.url == url
  {
    Observe.ErrorEvent(Observe.Cdx, "GET", url, Some(status), Some(elapsed), Observe.Decode)
  }

  /** `search_with_resume_key`: one page of a search. The start event comes
      before the pacer. A client failure closes the request with an error
      event; a received body closes it with a completion. The blocked-site
      message is reported as `BlockedQuery` without JSON decoding; a body
      that is not JSON adds a `Decode` error event; otherwise the resume-key
      trailer is peeled off and the rows decoded. */
  method SearchWithResumeKey(client: IndexClient, query: string, limit: nat, key: Option<string>,
                             reply: Http.Reply, text: seq<U8> -> string,
                             json: string -> Option<seq<seq<string>>>)
    returns (r: Result<(seq<Items.Item>, Option<string>), Error>, trace: seq<Http.Step>,
             ghost record: Http.RequestRecord)
    ensures record.order == Http.StartThenPace && record.surface == Observe.Cdx && record.httpMethod == "GET"
    ensures record.url == QueryUrl(client.base, query, limit, key)
    ensures trace == Http.RecordSteps(client.pacer, client.observer, record)
    ensures reply.outcome.Failure? ==>
      && r == Failure(HttpClientError(reply.outcome.error))
      && Http.Closed(record) && |record.after| == 1 && record.after[0].phase == Observe.Error
      && record.after[0].error == Some(Http.TransportClass(reply.outcome.error))
    ensures BodyLost(reply) ==>
      r == Failure(HttpClientError(reply.outcome.value.body.error)) && record.after == []
    ensures Received(reply) ==>
      && Http.Closed(record) && record.after[0].phase == Observe.Complete
      && record.after[0].status == Some(Status(reply))
    ensures Received(reply) && BodyText(reply, text) == BLOCKED_SITE_ERROR_MESSAGE ==>
      r == Failure(BlockedQuery(query)) && |record.after| == 1
    ensures Received(reply) && BodyText(reply, text) != BLOCKED_SITE_ERROR_MESSAGE
            && json(BodyText(reply, text)).None? ==>
      && r == Failure(JsonError)
      && record.after == [record.after[0], DecodeFailed(record.url, Status(reply), reply.elapsed)]
    ensures Received(reply) && BodyText(reply, text) != BLOCKED_SITE_ERROR_MESSAGE
            && json(BodyText(reply, text)).Some? ==>
      r == PageOf(json(BodyText(reply, text)).value) && |record.after| == 1
  {
    var url := QueryUrl(client.base, query, limit, key);
    var body;
    body, trace, record := Exchange(client, Http.StartThenPace, url, reply, text);
    match body {
      case Failure(e) =>
        r := Failure(HttpClientError(e));
      case Success((status, contents)) =>
        if contents == BLOCKED_SITE_ERROR_MESSAGE {
          r := Failure(BlockedQuery(query));
        } else {
          match json(contents) {
            case None =>
              var ev := DecodeFailed(url, status, reply.elapsed);
              Http.RecordStepsSnoc(client.pacer, client.observer, record, ev);
              record := record.(after := record.after + [ev]);
              trace := trace + Http.Emitted(client.observer, ev);
              r := Failure(JsonError);
            case Some(rows) =>
              var split := TakeResumeKey(rows);
              match split {
                case Failure(e) =>
                  r := Failure(e);
                case Success((data, nextKey)) =>
                  match DecodeRows(data) {
                    case Failure(e) => r := Failure(e);
                    case Success(items) => r := Success((items, nextKey));
                  }
              }
          }
        }
    }
  }

  /** `search`: a whole result set in one request, with optional timestamp
      and digest filters. The pacer runs before the start event; otherwise
      the exchange, the blocked-site check and the decoding are those of a
      page, without a resume key. */
  method Search(client: IndexClient, query: string, timestamp: Option<string>, digest: Option<string>,
                reply: Http.Reply, text: seq<U8> -> string, json: string -> Option<seq<seq<string>>>)
    returns (r: Result<seq<Items.Item>, Error>, trace: seq<Http.Step>, ghost record: Http.RequestRecord)
    ensures record.order == Http.PaceThenStart && record.surface == Observe.Cdx && record.httpMethod == "GET"
    ensures record.url == SearchUrl(client.base, query, FilterParam("timestamp", timestamp) + FilterParam("digest", digest))
    ensures trace == Http.RecordSteps(client.pacer, client.observer, record)
    ensures reply.outcome.Failure? ==>
      && r == Failure(HttpClientError(reply.outcome.error))
      && Http.Closed(record) && |record.after| == 1 && record.after[0].phase == Observe.Error
    ensures BodyLost(reply) ==>
      r == Failure(HttpClientError(reply.outcome.value.body.error)) && record.after == []
    ensures Received(reply) ==>
      && Http.Closed(record) && record.after[0].phase == Observe.Complete
      && record.after[0].status == Some(Status(reply))
    ensures Received(reply) && BodyText(reply, text) == BLOCKED_SITE_ERROR_MESSAGE ==>
      r == Failure(BlockedQuery(query)) && |record.after| == 1
    ensures Received(reply) && BodyText(reply, text) != BLOCKED_SITE_ERROR_MESSAGE
            && json(BodyText(reply, text)).None? ==>
      && r == Failure(JsonError)
      && record.after == [record.after[0], DecodeFailed(record.url, Status(reply), reply.elapsed)]
    ensures Received(reply) && BodyText(reply, text) != BLOCKED_SITE_ERROR_MESSAGE
            && json(BodyText(reply, text)).Some? ==>
      r == DecodeRows(json(BodyText(reply, text)).value) && |record.after| == 1
  {
    var filter := BuildFilter(timestamp, digest);
    var url := SearchUrl(client.base, query, filter);
    var body;
    body, trace, record := Exchange(client, Http.PaceThenStart, url, reply, text);
    match body {
      case Failure(e) =>
        r := Failure(HttpClientError(e));
      case Success((status, contents)) =>
        if contents == BLOCKED_SITE_ERROR_MESSAGE {
          r := Failure(BlockedQuery(query));
        } else {
          match json(contents) {
            case None =>
              var ev := DecodeFailed(url, status, reply.elapsed);
              Http.RecordStepsSnoc(client.pacer, client.observer, record, ev);
              record := record.(after := record.after + [ev]);
              trace := trace + Http.Emitted(client.observer, ev);
              r := Failure(JsonError);
            case Some(rows) =>
              r := DecodeRows(rows);
          }
        }
    }
  }

  // ------------------------------------------------------------ paging

  /** The retried outcome of the `n`-th page request, made with the given
      resume key. */
  type PageFetch = (nat, Option<string>) -> Result<(seq<Items.Item>, Option<string>), Error>

  /** The snapshots of a paged search from page `page` on, requested with
      `key`, and the error that ended it if any. Paging stops after a page
      without a key, at the first error, or after `fuel` pages. */
  function Paged(fetch: PageFetch, page: nat, key: Option<string>, fuel: nat): (r: (seq<Items.Item>, Option<Error>))
    ensures fuel > 0 && fetch(page, key).Success? ==> fetch(page, key).value.0 <= r.0
    decreases fuel
  {
    if fuel == 0 then ([], None)
    else match fetch(page, key)
      case Failure(e) => ([], Some(e))
      case Success((items, None)) => (items, None)
      case Success((items, Some(next))) =>
        var rest := Paged(fetch, page + 1, Some(next), fuel - 1);
        (items + rest.0, rest.1)
  }

  /** An error that ends a paged search is the error of one of its page
      requests. */
  lemma {:induction false} PagedError(fetch: PageFetch, page: nat, key: Option<string>, fuel: nat)
    requires Paged(fetch, page, key, fuel).1.Some?
    ensures exists p, k :: page <= p < page + fuel && fetch(p, k) == Failure(Paged(fetch, page, key, fuel).1.value)
    decreases fuel
  {
    if fetch(page, key).Success? {
      PagedError(fetch, page + 1, fetch(page, key).value.1, fuel - 1);
    }
  }

  /** Page `j` succeeded with a resume key, which is the key of page
      `j + 1`. */
  ghost predicate Chained(fetch: PageFetch, keys: seq<Option<string>>, j: nat)
    requires j + 1 < |keys|
  {
    fetch(j, keys[j]).Success? && keys[j + 1] == fetch(j, keys[j]).value.1 && keys[j + 1].Some?
  }

  /** `stream_search`: pages requested one after another, the first without
      a resume key and each later one with the key of the page before; the
      snapshots come out in page order, and an error ends the stream.
      `maxPages` bounds the number of requests. */
  method StreamSearch(fetch: PageFetch, maxPages: nat)
    returns (items: seq<Items.Item>, err: Option<Error>, ghost keys: seq<Option<string>>)
    ensures (items, err) == Paged(fetch, 0, None, maxPages)
    ensures |keys| <= maxPages && (maxPages > 0 ==> |keys| > 0 && keys[0] == None)
    ensures forall j :: 0 <= j < |keys| - 1 ==> Chained(fetch, keys, j)
    ensures 0 < |keys| < maxPages ==>
      var last := fetch(|keys| - 1, keys[|keys| - 1]);
      last.Failure? || last.value.1.None?
  {
    items, err, keys := [], None, [];
    var key: Option<string> := None;
    var page: nat := 0;
    var more := true;
    assert items + Paged(fetch, page, key, maxPages - page).0 == Paged(fetch, 0, None, maxPages).0;
    while more && page < maxPages
      invariant page <= maxPages && |keys| == page
      invariant page > 0 ==> keys[0] == None
      invariant forall j :: 0 <= j < page - 1 ==> Chained(fetch, keys, j)
      invariant more && page > 0 ==>
        fetch(page - 1, keys[page - 1]).Success? && key == fetch(page - 1, keys[page - 1]).value.1 && key.Some?
      invariant more && page == 0 ==> key.None?
      invariant !more ==> 0 < page
      invariant !more ==> fetch(page - 1, keys[page - 1]).Failure? || fetch(page - 1, keys[page - 1]).value.1.None?
      invariant more ==> err.None?
      invariant more ==> items + Paged(fetch, page, key, maxPages - page).0 == Paged(fetch, 0, None, maxPages).0
      invariant more ==> Paged(fetch, page, key, maxPages - page).1 == Paged(fetch, 0, None, maxPages).1
      invariant !more ==> (items, err) == Paged(fetch, 0, None, maxPages)
      decreases maxPages - page, more
    {
      var rest := Paged(fetch, page, key, maxPages - page);
      ghost var prev := keys;
      keys := keys + [key];
      forall j | 0 <= j < page
        ensures Chained(fetch, keys, j)
      {
        assert keys[j] == prev[j] && keys[j + 1] == (if j + 1 < page then prev[j + 1] else key);
        if j + 1 < page {
          assert Chained(fetch, prev, j);
        }
      }
      match fetch(page, key) {
        case Failure(e) =>
          assert items + [] == items;
          err := Some(e);
          more := false;
        case Success((pageItems, nextKey)) =>
          if nextKey.None? {
            more := false;
          } else {
            var after := Paged(fetch, page + 1, nextKey, maxPages - page - 1);
            assert rest.0 == pageItems + after.0;
            assert items + rest.0 == (items + pageItems) + after.0;
          }
          items := items + pageItems;
          key := nextKey;
      }
      page := page + 1;
    }
    if more {
      assert items + [] == items;
    }
  }
}
