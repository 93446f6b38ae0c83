/**
 * The CDX client of the client crate (`client/src/cdx.rs`): the same row
 * decoding as the library's client over the client's own snapshot record,
 * JSON loading, and a single search request without observer, pacer or
 * blocked-site check. The JSON decoder is a parameter.
 */
module ClientCdx {
  import opened Wrappers
  import opened Text
  import ClientItems
  import Http
  import Cdx

  datatype Error =
    | ItemParsingError(itemError: ClientItems.Error)
    | HttpClientError(clientError: Http.ClientError)
    | JsonError

  /** A row read positionally as url, timestamp, digest, MIME type, length
      and status. */
  function DecodeRow(row: seq<string>): (r: Result<ClientItems.Item, Error>)
    ensures r.Failure? ==> r.error.ItemParsingError?
  {
    match ClientItems.ParseOptional(Cdx.Field(row, 0), Cdx.Field(row, 1), Cdx.Field(row, 2),
                                    Cdx.Field(row, 3), Cdx.Field(row, 4), Cdx.Field(row, 5))
    case Failure(e) => Failure(ItemParsingError(e))
    case Success(item) => Success(item)
  }

  /** The decoded data rows of a page, the header excluded. */
  function DataRows(rows: seq<seq<string>>): (rs: seq<Result<ClientItems.Item, Error>>)
    ensures |rs| == if rows == [] then 0 else |rows| - 1
    ensures forall i :: 1 <= i < |rows| ==> rs[i - 1] == DecodeRow(rows[i])
  {
    if rows == [] then [] else Map(DecodeRow, rows[1..])
  }

  /** `decode_rows`: the header row is skipped and every other row decoded
      positionally; any failing row fails the whole decoding. */
  function DecodeRows(rows: seq<seq<string>>): (r: Result<seq<ClientItems.Item>, Error>)
    ensures r.Success? ==> |r.value| == if |rows| == 0 then 0 else |rows| - 1
    ensures r.Success? <==> forall i :: 1 <= i < |rows| ==> DecodeRow(rows[i]).Success?
    ensures r.Success? ==> forall i :: 1 <= i < |rows| ==> DecodeRow(rows[i]) == Success(r.value[i - 1])
    ensures r.Failure? ==> r.error.ItemParsingError?
  {
    Collect(DataRows(rows))
  }

  /** The first failing data row decides the error. */
  lemma {:induction false} DecodeRowsFirstFailure(rows: seq<seq<string>>, j: nat)
    requires 1 <= j < |rows| && DecodeRow(rows[j]).Failure?
    requires forall i :: 1 <= i < |rows| && i < j ==> DecodeRow(rows[i]).Success?
    ensures DecodeRows(rows) == Failure(DecodeRow(rows[j]).error)
  {
    DataRowsFirstFailure(DataRows(rows), rows, j);
  }

  /** `Collect` on the data rows of a page stops at the failing row `j`. */
  lemma {:induction false} DataRowsFirstFailure(rs: seq<Result<ClientItems.Item, Error>>, rows: seq<seq<string>>, j: nat)
    requires 1 <= j < |rows| && |rs| == |rows| - 1
    requires rs[j - 1].Failure?
    requires forall i :: 0 <= i < j - 1 ==> rs[i].Success?
    ensures Collect(rs) == Failure(rs[j - 1].error)
  {
    CollectFirstFailure(rs, j - 1);
  }

  /** The fields of a snapshot as the archive lists them. */
  function Printed(item: ClientItems.Item): (row: seq<string>)
    ensures |row| == 6
  {
    [item.url, ClientItems.Timestamp(item), item.digest, item.mimeType,
     ToDecimal(item.length), ClientItems.StatusCode(item)]
  }

  lemma DecodePrinted(row: seq<string>, item: ClientItems.Item)
    requires row == Printed(item)
    ensures DecodeRow(row) == Success(item)
  {
    ClientItems.ParsePrintedFields(item);
  }

  lemma DataRowOfPrinted(header: seq<string>, items: seq<ClientItems.Item>, i: nat)
    requires i < |items|
    ensures i < |DataRows([header] + seq(|items|, k requires 0 <= k < |items| => Printed(items[k])))|
    ensures DataRows([header] + seq(|items|, k requires 0 <= k < |items| => Printed(items[k])))[i]
         == Success(items[i])
  {
    var rows := [header] + seq(|items|, k requires 0 <= k < |items| => Printed(items[k]));
    var row := rows[i + 1];
    assert row == Printed(items[i]);
    DecodePrinted(row, items[i]);
  }

  /** A header followed by the printed fields of some snapshots decodes to
      exactly those snapshots. */
  lemma DecodePrintedRows(header: seq<string>, items: seq<ClientItems.Item>)
    ensures DecodeRows([header] + seq(|items|, k requires 0 <= k < |items| => Printed(items[k]))) == Success(items)
  {
    var rows := [header] + seq(|items|, k requires 0 <= k < |items| => Printed(items[k]));
    forall i | 0 <= i < |items|
      ensures DataRows(rows)[i] == Success(items[i])
    {
      DataRowOfPrinted(header, items, i);
    }
    CollectSuccesses(DataRows(rows), items);
  }

  /** `load_json`: the rows the JSON decoder reads from the input, then
      `decode_rows`; input that is not a JSON array of string arrays is a
      `JsonError`. */
  function LoadJson(input: seq<U8>, json: seq<U8> -> Option<seq<seq<string>>>): (r: Result<seq<ClientItems.Item>, Error>)
    ensures json(input).None? <==> r == Failure(JsonError)
    ensures json(input).Some? ==> r == DecodeRows(json(input).value)
  {
    match json(input)
    case None => Failure(JsonError)
    case Some(rows) => DecodeRows(rows)
  }

  /** `search`: the URL is the base, the query, the optional timestamp and
      digest filters and the field options. Any status is accepted; the
      body is decoded as JSON by the HTTP client, so a body that is not JSON
      is a client failure (neither a timeout nor a connection failure), not
      a `JsonError`. */
  method Search(base: string, query: string, timestamp: Option<string>, digest: Option<string>,
                reply: Http.Reply, json: seq<U8> -> Option<seq<seq<string>>>)
    returns (r: Result<seq<ClientItems.Item>, Error>, url: string)
    ensures url == Cdx.SearchUrl(base, query, Cdx.FilterParam("timestamp", timestamp) + Cdx.FilterParam("digest", digest))
    ensures reply.outcome.Failure? ==> r == Failure(HttpClientError(reply.outcome.error))
    ensures Cdx.BodyLost(reply) ==> r == Failure(HttpClientError(reply.outcome.value.body.error))
    ensures Cdx.Received(reply) && json(reply.outcome.value.body.value).None? ==>
      r == Failure(HttpClientError(Http.OtherFailure))
    ensures Cdx.Received(reply) && json(reply.outcome.value.body.value).Some? ==>
      r == DecodeRows(json(reply.outcome.value.body.value).value)
  {
    var filter := Cdx.BuildFilter(timestamp, digest);
    url := Cdx.SearchUrl(base, query, filter);
    match reply.outcome {
      case Failure(e) =>
        r := Failure(HttpClientError(e));
      case Success(response) =>
        match response.body {
          case Failure(e) =>
            r := Failure(HttpClientError(e));
          case Success(bytes) =>
            match json(bytes) {
              case None => r := Failure(HttpClientError(Http.OtherFailure));
              case Some(rows) => r := DecodeRows(rows);
            }
        }
    }
  }
}
