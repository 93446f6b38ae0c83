# wayback-rs in Dafny

A model of the core of wayback-rs, a Rust library and set of command-line
tools for the Internet Archive's Wayback Machine. They search its CDX
index for the snapshots of a URL, download the archived content, resolve
the redirects the archive stores, check every download against its SHA-1
digest, and keep the results in a content-addressed store, SQLite indexes
and Parquet files. The model follows both crates: the library crate
(`src/`) and the older client crate (`client/src/`).

One module per source file:

- `Items`, `ClientItems`: the snapshot record and its six CDX fields, and
  archive URLs with their parser. `Util`: the fourteen-digit timestamp
  layout and the guessed redirect page.
- `Digest`, `ClientDigest`, `Base32`: the Base32 form of a SHA-1 value
  (section 6 of RFC 4648), its validity check and decoder, and the
  streaming digest.
- `Http`, `Observe`, `Retries`: the network as an oracle, the observer
  events around each request, and the retry policy with its exponential
  backoff.
- `Cdx`, `ClientCdx`: search URLs, the decoding of CDX rows, the resume key
  of a page, paging, and the exchange with the server.
- `Downloader`, `ClientDownloader`: archive requests, redirect
  resolution, content checks and retried downloads.
- `Index`, `Meta`: the SQLite snapshot indexes, as append-only tables with
  interned values.
- `StoreData`: the content-addressed store of compressed pages.
- `Session`: a download session of the client crate, which saves CDX
  results, resolves redirects, downloads items and writes the logs.
- `Parquet`, `ParquetBin`: the Parquet export (bucketing, sorting, one row
  per snapshot key, 32-bit columns and the status column), and the
  snapshot-URL sets merged by the `parquet` command.
- `Commands`, `Wbms`, `WbmsDownload`, `SearchBin`, `DlBin`: how the
  `wbms`, `search` and `dl` commands expand queries and order their
  phases.
- `Wrappers`, `Text`, `Sorting`, `Utf8`: shared helpers. They cover
  results and options, the Rust string operations the source uses, `sort`
  and `dedup` over a strict total order, and UTF-8 (section 3 of RFC 3629).

Code that computes values is modelled as functions with lemmas. Code that
updates state in place is modelled as classes with `modifies` clauses:
the backoff, the index stores, the session and the Parquet writer. Each
loop is a method proved against a specification function.

## Model

| member | source | states |
|---|---|---|
| Util.DaysInMonth | src/util/mod.rs:9-11 | every month of the proleptic Gregorian calendar the timestamp parser accepts has 28 to 31 days |
| Util.ToTimestamp | src/util/mod.rs:14-16 | `to_timestamp` writes exactly fourteen ASCII digits |
| Util.ParseTimestamp | src/util/mod.rs:9-11 | `parse_timestamp` accepts only fourteen ASCII digits |
| Util.ParseToTimestamp | src/util/mod.rs:9-16 | parsing a formatted date-time gives it back |
| Util.ToTimestampOfParse | src/util/mod.rs:9-16 | formatting a parsed timestamp gives back the same fourteen characters |
| Util.ToTimestampInjective | src/util/mod.rs:14-16 | different date-times never share a timestamp |
| Util.GuessRedirectContent | src/util/mod.rs:25-30 | the guessed page is the fixed prefix, then the URL, then the fixed suffix |
| Util.GuessRedirectContentInjective | src/util/mod.rs:25-30 | different URLs give different guessed pages |
| Retries.Pow2 | src/util/retries.rs:94-100 | the doubling factor of the backoff is at least one |
| Retries.ErrorBackoff.constructor | src/util/retries.rs:122-127 | `new_backoff` starts at the error type's default initial delay |
| Retries.ErrorBackoff.NextDelay | src/util/retries.rs:94-100 | an error's own policy is returned with the delay untouched; otherwise the current delay is returned and doubled, so the `n`-th default delay is the initial delay times 2^n |
| Retries.LogFuture.constructor | src/util/retries.rs:25-28 | a log future holds the given level and message |
| Retries.LogFuture.Poll | src/util/retries.rs:32-44 | without a level nothing is logged; with a level the message is logged once and taken; a second poll with a level fails as the `expect` does |
| Retries.OnRetry | src/util/retries.rs:54-80 | a message is built exactly when a retry delay is given and a level is set; without a delay the future logs nothing |
| Retries.OnRetryLogsOnce | src/util/retries.rs:32-80 | the first poll of an `on_retry` future logs exactly when a delay and a level are present; a second poll logs nothing |
| Retries.NewRetryConfig | src/util/retries.rs:130-136 | the configuration carries the type's retry limit, its log level and a fresh backoff at the initial delay |
| Retries.RetryFn | src/util/retries.rs:16-23 | at most `max_retries` retries; the result is the last attempt's; every earlier attempt failed with an error whose policy is not `Break`; stopping early on a failure means its policy was `Break` |
| Observe.StartEvent | src/util/observe.rs:65-76 | a start event carries the surface, method and URL and no status, timing or error |
| Observe.CompleteEvent | src/util/observe.rs:78-95 | a completion carries the status and elapsed time and no error |
| Observe.ErrorEvent | src/util/observe.rs:97-115 | an error event carries its error class and the optional status and timing |
| Observe.WellFormedIsConstructed | src/util/observe.rs:64-116 | an event is well formed exactly when one of the three constructors builds it |
| Text.Split | src/bin/wbms.rs:134 | the parts of `split(',')` hold no comma, there is at least one, and joining them with commas gives the input back |
| Text.TrimStart | src/bin/wbms.rs:135 | the leading whitespace removed and only it: what remains is a suffix not starting with whitespace |
| Text.TrimEnd | src/bin/wbms.rs:135 | the trailing whitespace removed and only it: what remains is a prefix not ending with whitespace |
| Text.TrimIsPiece | src/bin/wbms.rs:135 | `trim` yields a contiguous piece of its input with only whitespace around it |
| Text.TrimEnds | src/bin/wbms.rs:135 | a trimmed part neither starts nor ends with whitespace |
| Text.TrimIdempotent | src/bin/wbms.rs:135 | trimming twice is trimming once |
| Text.Lowercase | src/bin/wbms.rs:136 | `to_lowercase` maps every character on its own and keeps the length |
| Text.ToDecimal | src/item.rs:190 | the decimal form of a number is digits without a leading zero |
| Text.ToDecimalValue | src/item.rs:190 | the decimal form reads back as the number |
| Text.PadDecimal | src/util/mod.rs:14-16 | a zero-padded field has the given width and reads back as the number |
| Text.ParseUnsigned | src/item.rs:144-154 | a parsed `u32` or `u16` is below the type's bound |
| Text.ParseToDecimal | src/item.rs:144-154 | the decimal form of an in-range number parses back to it |
| Text.ParseRejectsNonDigit | src/item.rs:144-154 | a field with a character other than a digit (or a leading `+`) does not parse |
| Sorting.Sort | src/bin/search.rs:18 | sorting keeps exactly the same elements |
| Sorting.SortSorted | src/parquet.rs:88 | the sorted list is in order and a permutation of the input |
| Sorting.Dedup | src/bin/search.rs:19 | `dedup` never grows the list and keeps the first element |
| Sorting.DedupSubset | src/bin/search.rs:19 | `dedup` only removes elements |
| Sorting.DedupKeeps | src/bin/search.rs:19 | every element survives `dedup` in at least one copy |
| Sorting.DedupNoRepeats | src/bin/search.rs:19 | no two neighbours are equal after `dedup` |
| Sorting.DedupLast | src/bin/search.rs:19 | the last element survives `dedup` |
| Sorting.DedupSnoc | src/bin/search.rs:19 | one more element is dropped exactly when it repeats the last one |
| Sorting.DedupStrictlySorted | src/bin/search.rs:18-19 | `dedup` of a sorted list is strictly increasing |
| Sorting.SortDedup | src/bin/search.rs:18-19 | sort then `dedup` gives a strictly increasing list holding every input element and nothing else |
| Sorting.StrictlySortedDistinct | src/bin/search.rs:18-19 | a strictly increasing list has no repeated element |
| Sorting.StrLtTotal | src/bin/search.rs:18 | the byte-wise order of strings is a strict total order |
| Base32.SymbolValue | src/digest.rs:25-43 | every symbol of the RFC 4648 alphabet (section 6) stands for its position in it |
| Base32.AlphabetSymbols | src/digest.rs:25-43 | the symbol at position `v` decodes to `v` |
| Base32.ToDigits | src/digest.rs:41-43 | a quantum's value split into `n` digits below the base |
| Base32.FromToDigits | src/digest.rs:25-43 | splitting a value into digits and reading them back gives the value |
| Base32.ToFromDigits | src/digest.rs:25-43 | reading digits and splitting the value again gives the digits |
| Base32.QuantumWidth | src/digest.rs:25-43 | five bytes and eight symbols carry the same forty bits |
| Base32.EncodeQuantum | src/digest.rs:41-43 | five bytes encode to eight symbols |
| Base32.DecodeQuantum | src/digest.rs:25-38 | eight symbols decode to five bytes |
| Base32.DecodeEncodeQuantum | src/digest.rs:82-90 | a quantum decodes back to the bytes it encodes |
| Base32.EncodeDecodeQuantum | src/digest.rs:82-90 | eight symbols re-encode to themselves after decoding |
| Base32.Encode | src/digest.rs:41-43 | `5n` bytes encode to `8n` symbols |
| Base32.Decode | src/digest.rs:25-38 | `8n` symbols decode to `5n` bytes |
| Base32.DecodeEncode | src/digest.rs:82-90 | decoding an encoding gives the bytes back |
| Base32.EncodeDecode | src/digest.rs:82-90 | encoding a decoded symbol string gives it back |
| Utf8.EncodeChar | src/downloader.rs:186-187 | a character takes one to four bytes, one exactly when it is ASCII |
| Utf8.Encode | src/downloader.rs:186-187 | `as_bytes` never has fewer bytes than characters |
| Utf8.DecodeChar | src/downloader.rs:514 | a decoded character consumes one to four bytes of the input |
| Utf8.DecodeEncodeChar | src/downloader.rs:514 | the bytes of a character decode to it, whatever follows |
| Utf8.DecodeEncode | src/downloader.rs:514 | `from_utf8` of `as_bytes` gives the string back |
| Utf8.Digits | src/downloader.rs:514 | the encoder's divisions give back the base-64 digits a decoded code point was built from |
| Utf8.EncodeDecodeChar | src/downloader.rs:514 | a well-formed character is encoded as exactly the bytes it was decoded from |
| Utf8.EncodeDecode | src/downloader.rs:514 | bytes `from_utf8` accepts are the `as_bytes` of the text it returns |
| Utf8.EncodeAscii | src/downloader.rs:186-187 | an ASCII string's bytes are its character codes |
| Utf8.InvalidLeadByte | src/downloader.rs:514 | a byte that cannot start a character makes `from_utf8` fail |
| Digest.DigestCharsLayout | src/digest.rs:11-14 | `DIGEST_CHARS` has 32 characters at the listed positions |
| Digest.DigestCharsAreTheAlphabet | src/digest.rs:11-21 | `DIGEST_CHARS` is strictly increasing and holds exactly the Base32 symbols |
| Digest.ValidDigestSymbols | src/digest.rs:16-21 | `is_valid_digest` holds exactly for 32 Base32 symbols |
| Digest.DecodeDigest | src/digest.rs:25-38 | a string decodes to 20 bytes exactly when it is a valid digest |
| Digest.BytesToString | src/digest.rs:41-43 | the encoding of a SHA-1 value has 32 characters |
| Digest.DecodeBytesToString | src/digest.rs:82-90 | the encoding of any SHA-1 value is a valid digest that decodes back to it |
| Digest.BytesToStringOfDecode | src/digest.rs:82-90 | every valid digest is the encoding of what it decodes to |
| Digest.CopyInto | src/digest.rs:27-28 | bytes copied into the output at an offset, what lies before untouched |
| Digest.DecodeMut | src/digest.rs:28 | `decode_mut` succeeds exactly on Base32 symbols, filling the whole output with the decoded bytes |
| Digest.StringToBytes | src/digest.rs:25-38 | `string_to_bytes` returns the decoded digest, `None` for a wrong length or a bad symbol |
| Digest.PrependPrepend | src/digest.rs:51 | reading a stream in two pieces is reading it in one |
| Digest.ComputeDigest | src/digest.rs:47-59 | the digest of the whole stream, a read error propagated, and on success a valid digest |
| Digest.ComputeDigestGz | src/digest.rs:63-65 | the digest of the decompressed stream |
| ClientDigest.StringToBytes | client/src/digest.rs:13-26 | bytes exactly for a valid digest, and they encode back to it |
| ClientDigest.ComputeDigest | client/src/digest.rs:35-47 | the digest of the whole stream, a valid digest on success |
| ClientDigest.ComputeDigestGz | client/src/digest.rs:51-53 | the digest of the decompressed stream |
| Items.WaybackUrl | src/item.rs:94-101 | the archive URL is the fixed prefix, the fourteen-digit timestamp, `id_/` or `if_/`, then the snapshot's URL |
| Items.Timestamp | src/item.rs:103-105 | the timestamp has fourteen characters and parses back to the snapshot's date-time |
| Items.StatusCode | src/item.rs:107-109 | `-` exactly when there is no status, otherwise digits that parse back to it |
| Items.MakeExtension | src/item.rs:111-117 | `json` exactly for `application/json`, `html` exactly for `text/html`, nothing otherwise |
| Items.MakeFilename | src/item.rs:119-124 | the digest, with `.` and the extension when there is one |
| Items.WithDigest | src/item.rs:126-130 | the digest replaced and every other field kept |
| Items.Parse | src/item.rs:132-164 | the first failing field decides the error (timestamp, then length, then status); on success every field is the parsed text and `-` means no status |
| Items.ParseOptionalRecord | src/item.rs:166-182 | the first missing field, in column order, is reported; with all six present the record parses as `parse` does |
| Items.ToRecord | src/item.rs:184-193 | a record has six fields |
| Items.RecordRoundTrip | src/item.rs:166-193 | a snapshot's record parses back to the same snapshot |
| Items.RecordOfParse | src/item.rs:132-193 | a record that parses is written back with the same URL, timestamp, digest and MIME type, and `-` exactly where it was |
| Items.MatchScheme | src/item.rs:44 | the scheme group of the pattern consumes no more than the input |
| Items.ParseUrlInfo | src/item.rs:42-62 | a failure reports the whole input; a success has a fourteen-digit timestamp and a non-empty one-line URL |
| Items.HostPatternMatchesItself | src/item.rs:44 | the literal host matches the host part of the pattern |
| Items.PrefixHost | src/item.rs:44-96 | the prefix `wayback_url` writes is `http://` and the host the pattern expects |
| Items.WaybackUrlScheme | src/item.rs:44-96 | the pattern reads the scheme of an archive URL as `http://` |
| Items.ParseOriginalWaybackUrl | src/item.rs:42-101 | the `id_` archive URL of a snapshot with a one-line URL parses back to that URL and its timestamp |
| Items.ParseRewrittenWaybackUrlFails | src/item.rs:42-101 | the `if_` archive URL never matches the pattern |
| Items.DateTimeLtTrichotomous | src/item.rs:64 | date-times are totally ordered |
| Items.ItemLtTotal | src/item.rs:64 | the derived order of snapshots, field by field, is a strict total order |
| Items.ItemLtTransitive | src/item.rs:64 | the derived order of snapshots is transitive |
| ClientItems.Timestamp | client/src/item.rs:67-69 | the timestamp has fourteen characters and parses back to the snapshot's date-time |
| ClientItems.WaybackUrl | client/src/item.rs:58-65 | the archive URL is the fixed prefix, the timestamp, `id_/` or `if_/`, then the URL |
| ClientItems.StatusCode | client/src/item.rs:71-73 | `-` exactly when there is no status, otherwise digits that parse back to it |
| ClientItems.MakeExtension | client/src/item.rs:75-81 | `json` exactly for `application/json`, `html` exactly for `text/html`, nothing otherwise |
| ClientItems.MakeFilename | client/src/item.rs:83-88 | the digest, with `.` and the extension when there is one |
| ClientItems.Parse | client/src/item.rs:90-125 | the first failing field decides the error; the length is a 64-bit value; on success every field is the parsed text |
| ClientItems.ParseOptional | client/src/item.rs:127-143 | the first missing field, in column order, is reported; otherwise the record parses as `parse` does |
| ClientItems.ParsePrintedFields | client/src/item.rs:58-125 | a snapshot's printed fields parse back to it |
| ClientItems.ParseAgreesWithServerItem | client/src/item.rs:90-125 | the client parser accepts whatever the library parser accepts and builds the same snapshot; it accepts more only for lengths of 2^32 or above |
| Http.TransportClass | src/cdx.rs:196-202 | a send failure is classed `Timeout`, `Connect` or `Other` exactly as the client reports it |
| Http.HeaderText | src/downloader.rs:175-179 | a header reads as text exactly when every byte is visible ASCII, and then character for byte |
| Http.EmittedAll | src/downloader.rs:129-135 | with an observer every event is a step, in order; without one there are none |
| Http.SendFailed | src/cdx.rs:194-213 | a failed send closes its request with one error event of the transport class and no status |
| Http.StatusFailed | src/downloader.rs:230-241 | a bad status closes its request with one `Http` error event carrying the status |
| Http.Completed | src/cdx.rs:222-230 | a received body closes its request with one completion event carrying the status |
| Http.StepsAppend | src/cdx.rs:177-230 | the trace of two runs of requests is the trace of one, then the other |
| Cdx.CustomRetryPolicy | src/cdx.rs:49-57 | client and JSON errors are retried after 30 seconds; every other error stops retrying |
| Cdx.RetrySearch | src/cdx.rs:36-58 | at most 7 retries (8 attempts); every retried attempt failed with a client or JSON error; a client or JSON failure is final only after the eighth attempt |
| Cdx.IndexClient.constructor | src/cdx.rs:69-81 | a new client has no pacer, no observer and the default `wayback-rs/<version>` User-Agent |
| Cdx.IndexClient.WithPacer | src/cdx.rs:86-89 | the pacer is attached and nothing else changes |
| Cdx.IndexClient.WithObserver | src/cdx.rs:92-95 | the observer is attached and nothing else changes |
| Cdx.IndexClient.WithUserAgent | src/cdx.rs:100-103 | the given User-Agent replaces the default and nothing else changes |
| Cdx.IndexClient.WithoutUserAgent | src/cdx.rs:106-109 | no User-Agent is sent and nothing else changes |
| Cdx.DecodeRow | src/cdx.rs:114-123 | a row that does not parse fails with an item-parsing error |
| Cdx.ShortRow | src/cdx.rs:114-123 | a row with fewer than six fields reports its first missing column |
| Cdx.DataRows | src/cdx.rs:111-126 | the header row is skipped and every other row decoded in place |
| Cdx.DecodeRows | src/cdx.rs:111-126 | `decode_rows` succeeds exactly when every data row parses, with the items in row order |
| Cdx.DecodeRowsFirstFailure | src/cdx.rs:111-126 | the error reported is that of the first data row that fails |
| Cdx.DecodeRecord | src/cdx.rs:114-123 | a snapshot's record decodes back to it |
| Cdx.Records | src/item.rs:184-193 | one record per snapshot, in order |
| Cdx.DataRowOfRecord | src/cdx.rs:111-126 | behind any header, record `i` decodes to snapshot `i` |
| Cdx.DataRowsOfRecords | src/cdx.rs:111-126 | behind any header, the records decode to the snapshots one by one |
| Cdx.DecodeRecords | src/cdx.rs:111-134 | a header and the snapshots' records decode to exactly those snapshots |
| Cdx.LoadJson | src/cdx.rs:128-134 | `load_json` fails with a JSON error exactly when the input is not a list of string lists, and otherwise decodes the rows |
| Cdx.SplitResumeKey | src/cdx.rs:261-268 | without an empty second-to-last row there is no key and the rows are kept; with one, the last row's first field is the key and both rows are removed; an empty last row is an error |
| Cdx.TakeResumeKey | src/cdx.rs:261-268 | the two `remove` calls and the `remove(0)` compute the split of rows and key |
| Cdx.SplitOfPage | src/cdx.rs:261-268 | data rows with a key trailer split back into the rows and the key |
| Cdx.PageOfRecords | src/cdx.rs:261-271 | a page written as header, records and key trailer decodes to the snapshots and the key |
| Cdx.PageOf | src/cdx.rs:261-271 | a decoded page has a resume key exactly when its penultimate row is empty, the key being the first field of the last row; its snapshots are the rows after the header and before the trailer; an empty last row is `EmptyResumeKeyRow` |
| Cdx.QueryUrl | src/cdx.rs:167-174 | a page URL starts with the base, `?url=` and the query |
| Cdx.QueryUrlResumeKey | src/cdx.rs:167-174 | a resume key inserts `&resumeKey=` and the key right after the query and changes nothing else |
| Cdx.FilterParam | src/cdx.rs:283-289 | a filter parameter is empty exactly when its value is absent |
| Cdx.BuildFilter | src/cdx.rs:281-289 | the filter is the timestamp filter then the digest filter, empty exactly when both are absent |
| Cdx.SearchUrl | src/cdx.rs:291 | the URL starts with the base, `?url=`, the query and the filter, and only the fixed field options follow |
| Cdx.Exchange | src/cdx.rs:187-230 | a send failure closes the request with one transport error event; a lost body emits nothing more; a received body emits one completion with its status |
| Cdx.DecodeFailed | src/cdx.rs:248-257 | a JSON failure is reported as a `Decode` error event with the status |
| Cdx.SearchWithResumeKey | src/cdx.rs:161-273 | start event before the pacer; transport failures, the blocked-site text, JSON failures (with a second, `Decode`, event) and the resume-key split each give the stated outcome |
| Cdx.Search | src/cdx.rs:275-377 | pacer before the start event; the same outcomes as the paged search, with the rows decoded directly |
| Cdx.StreamSearch | src/cdx.rs:136-159 | pages requested in turn, the first without a key and each later one with the key the previous page returned; snapshots in page order; stops at the first error or the first page without a key |
| Cdx.Paged | src/cdx.rs:136-159 | the snapshots of a paged search start with those of its first page |
| Cdx.PagedError | src/cdx.rs:136-159 | an error that ends a paged search is one a page request returned |
| ClientCdx.DecodeRow | client/src/cdx.rs:41-50 | a row that does not parse fails with an item-parsing error |
| ClientCdx.DataRows | client/src/cdx.rs:38-53 | the header row is skipped and every other row decoded in place |
| ClientCdx.DecodeRows | client/src/cdx.rs:38-53 | `decode_rows` succeeds exactly when every data row parses, with the items in row order |
| ClientCdx.DecodeRowsFirstFailure | client/src/cdx.rs:38-53 | the error reported is that of the first data row that fails |
| ClientCdx.DecodePrinted | client/src/cdx.rs:41-50 | a snapshot's printed record decodes back to it |
| ClientCdx.DataRowOfPrinted | client/src/cdx.rs:38-53 | behind any header, printed record `i` decodes to snapshot `i` |
| ClientCdx.DecodePrintedRows | client/src/cdx.rs:38-61 | a header and the snapshots' printed records decode to exactly those snapshots |
| ClientCdx.LoadJson | client/src/cdx.rs:55-61 | `load_json` fails with a JSON error exactly when the input is not a list of string lists, and otherwise decodes the rows |
| ClientCdx.Search | client/src/cdx.rs:63-89 | the URL carries the timestamp then the digest filter; a send failure or lost body is a client error, and so is a body that is not JSON; otherwise the rows are decoded |
| Downloader.CustomRetryPolicy | src/downloader.rs:52-63 | I/O and client errors fall back to the exponential backoff, a 502 status waits 30 seconds, and every other error stops retrying |
| Downloader.ParseOriginalUrl | src/downloader.rs:110-117 | the `id_` archive URL of a one-line URL at a fourteen-digit timestamp parses back to that URL and timestamp |
| Downloader.ParseRewrittenUrlFails | src/downloader.rs:110-117 | the `if_` archive URL never parses as an archive URL |
| Downloader.SliceDigest | src/downloader.rs:186-187 | `compute_digest` over an in-memory slice cannot fail and is the encoded SHA-1 of the bytes |
| Downloader.Closing | src/downloader.rs:137-163 | a content request is closed by exactly one event: the transport class of a failed send, an `Http` error with the unexpected status, or a completion with the expected status, each with the elapsed time |
| Downloader.Request | src/downloader.rs:126-163 | every content request is paced, then started, then closed by one event |
| Downloader.DisciplinedAppend | src/downloader.rs:119-298 | requests that are each paced and closed stay so when runs of them are joined |
| Downloader.ResolvedRequests | src/downloader.rs:190-268 | after the first redirect at most two requests follow, each paced and closed, and the first is a GET exactly when the guessed page's digest is not the expected one |
| Downloader.ResolutionRequests | src/downloader.rs:119-298 | `resolve_redirect` sends one to three requests, the first a HEAD on the `id_` archive URL expecting 302 |
| Downloader.ResolutionGet | src/downloader.rs:190-250 | the second request is a GET exactly when the guess is rejected, and no other request is a GET |
| Downloader.Content | src/downloader.rs:186-257 | an accepted guess costs no request, cannot fail and has a valid digest; a rejected one costs one GET on the initial archive URL; successful content was free exactly when it is the guessed page |
| Downloader.Resolution | src/downloader.rs:119-298 | the first request is a HEAD on the `id_` archive URL; a first reply that fails, is not a 302, has no readable Location or names no archive URL ends the resolution with that error after one request |
| Downloader.ResolutionGuessAccepted | src/downloader.rs:186-274 | with an accepted guess the content is the guessed page, both flags hold, and the second HEAD on the redirect target gives the resolved capture |
| Downloader.ResolvedAccepted | src/downloader.rs:186-274 | the same, from the first redirect on |
| Downloader.ResolutionGuessRejected | src/downloader.rs:196-274 | with a rejected guess a GET follows; its failure ends the resolution; otherwise the content is its body, the initial-content flag is false and the digest flag says whether the body's digest is the expected one |
| Downloader.ResolvedRejected | src/downloader.rs:196-274 | the same, from the first redirect on |
| Downloader.ShallowRequests | src/downloader.rs:376-537 | `resolve_redirect_shallow` sends the first HEAD and, exactly when the guess is rejected, one GET, and nothing else |
| Downloader.ShallowResolution | src/downloader.rs:376-537 | a failed first redirect is the error; an accepted guess gives the guessed page as text with a valid digest; a rejected one gives the fetched body, which must be UTF-8, and whether its digest is the expected one |
| Downloader.Downloader.constructor | src/downloader.rs:82-95 | a new downloader has neither pacer nor observer |
| Downloader.Downloader.WithPacer | src/downloader.rs:99-102 | the pacer is attached and the observer unchanged |
| Downloader.Downloader.WithObserver | src/downloader.rs:105-108 | the observer is attached and the pacer unchanged |
| Downloader.Downloader.Send | src/downloader.rs:126-163 | the trace of one content request: pacer, start event, request, closing event |
| Downloader.Downloader.HeadLocation | src/downloader.rs:350-357 | a HEAD expecting 302 yields the Location text; a missing or unreadable one is `UnexpectedRedirect`, another status `UnexpectedStatus` |
| Downloader.Downloader.GetBody | src/downloader.rs:196-250 | a GET expecting 200 yields the body; another status is `UnexpectedStatus` |
| Downloader.Downloader.DirectResolveRedirect | src/downloader.rs:300-374 | one HEAD on the `id_` archive URL, giving its Location or the error |
| Downloader.Downloader.Locate | src/downloader.rs:175-184 | the Location must parse as an archive URL, else `UnexpectedRedirectUrl` with the location |
| Downloader.Downloader.FetchContent | src/downloader.rs:186-257 | computes the content, flags and spent requests of the specification, with their trace |
| Downloader.Downloader.ResolveRedirect | src/downloader.rs:119-298 | computes the resolution and the requests of the specification, with their trace |
| Downloader.Downloader.ResolveFrom | src/downloader.rs:181-274 | the same, from the first redirect on |
| Downloader.Downloader.Conclude | src/downloader.rs:259-274 | the second HEAD decides the resolved capture and carries the content and flags |
| Downloader.Downloader.FetchShallowContent | src/downloader.rs:443-521 | computes the shallow content of the specification, with its trace |
| Downloader.Downloader.ResolveRedirectShallow | src/downloader.rs:376-537 | computes the shallow resolution of the specification, with its trace |
| Downloader.Downloader.DownloadOnce | src/downloader.rs:544-615 | one GET on the archive URL, yielding the body of a 200 reply or the error |
| Downloader.Downloader.Download | src/downloader.rs:540-542 | at most 7 retries; every retried attempt failed with an I/O or client error or a 502; such a failure is final only after the eighth attempt |
| Downloader.Downloader.DownloadItem | src/downloader.rs:617-619 | the item's original bytes are requested at its `id_` archive URL, which parses back to the item's URL and timestamp |
| ClientDownloader.CustomRetryPolicy | client/src/downloader.rs:22-32 | I/O and client errors fall back to the strategy's delay, a 502 status waits 30 seconds, and every other error stops retrying |
| ClientDownloader.RetryStrategy.constructor | client/src/downloader.rs:40-42 | the strategy starts from the given delay, not yet doubled |
| ClientDownloader.RetryStrategy.NextDelay | client/src/downloader.rs:48-54 | a custom policy is returned as it is and the delay left alone; otherwise the current delay is returned and the stored one doubles, so the `n`-th fallback waits the initial delay times 2^n |
| ClientDownloader.ContentOf | client/src/downloader.rs:70-75 | the content of either variant is its `content` field |
| ClientDownloader.SnapshotWaybackUrl | client/src/downloader.rs:107-114 | the downloader's archive URL of a snapshot is the snapshot's own archive URL |
| ClientDownloader.ParseOriginalUrl | client/src/downloader.rs:107-114 | the `id_` archive URL of a one-line URL at a fourteen-digit timestamp parses back to that URL and timestamp |
| ClientDownloader.Location | client/src/downloader.rs:143-164 | a failed send is a client error, a status other than 302 `UnexpectedStatus`, a 302 without a readable Location `UnexpectedRedirect(None)`, and otherwise the Location text |
| ClientDownloader.LocationAndBody | client/src/downloader.rs:116-141 | the Location as above together with the redirect page's body; a lost body is a client error |
| ClientDownloader.Body | client/src/downloader.rs:173-189 | a failed send or lost body is a client error, a status other than 200 `UnexpectedStatus`, and otherwise the body |
| ClientDownloader.RedirectIsNotDownload | client/src/downloader.rs:127-187 | a reply that resolves a redirect is never a download, and the other way round |
| ClientDownloader.RetryBound | client/src/downloader.rs:168 | a retry count that fits in 32 bits is passed on unchanged |
| ClientDownloader.Downloader.constructor | client/src/downloader.rs:94-105 | the downloader keeps the given retry count and delay |
| ClientDownloader.Downloader.Default | client/src/downloader.rs:85-89 | the default downloader retries seven times from 250 ms |
| ClientDownloader.Downloader.DownloadRedirect | client/src/downloader.rs:116-141 | one GET on the `id_` archive URL, giving the Location and body of its redirect |
| ClientDownloader.Downloader.ResolveRedirect | client/src/downloader.rs:143-164 | one GET on the `id_` archive URL, giving the Location of its redirect |
| ClientDownloader.Downloader.DownloadOnce | client/src/downloader.rs:173-189 | one GET on the archive URL, giving the body of a 200 reply |
| ClientDownloader.Downloader.Download | client/src/downloader.rs:166-171 | at most the retry count (as `u32`) of retries; every retried attempt failed with an I/O or client error or a 502; such a failure is final only after the last retry |
| ClientDownloader.Downloader.DownloadItem | client/src/downloader.rs:191-193 | the snapshot's original bytes are requested at its own `id_` archive URL, with the same retries |
| Index.Find | src/index/mod.rs:200-204 | the position of the first occurrence of a value, and none exactly when the value is absent |
| Index.Table.constructor | src/index/mod.rs:26-29 | a fresh value table is empty |
| Index.Table.GetOrAdd | src/index/mod.rs:193-210 | the id is that of the value's only row; an existing value leaves the table unchanged, a new one is appended and gets the last id |
| Index.FirstMatch | src/index/mod.rs:134-140 | the first stored row with the same URL id, time and digest id, and none exactly when there is no such row |
| Index.Decide | src/index/mod.rs:141-170 | no stored row: `Write`; a different MIME type: `Ignore` when the stored one is a revisit, `Overwrite` when the new one is, `Collision` with the stored id otherwise; the same MIME type and a different status: `Collision`; otherwise the lengths decide `Skip`, `Ignore` or `Overwrite` |
| Index.CheckExisting | src/index/mod.rs:125-171 | `Write` exactly when no stored row has the snapshot's URL id, time and digest id; a `Collision` names the id of such a stored row, which differs in MIME type or status |
| Index.Tally | src/index/mod.rs:82-102 | each decision raises its own counter or adds the collision, and only `Write` and `Overwrite` insert a row |
| Index.WrittenThenSkipped | src/index/mod.rs:104-170 | a row written because nothing matched is matched by the same row afterwards, so adding the same snapshot again is skipped |
| Index.CollidedSnoc | src/index/mod.rs:98-100 | one more colliding snapshot adds exactly its pair of stored id and snapshot to the collision set |
| Index.TallyAllCounts | src/index/mod.rs:57-102 | after a batch each counter is the number of snapshots that got its decision, and the collision set holds exactly the colliding snapshots with the ids they collide with |
| Index.KindsPartition | src/index/mod.rs:74-102 | every decision is of exactly one kind, so the four counts and the collisions add up to the batch size |
| Index.CollidedCount | src/index/mod.rs:98-100 | the collision set has no more elements than there are colliding decisions |
| Index.CountedBound | src/index/mod.rs:57-102 | the statistics account for every snapshot of a batch at most once |
| Index.Run | src/index/mod.rs:63-114 | reference definition of the loop on the item table: one decision per row, and the stored rows only ever grow |
| Index.RunGrowth | src/index/mod.rs:104-113 | the item table grows by exactly one row per `Write` and `Overwrite` |
| Index.RunSnoc | src/index/mod.rs:74-113 | one more row is decided against the rows stored so far, and appended when the decision inserts it |
| Index.TallyAllSnoc | src/index/mod.rs:82-102 | one more decision is tallied on top of the statistics of the earlier ones |
| Index.RunDecision | src/index/mod.rs:74-81 | decision `k` is the check of row `k` against the table as the first `k` rows left it, rows of the same batch included |
| Index.RunRepeatSkipped | src/index/mod.rs:74-113 | a new snapshot given twice in one batch is written once and then skipped |
| Index.FirstMatchStable | src/index/mod.rs:134-170 | appending rows never changes an existing first match, so the first written row keeps deciding |
| Index.IdOf | src/index/mod.rs:193-210 | the id of a stored value points at that value |
| Index.Added | src/index/mod.rs:193-210 | after `get_or_add` the value is in the table |
| Index.InternedGrows | src/index/mod.rs:193-210 | values appended to the tables never change the ids an earlier row points at |
| Index.CoversSnoc | src/index/mod.rs:63-72 | interning one more snapshot, with the tables only grown, keeps every earlier one's URL, digest and MIME type interned |
| Index.BatchStep | src/index/mod.rs:63-114 | one loop turn, the snapshot interned as its row, decided against the stored rows, counted and inserted when the decision says so, keeps the state of `add_items` |
| Index.RunStep | src/index/mod.rs:74-113 | the item table and the decisions of the reference definition after one more row |
| Index.TallyStep | src/index/mod.rs:82-102 | the statistics of the reference definition after one more decision |
| Index.InternedSnoc | src/index/mod.rs:63-72 | the rows of the earlier snapshots and the new one point at their values in the grown tables |
| Index.Store.constructor | src/index/mod.rs:22-35 | a fresh store has empty tables and an empty MIME-type cache |
| Index.Store.GetMimeTypeId | src/index/mod.rs:173-190 | a cached id comes back without touching the table; otherwise the MIME type is interned and its id cached; the table is the old one with the value added if missing, and the cache maps the value to its row id |
| Index.Store.AddItem | src/index/mod.rs:63-113 | one turn of `add_items`: the three values are interned (each table is the old one with the value added if missing), the decision is the check against the rows stored before, and the row is appended exactly when the decision is `Write` or `Overwrite` |
| Index.Store.Intern | src/index/mod.rs:64-72 | the row a snapshot is stored as, each value table the old one with the value added if missing, and no item row changed |
| Index.Store.AddItems | src/index/mod.rs:37-123 | each snapshot is interned as its row; the item table and the decisions are those of the reference definition, each snapshot decided against the rows stored before it; the statistics are the tally of those decisions, counting every snapshot at most once; the item table grows by the written and overwritten rows; the value tables only grow |
| Index.Store.AddCounted | src/index/mod.rs:63-114 | one loop turn: the snapshot is added, its decision tallied and its row recorded, keeping the state of `add_items` |
| Meta.Merge | src/store/meta.rs:157-162 | the value of either side |
| Meta.Table.constructor | src/store/meta.rs:44-45 | a fresh value table is empty |
| Meta.Table.GetOrAdd | src/store/meta.rs:164-181 | `Ok` exactly when the value was stored, and then nothing changes; otherwise the value is appended and its new id comes back as `Err`; either way the id is that of the value's only row |
| Meta.ItemStore.constructor | src/store/meta.rs:27-51 | a fresh store has empty tables and no sizes |
| Meta.ItemStore.Intern | src/store/meta.rs:76-91 | the three values are interned and give the snapshot's row; a new value is reported exactly when one was missing, and then the row cannot be stored yet |
| Meta.ItemStore.AddItem | src/store/meta.rs:75-119 | one turn of `add_items`: the item row is stored once, its id found or appended; a non-zero length is recorded for the id unless one is there already |
| Meta.ItemStore.StoreRow | src/store/meta.rs:101-115 | a row that matches a stored one keeps its id; otherwise it is appended and gets the last id |
| Meta.ItemStore.RecordSize | src/store/meta.rs:117-119 | a zero length is not recorded, and an id that has a size keeps it |
| Meta.ItemStore.AddItems | src/store/meta.rs:53-123 | stored rows and sizes are kept; every snapshot of the batch ends up interned with its row stored; the stored row of a snapshot with a non-zero length has a size; the item table grows only by rows of the batch; a size added by the batch belongs to a stored row and holds the first non-zero length the batch gave that row (`INSERT OR IGNORE`) |
| Meta.ItemStore.AddNext | src/store/meta.rs:75-120 | one loop turn keeps the earlier snapshots stored with their sizes and stores the next one, with a size when its length is not zero; a size it adds is the first non-zero length of its row |
| Meta.ItemStore.Resolve | src/store/meta.rs:129-144 | a listed snapshot is rebuilt from its row's values and its size, which is never zero |
| Meta.ItemStore.Listing | src/store/meta.rs:202-209 | the listing holds exactly the rows that have a size, each rebuilt as a snapshot |
| Meta.ItemStore.ForEachItem | src/store/meta.rs:125-154 | every listed snapshot has a non-zero length, and every row with a size is listed |
| Meta.ExtendsTransitive | src/store/meta.rs:192 | sizes are only ever added, never changed, across several batches |
| Meta.NewSizeExtends | src/store/meta.rs:192 | a size for an id that had none keeps every earlier size |
| Meta.RowInStable | src/store/meta.rs:164-181 | appending to the value tables never changes a stored snapshot's row |
| Meta.DoneAll | src/store/meta.rs:53-123 | the state of `add_items` after the whole batch: every snapshot interned and stored, sized when its length is not zero, only batch rows added, and each new size the first non-zero length of its row |
| Meta.FirstLengthSpec | src/store/meta.rs:117-119 | a length is left exactly when some snapshot stored as the row has a non-zero length, and it is the first such length |
| Meta.FirstLengthSnoc | src/store/meta.rs:117-119 | one more snapshot changes the length left for a row only when none was left before, and only for its own row |
| Meta.SizedStep | src/store/meta.rs:117-119 | one loop turn keeps every size added by the batch equal to the first non-zero length of its row |
| Meta.ZeroLengthUnsized | src/store/meta.rs:117-119 | after a batch, a row unsized before whose snapshots in the batch all had length zero still has no size (so `UnsizedItemNotListed` applies) |
| Meta.DoneStep | src/store/meta.rs:75-120 | with the tables only grown and the sizes only extended, one stored snapshot keeps the earlier ones stored and sized and adds itself |
| Meta.FindStable | src/store/meta.rs:164-181 | appending rows keeps the first occurrence of a stored value |
| Meta.IdOfStable | src/store/meta.rs:164-181 | a value's id never changes as the table grows |
| Meta.AddedItemListed | src/store/meta.rs:117-154 | a snapshot stored with its non-zero length is listed as itself |
| Meta.StoredItemListed | src/store/meta.rs:117-154 | a stored snapshot whose row has a size is listed with that size as its length, the first recorded for the row |
| Meta.UnsizedItemNotListed | src/store/meta.rs:202-209 | a row without a size (a zero-length snapshot) is not listed, so its URL never appears when no other row shares it |
| StoreData.ValidCharsAreSymbols | src/store/data.rs:34-36 | the characters a digest may hold are exactly the base-32 symbols, the characters of an encoded digest |
| StoreData.NamesExactly | src/store/data.rs:25-31 | a directory name is valid exactly when it is one valid character |
| StoreData.BuildNames | src/store/data.rs:25-31 | the names built from `2`..`7` and `A`..`Z` are exactly the valid one-character names, 32 of them |
| StoreData.ValidDigestsAndPrefixes | src/store/data.rs:244-250 | a store digest is exactly an encoded digest; the empty prefix is valid; a digest is a valid prefix and every prefix of a valid prefix is valid |
| StoreData.Location | src/store/data.rs:188-201 | a location exactly for a valid digest: the base, the directory named by the digest's first character, then `<digest>.gz` |
| StoreData.LocationInjective | src/store/data.rs:188-201 | two digests with the same location are the same digest |
| StoreData.Lookup | src/store/data.rs:207-209 | the location when it is a regular file, and nothing otherwise |
| StoreData.ContainsExactly | src/store/data.rs:203-205 | the store contains a digest exactly when it is valid and `<base>/<first>/<digest>.gz` is a regular file |
| StoreData.LastDot | src/store/data.rs:252-254 | the position of the last dot of a name, none when there is no dot |
| StoreData.SplitExtension | src/store/data.rs:252-254 | without an extension the stem is the whole name; with one, the name is the non-empty stem, a dot and the extension |
| StoreData.StoredName | src/store/data.rs:188-201 | the stem of a stored page's file is its digest and its extension `gz` |
| StoreData.CheckFileEntry | src/store/data.rs:252-273 | an unreadable file type is an I/O error; a regular file whose stem starts with the directory's character gives that stem and path; anything else is `Unexpected` with the path |
| StoreData.CheckDirEntry | src/store/data.rs:275-298 | an unreadable file type is an I/O error; a directory with a valid one-character name gives that name; anything else is `Unexpected` with the path |
| StoreData.FilePaths | src/store/data.rs:100-107 | each listed file is checked against the directory's character, in listing order |
| StoreData.DirPathsWellPlaced | src/store/data.rs:100-107 | every path found in a valid directory has a stem that starts with the directory's name |
| StoreData.AllDirPathsWellPlaced | src/store/data.rs:97-109 | the same for every directory of the listing |
| StoreData.PathsWellPlaced | src/store/data.rs:92-113 | every path `paths` finds has a stem that starts with one of the valid directory names |
| StoreData.KeepMatching | src/store/data.rs:136-139 | errors are kept, and paths exactly when their stem starts with the prefix |
| StoreData.PathsForPrefix | src/store/data.rs:115-147 | the empty prefix lists everything; an invalid prefix is one `InvalidDigest` error; otherwise the prefix's directory is listed and only errors and stems that start with the prefix are kept, or its listing error is the only item |
| StoreData.StoredPageListed | src/store/data.rs:115-147 | a stored page is listed under any prefix of its digest |
| StoreData.CheckFileLocation | src/store/data.rs:149-186 | a name that is not `<digest>.gz` is `InvalidDigest`; a page already in place gives nothing; otherwise the candidate is read, and its location comes back when its content's digest is its name, else that digest |
| StoreData.StoredPageChecked | src/store/data.rs:160-162 | a page already in the store is reported as nothing to do |
| StoreData.MatchingPageLocated | src/store/data.rs:163-174 | a candidate not in the store whose content's digest is its name is given its location |
| Session.Successes | client/src/session.rs:84-89 | the values of the successful results, and nothing else |
| Session.Failures | client/src/session.rs:84-89 | the errors of the failed results, and nothing else |
| Session.SuccessesAndFailures | client/src/session.rs:84-89 | every result goes to exactly one of the two sides |
| Session.Flatten | client/src/session.rs:86 | a snapshot is in the joined batches exactly when it is in one of them |
| Session.RecordsSnoc | client/src/session.rs:106-112 | writing one more snapshot appends its record |
| Session.ReadRecord | client/src/session.rs:307-316 | a row that does not parse is an item error |
| Session.ReadCsv | client/src/session.rs:302-319 | `read_csv` succeeds exactly when every row parses, with the snapshots in row order; otherwise it is an item error |
| Session.ReadWritten | client/src/session.rs:302-319 | the item logs written by a session read back as the same snapshots |
| Session.SearchResults | client/src/session.rs:69-79 | the search fails exactly when some query fails other than by being blocked, with that query's error; otherwise one result per query, a blocked query kept as its query |
| Session.Gather | client/src/session.rs:81-89 | the blocked queries and the joined batches of found snapshots, in query order |
| Session.Redirects | client/src/session.rs:106-112 | the snapshots with status 302, drawn from the list |
| Session.Originals | client/src/session.rs:106-112 | the snapshots without status 302, drawn from the list |
| Session.PartitionExact | client/src/session.rs:106-112 | the two item logs together hold the list exactly, as a multiset |
| Session.PartitionStep | client/src/session.rs:106-112 | one more snapshot goes to exactly one of the two logs |
| Session.WriteItemLogs | client/src/session.rs:100-112 | the originals log holds the records of the non-302 snapshots and the redirects log those of the 302 snapshots, in order |
| Session.CollectedLoggedOnce | client/src/session.rs:97-112 | every found snapshot is logged exactly once, in the log its status picks, and nothing else is logged |
| Session.CollectedOnce | client/src/session.rs:97-98 | after sorting and `dedup`, every found snapshot occurs exactly once |
| Session.Collected | client/src/session.rs:97-98 | the sorted, de-duplicated list holds every found snapshot, no two equal, and nothing else |
| Session.DistinctCount | client/src/session.rs:97-98 | in a list without repeats each element occurs once |
| Session.DigestsSnoc | client/src/session.rs:128 | one more snapshot adds its digest to the `digests` set |
| Session.FirstPerDigest | client/src/session.rs:128 | the retained list is no longer than the list |
| Session.IsFirstSnoc | client/src/session.rs:128 | appending a snapshot does not change which earlier ones are first with their digest |
| Session.FirstPerDigestDigests | client/src/session.rs:128 | the first `retain` keeps every digest |
| Session.FirstPerDigestDistinct | client/src/session.rs:128 | the first `retain` leaves no two snapshots with the same digest |
| Session.FirstPerDigestMembers | client/src/session.rs:128 | the first `retain` keeps exactly the snapshots that come first with their digest |
| Session.FirstPerDigestSpec | client/src/session.rs:126-128 | the three facts together: same digests, distinct digests, the first of each digest |
| Session.TakeListed | client/src/session.rs:137 | the second `retain` keeps no more than it is given |
| Session.TakeListedSpec | client/src/session.rs:137 | on distinct digests the second `retain` keeps exactly the snapshots whose digest is still in the set |
| Session.ImageSnoc | client/src/session.rs:126-137 | one more element adds its image to the set |
| Session.Worklist | client/src/session.rs:126-137 | the worklist holds exactly the first snapshot of each digest that is not known, with no digest twice, and is no longer than the snapshots |
| Session.RetainFirstPerDigest | client/src/session.rs:126-128 | computes the first-of-each-digest list and the set of every digest |
| Session.ForgetOne | client/src/session.rs:132-134 | one more line of the known-digests file removes its trimmed text from the set |
| Session.ForgetKnown | client/src/session.rs:130-135 | the set loses every trimmed line of the known-digests file |
| Session.RetainListed | client/src/session.rs:137 | keeps the snapshots whose digest is in the set, removing each kept digest |
| Session.BuildWorklist | client/src/session.rs:126-137 | an unreadable known-digests file is an I/O error; otherwise the worklist of the specification |
| Session.ResolveOne | client/src/session.rs:152-176 | a failed resolution, a digest that does not check, a failed search or an empty search result all fail with the snapshot itself; success needs a resolution with a valid digest |
| Session.ResolvedListed | client/src/session.rs:155-162 | a resolved snapshot is one the search for the resolution's URL and time returned |
| Session.ResolveAll | client/src/session.rs:141-180 | one outcome per worklist snapshot |
| Session.ResolveSnoc | client/src/session.rs:141-180 | one more worklist snapshot appends its outcome and, when it resolved, saves its content under its digest |
| Session.SaveResolvedSaves | client/src/session.rs:164-171 | every resolved snapshot's content is stored under its digest in `data` |
| Session.SavedAt | client/src/session.rs:164-171 | the same for one snapshot of the worklist |
| Session.SavedLast | client/src/session.rs:164-171 | resolving one more snapshot stores exactly its file |
| Session.SavedKept | client/src/session.rs:164-171 | resolving a snapshot with another digest leaves a stored file as it was |
| Session.SaveResolvedKeeps | client/src/session.rs:164-171 | a digest no resolved snapshot has keeps its file, or stays absent |
| Session.SplitOutcomes | client/src/session.rs:190-199 | the extras log holds the resolved snapshots and the redirect error log the failed ones, in order |
| Session.ResolutionLogged | client/src/session.rs:184-199 | every worklist snapshot is logged exactly once, as an extra or as an error |
| Session.DownloadOne | client/src/session.rs:230-262 | a failed download fails with the snapshot; matching content is a verified download; otherwise the expected and computed digests, which differ |
| Session.DownloadAll | client/src/session.rs:229-266 | one result per worklist snapshot |
| Session.SaveOne | client/src/session.rs:240-261 | one download saves nothing when it fails, its content in `data` under the expected digest when that digest matches, and in `invalid` under the computed digest otherwise |
| Session.DownloadsHashed | client/src/session.rs:240-259 | every file the downloads add, to `data` or `invalid`, is named after its content's digest |
| Session.SaveLastHashed | client/src/session.rs:240-259 | one more download adds only files named after their content's digest |
| Session.SaveDownloads | client/src/session.rs:240-259 | downloads never remove a stored file from `data/` or `invalid/` |
| Session.SaveLastRouted | client/src/session.rs:240-261 | one more download keeps the stored names and puts its file where its result says |
| Session.DownloadsRouted | client/src/session.rs:240-261 | every verified download is in `data` under its digest, and every mismatch in `invalid` under the computed digest |
| Session.DownloadRouted | client/src/session.rs:240-261 | the download at any position is saved where its outcome says, and stays saved through the later downloads |
| Session.OutcomesCounted | client/src/session.rs:278-292 | every result is counted once, as a success, a mismatch or an error |
| Session.PairRecords | client/src/session.rs:285 | one two-field record of expected and computed digest per mismatch |
| Session.TallyStep | client/src/session.rs:278-292 | one more result raises exactly its own count and extends its own log |
| Session.CountOne | client/src/session.rs:278-292 | one outcome raises exactly the counter of its kind and appends a failure to the error log and a mismatch to the invalid log |
| Session.Tally | client/src/session.rs:274-292 | the three counts and the error and invalid logs of the results |
| Session.DownloadWorkTotal | client/src/session.rs:205-225 | the total counts every original and extra snapshot read back, and the worklist is no longer than it and has distinct digests |
| Session.Session.constructor | client/src/session.rs:39-51 | a session over its directory and known-digests file, with the logs and stored files it holds |
| Session.Session.Timestamped | client/src/session.rs:53-62 | the directory is named by the time in `%Y%m%d%H%M%S` and holds nothing yet |
| Session.Session.SaveCdxResults | client/src/session.rs:64-115 | the query log first; a failed search stops there with its error; otherwise the sorted blocked queries when there are any, and the two item logs of the found snapshots sorted and de-duplicated |
| Session.Session.LogBlocked | client/src/session.rs:91-95 | the blocked log is written, sorted, exactly when some query was blocked; nothing else changes |
| Session.Session.LogFound | client/src/session.rs:97-112 | both item logs are rewritten from the sorted, de-duplicated snapshots, redirects in one and the rest in the other; nothing else changes |
| Session.Session.ResolveItem | client/src/session.rs:152-176 | one resolution: a resolved snapshot's content is stored under its digest, and nothing else changes |
| Session.Session.ResolveWork | client/src/session.rs:141-180 | the outcomes of the worklist, with every resolved content stored |
| Session.Session.ResolveRedirects | client/src/session.rs:117-202 | a missing or unreadable redirects log or known-digests file is the error and changes nothing; otherwise the worklist is resolved, contents stored, and the extras and redirect error logs written |
| Session.Session.DownloadItem | client/src/session.rs:230-262 | one download: verified content to `data` under its digest, a mismatch to `invalid` under the computed one |
| Session.Session.DownloadWorklist | client/src/session.rs:229-266 | the results of the worklist, with every file stored where its result says |
| Session.Session.DownloadItems | client/src/session.rs:204-300 | a missing or unreadable item log or known-digests file is the error and changes nothing; otherwise the counts are successes, mismatches, snapshots skipped and errors, the first, second and fourth adding up to the worklist, and the error and invalid logs are written |
| Session.Session.DownloadAndLog | client/src/session.rs:229-299 | the downloads of a worklist, their counts and logs, the skipped count being the total less the worklist |
| Parquet.PrefixesLayout | src/parquet.rs:57-60 | 33 prefixes, the 32 digest characters then `_`, no two alike |
| Parquet.ValidDigestBucket | src/parquet.rs:76-79 | a valid digest starts with a digest character, never `_`, and with no other single character |
| Parquet.OneBucket | src/parquet.rs:67-83 | every snapshot is selected for exactly one prefix: its digest's first character when the digest is valid, `_` otherwise |
| Parquet.AllRows | src/parquet.rs:71-74 | the rows of a single file are that file's rows |
| Parquet.SelectRowsAppend | src/parquet.rs:71-83 | reading two row runs one after the other is reading the first, then the second from where it left off |
| Parquet.SelectFilesFlat | src/parquet.rs:71-83 | reading the files in turn is reading all their rows in order |
| Parquet.SelectRowsSpec | src/parquet.rs:69-83 | the selection succeeds exactly when every row parses, and is then the set of parsed snapshots selected for the prefix, without repeats |
| Parquet.Select | src/parquet.rs:69-83 | the loop over files and rows computes the selection of the specification, stopping at the first row that does not parse |
| Parquet.DistinctCount | src/parquet.rs:69 | a set holds each snapshot at most once |
| Parquet.CountTwice | src/parquet.rs:87-88 | a snapshot at two positions occurs at least twice |
| Parquet.SortSelection | src/parquet.rs:87-88 | the sorted selection is strictly ordered and holds the same snapshots |
| Parquet.Absorb | src/parquet.rs:90-98 | one more sorted snapshot either joins the last group or starts a new one, whose key it carries |
| Parquet.GroupMax | src/parquet.rs:90-98 | one snapshot per group, drawn from the input, the last group being that of the last snapshot |
| Parquet.KeyBetween | src/parquet.rs:90-92 | in sorted order a snapshot between two with the same URL, time and digest has that key too, so groups are contiguous |
| Parquet.BeforeLast | src/parquet.rs:88 | in a strictly sorted list every earlier snapshot is below the last |
| Parquet.NewKey | src/parquet.rs:90-92 | when the last two keys differ, the last key is new |
| Parquet.GroupMaxSpec | src/parquet.rs:90-98 | the kept snapshots stay sorted, have distinct keys, and each is at least as long as every snapshot with its key |
| Parquet.GroupMaxSorted | src/parquet.rs:90-98 | the kept snapshots stay sorted |
| Parquet.SortedStep | src/parquet.rs:90-98 | absorbing a larger snapshot keeps the groups sorted |
| Parquet.SortedSnoc | src/parquet.rs:88 | appending a larger snapshot keeps a list sorted |
| Parquet.GroupMaxKeys | src/parquet.rs:90-98 | the kept snapshots have distinct keys and each is the longest of its key |
| Parquet.NewStep | src/parquet.rs:90-98 | a snapshot with a new key starts its own group and keeps both facts |
| Parquet.JoinStep | src/parquet.rs:90-98 | a snapshot with the last key joins that group and keeps both facts |
| Parquet.AppendNew | src/parquet.rs:90-98 | the new-group case in detail |
| Parquet.ReplaceLast | src/parquet.rs:96 | a snapshot at least as long replaces the group's kept one |
| Parquet.KeepLast | src/parquet.rs:96 | a shorter snapshot leaves the group's kept one |
| Parquet.GroupMaxTies | src/parquet.rs:96 | among equally long snapshots of a key, the last in sorted order is kept, as `max_by_key` keeps the last maximum |
| Parquet.SuffixSnoc | src/parquet.rs:96 | a snapshot of a suffix stays in the suffix after appending |
| Parquet.TiesNew | src/parquet.rs:96 | a new group keeps the tie rule |
| Parquet.TiesNewKey | src/parquet.rs:96 | a row whose key differs from the row before it starts a new group and keeps the tie rule |
| Parquet.TiesJoin | src/parquet.rs:96 | joining a group keeps the tie rule |
| Parquet.KeysSnoc | src/parquet.rs:92 | one more snapshot adds its key |
| Parquet.AbsorbKeys | src/parquet.rs:92 | absorbing a snapshot adds its key and no other |
| Parquet.GroupMaxCovers | src/parquet.rs:90-98 | every key of the input has a kept snapshot, and only those |
| Parquet.GroupedSorted | src/parquet.rs:87-98 | after sorting and grouping: sorted, distinct keys, drawn from the input, every key covered, each kept snapshot the longest of its key and the last among equally long ones |
| Parquet.GroupedCovers | src/parquet.rs:90-98 | every key is covered by a kept snapshot at least as long as every snapshot with that key |
| Parquet.GroupedTies | src/parquet.rs:96 | among equally long snapshots of a key, the kept one is the last in sorted order |
| Parquet.GroupedSelection | src/parquet.rs:85-98 | the same facts for the sorted selection |
| Parquet.BucketSpec | src/parquet.rs:67-98 | the row group of a prefix is sorted, one snapshot per URL, time and digest among the snapshots selected for the prefix, the longest of each and the last among ties |
| Parquet.SelectFailsAlike | src/parquet.rs:71-75 | a prefix's selection fails exactly when some row of some file does not parse, the same for every prefix |
| Parquet.AsI32 | src/parquet.rs:183-198 | the cast to `i32` is a value in the 32-bit range equal to the input modulo 2^32 |
| Parquet.YearsBefore | src/parquet.rs:134 | a later year starts after the end of an earlier one |
| Parquet.MonthsBefore | src/parquet.rs:134 | a later month starts after the end of an earlier one |
| Parquet.YearLength | src/parquet.rs:134 | the months of a year add up to its length |
| Parquet.InYear | src/parquet.rs:134 | a date's day number lies within its year |
| Parquet.EpochSecondsIncrease | src/parquet.rs:134 | a later capture time has a larger epoch second count |
| Parquet.EpochSeconds | src/parquet.rs:134 | the epoch second count is the whole days since 1970-01-01 times 86400 plus the seconds into the day |
| Parquet.StatusColumn | src/parquet.rs:200-213 | one definition level per row, 1 exactly for a present status, and the present statuses in row order |
| Parquet.ReadsBackSnoc | src/parquet.rs:200-213 | reading back one more row extends the read statuses by that row's status |
| Parquet.StatusRoundTrip | src/parquet.rs:200-224 | the stored values and definition levels read back as every row's status, absent ones as null |
| Parquet.RoundTripStep | src/parquet.rs:200-213 | the last row of a written status column reads back as that row's status |
| Parquet.ReadSnoc | src/parquet.rs:204-211 | one more level reads back as the next value or as a null |
| Parquet.WrittenBucket | src/parquet.rs:67-107 | the `m`-th row group of `write_all` holds the bucket of the `m`-th prefix |
| Parquet.WrittenExtend | src/parquet.rs:67-107 | writing the next prefix's bucket extends the written row groups |
| Parquet.WrittenAppend | src/parquet.rs:67-107 | writing the next bucket keeps the row groups from before the export in front and extends the written buckets by that one |
| Parquet.ParquetFile.constructor | src/parquet.rs:39-48 | a created file is open and has no row groups |
| Parquet.ParquetFile.Close | src/parquet.rs:52-54 | closing seals the file and reports its row groups; closing twice is a Parquet error; the row groups do not change |
| Parquet.ParquetFile.Write | src/parquet.rs:112-231 | on an open file one row group is appended that holds exactly the given rows, column by column; on a closed one a Parquet error and nothing changes |
| Parquet.ParquetFile.WriteBucket | src/parquet.rs:67-106 | one prefix's bucket is written as one row group, or nothing changes when a row does not parse or the file is closed |
| Parquet.ParquetFile.WriteAll | src/parquet.rs:56-110 | on success 33 row groups are appended, the `m`-th holding the bucket of the `m`-th prefix; it succeeds exactly when the file is open and every row parses, and otherwise leaves the row groups as they were |
| ParquetBin.AddedSpec | src/bin/parquet.rs:28-32 | adding an entry keeps the list as a prefix, makes the entry present, grows the list by one exactly when the entry was absent, and keeps the list free of repeats |
| ParquetBin.AddedAllUnion | src/bin/parquet.rs:34-38 | adding a list gives the union of the two lists, the old one as a prefix, without repeats when the old one had none |
| ParquetBin.AddedAllMembers | src/bin/parquet.rs:34-38 | an entry is present after `add_all` exactly when it was in either list |
| ParquetBin.AddedAllPrefix | src/bin/parquet.rs:34-38 | `add_all` only appends |
| ParquetBin.AddedAllDistinct | src/bin/parquet.rs:28-38 | `add_all` keeps a list free of repeats |
| ParquetBin.AddedAllPresent | src/bin/parquet.rs:28-38 | adding entries that are all present changes nothing |
| ParquetBin.AddedAllIdempotent | src/bin/parquet.rs:34-38 | adding the same list twice is adding it once |
| ParquetBin.AddedAllConcat | src/bin/parquet.rs:34-38 | adding one list then another is adding their concatenation |
| ParquetBin.SnapshotUrlSet.Singleton | src/bin/parquet.rs:22-26 | the new set holds exactly the one entry and has no repeats |
| ParquetBin.SnapshotUrlSet.Add | src/bin/parquet.rs:28-32 | the entry is appended exactly when absent, and a list without repeats stays so |
| ParquetBin.SnapshotUrlSet.AddAll | src/bin/parquet.rs:34-38 | the loop adds the other set's entries in order, giving the specified union, and keeps a list without repeats so |
| ParquetBin.MergedValue | src/bin/parquet.rs:40-60 | the key is never deleted; with no stored value the new bytes are stored; when either value does not decode the stored bytes stay; any other value is the encoded union |
| ParquetBin.Merge | src/bin/parquet.rs:40-60 | the merge operator computes the value specified above |
| ParquetBin.MergeDecodesToUnion | src/bin/parquet.rs:40-60 | with a codec that reads back what it writes, the merged value decodes, to the union of the two sets when it is new, and the union extends the stored set without repeats |
| ParquetBin.MergeIdempotent | src/bin/parquet.rs:40-60 | merging the same bytes a second time changes nothing |
| ParquetBin.MergeSequence | src/bin/parquet.rs:40-60 | two successive merges store the union of the stored set with both new sets in turn |
| Commands.ExpandTwitter | src/bin/wbms.rs:152-159 | the four patterns of a screen name are four different queries |
| Commands.ExpandTwitterInjective | src/bin/wbms.rs:152-159 | two names with the same pattern in the same position are the same name |
| Commands.Trimmed | client/src/bin/dl.rs:28-30 | one trimmed part per part, in order |
| Commands.FlattenFours | client/src/bin/dl.rs:28-31 | groups of four laid end to end: group `i` at positions `4 * i` to `4 * i + 4` |
| Commands.ExpandAllLayout | client/src/bin/dl.rs:28-31 | four queries per name, the patterns of name `i` at positions `4 * i` to `4 * i + 4` |
| Commands.ExpandAllSnoc | src/bin/wbms.rs:141-142 | expanding one more name appends its four patterns |
| Commands.ExpansionsLayout | client/src/bin/dl.rs:28-31 | four queries per comma-separated part, empty and repeated parts included, those of part `i` being the patterns of its trimmed text |
| Commands.FlattenMembers | client/src/bin/dl.rs:30-31 | a value is in the flattened list exactly when it is in some group |
| Commands.ExpandAllMembers | client/src/bin/dl.rs:30-31 | a query is in the list exactly when it is a pattern of some name |
| Commands.ExpansionsMembers | src/bin/search.rs:13-17 | a query is in the list exactly when it is a pattern of some trimmed part |
| Commands.DownloadPlan | src/bin/wbms.rs:36-56 | with a query three phases, the CDX phase first; without one two; always resolution then download last |
| Wbms.Kept | src/bin/wbms.rs:136-140 | the kept names are non-empty names of the query, no more of them than names |
| Wbms.KeptIsFirstOfEachKey | src/bin/wbms.rs:130-150 | the `seen` set ends holding the lower-cased form of every non-empty name, and the kept names are exactly the first non-empty name of each lower-cased form, in order |
| Wbms.KeptDistinct | src/bin/wbms.rs:136-140 | kept names are non-empty names of the query, no two alike ignoring case, and every non-empty name matches a kept one ignoring case |
| Wbms.Names | src/bin/wbms.rs:134-135 | one trimmed name per comma-separated part |
| Wbms.BlankKeepsNothing | src/bin/wbms.rs:134-138 | a query of only whitespace and commas expands to nothing |
| Wbms.BlankPart | src/bin/wbms.rs:134-135 | each part of such a query trims to nothing |
| Wbms.NothingKept | src/bin/wbms.rs:138 | empty names are never kept |
| Wbms.JoinHolds | src/bin/wbms.rs:134 | every character of a part is a character of the query |
| Wbms.BlankTrim | src/bin/wbms.rs:135 | a part of whitespace trims to nothing |
| Wbms.KeptStep | src/bin/wbms.rs:138-139 | one more name is kept exactly when it is not empty and its lower-cased form is not in `seen` |
| Wbms.SeenSnoc | src/bin/wbms.rs:138-139 | keeping a name adds its lower-cased form to `seen` |
| Wbms.Admit | src/bin/wbms.rs:136-146 | one pass of the loop keeps the name exactly when it is not empty and its form is new, and keeps `seen` and the output in step with the kept names |
| Wbms.ExpandedStep | src/bin/wbms.rs:141-145 | one more kept name appends its four patterns in twitter mode and itself otherwise |
| Wbms.ExpandQueries | src/bin/wbms.rs:130-150 | the loop's output is the expansion of the first name of each lower-cased form, in query order |
| Wbms.ExpandedLayout | src/bin/wbms.rs:141-145 | in twitter mode four queries per kept name, the patterns of name `i` at positions `4 * i` to `4 * i + 4`; otherwise the kept names themselves |
| SearchBin.DedupInPlace | src/bin/search.rs:19 | the kept prefix of the array is the list with adjacent repeats dropped |
| SearchBin.SortDedup | src/bin/search.rs:18-19 | the result is strictly ordered and holds exactly the values of the list |
| SearchBin.Queries | src/bin/search.rs:13-19 | the query list is strictly ordered and holds exactly the patterns of the trimmed parts |
| WbmsDownload.Download | src/bin/wbms.rs:36-56 | the phases run in the order of the plan, each after the one before succeeded, and all of them on success |
| WbmsDownload.CdxPhase | src/bin/wbms.rs:37-38 | the query log lists the queries of `expand_queries`, the phase fails exactly when one of their searches does, and no gzip file changes |
| WbmsDownload.ResolvePhase | src/bin/wbms.rs:39 | fails exactly when the redirects log cannot be read; otherwise `data/` gains the resolved content and `invalid/` is untouched |
| WbmsDownload.DownloadPhase | src/bin/wbms.rs:40-41 | fails exactly when the logs cannot be read; otherwise every worklist item is counted once as verified, mismatched or failed, and the downloads are saved |
| WbmsDownload.ResolveAndDownload | src/bin/wbms.rs:39-41 | redirects are resolved first, and items downloaded only when that succeeded |
| DlBin.Plan | client/src/bin/dl.rs:19-40 | resuming skips the CDX phase, a query runs it first, with neither nothing runs; resolution then download always end a run |
| DlBin.PlanIsDownloadPlan | client/src/bin/dl.rs:19-40 | a `dl` run is a `wbms` download run, resuming being a run without a query |

## Left out

- Transport: the HTTP client, TCP keep-alive, timeouts and the clock are not modelled. The `n`-th request a call makes receives `net(n)`, a reply whose elapsed time is given with it. Headers other than `Location`, and the body's character set, are not modelled: bodies are text decoded by a parameter.
- Concurrency: `buffer_unordered`, `try_buffer_unordered`, spawned tasks and locks are not modelled. Session work and CDX searches run one at a time, in worklist order. The pacer is a step in the trace with no effect.
- Hashing, compression and serialisation are function parameters, with no definition of their own: SHA-1, gzip, the JSON decoder, CSV quoting and `bincode`. CSV files are sequences of records.
- Retries: the retry loop of the `tryhard` crate is not part of this model. `Retries.RetryFn` states the contract the source relies on (at most `max_retries` retries, and a stop at `Break`), and the retried operations are specified through it.
- Durations are unbounded natural numbers of nanoseconds. The overflow of doubling a `Duration` is not modelled.
- Logging: `log` output, `println!` progress lines, `Debug` formatting of errors, and the text of error messages are not modelled. Errors are datatypes.
- `Cdx.Exchange`: a body that cannot be read ends the exchange without a closing observer event, as in the source. Nothing else about that request is modelled.
- `Cdx.PageOfRecords`: the source panics on a page whose resume-key row is empty (src/cdx.rs:262-265). The model returns the error `EmptyResumeKeyRow` instead.
- `Cdx.StreamSearch`: the unbounded `try_unfold` stream is bounded by a page count `maxPages`. Paging past that count is not modelled.
- `ClientCdx.Search`: a body that is not valid JSON is reported as the client error `OtherFailure`. The client crate's error conversion is not part of this model.
- `Digest.ComputeDigest`: reads are a list of outcomes, and an interrupted read is retried as `std::io::copy` does. For downloaded bytes (`Session.ContentDigest`) reading cannot fail, so that I/O error path is not modelled there.
- `StoreData`: `Store::create`, `extract`, `extract_bytes`, `extract_reader` and `compute_digests` are not modelled; they are file and gzip effects and a spawned task. The file system is a parameter, paths are lists of component names, and paths are not normalised.
- `Index`, `Meta`: SQLite, its schema and its errors are not modelled. Tables are append-only sequences. `Index.Store.constructor` starts from a fresh database. `Meta.ItemStore.constructor` starts from a fresh or recreated database; opening an existing one without recreating it is not modelled.
- `Session`: failures to create the session directory, or to open and write its files, are not modelled, apart from the log files the phases read back. `Session::new_timestamped` is modelled as `Session.Session.Timestamped` with the time as a parameter. The known-digests file is given by its contents.
- `Session`: the index client, the redirect resolver and the downloader are parameters of the session, given as the outcomes of their calls. `client/src/session.rs` imports the client crate's `cdx` and `downloader`, but calls `resolve_redirect` with an expected digest and reads `valid_digest` from its result, which is the API of the library's `src/downloader.rs`. So a search fails with the library's `Cdx.Error`, a resolution is the library's `Downloader.RedirectResolution` or `Downloader.Error`, and only an item download fails with `ClientDownloader.Error`.
- `Parquet`: reading the input directory and its files is a parameter: the directory listing, the path sort and `File::open` errors. The Parquet writer's internals are not modelled, nor are its schema, `InvalidColumns` errors and I/O errors. A file is its sequence of row groups. `iter_csv` is the list of rows of a file. The `HashSet` of a bucket is an insertion-ordered list without repeats.
- `ParquetBin`: the `to-db` subcommand's loop over the Parquet rows and its `sled` tree are not modelled; only the snapshot-URL sets and the merge operator are. Rows whose URL has 100 bytes or more are skipped by that loop and are not modelled either.
- `Wbms`: the `digests` subcommand only prints the result of `StoreData.PathsForPrefix`, and that printing is not modelled.
- `Wbms.ExpandQueries`: `to_lowercase` is modelled on ASCII letters only. Other Unicode case mappings are not modelled.
- `WbmsDownload.Download`: states the order of the phases and when each runs. It does not restate the session state, which the `Session.Session` methods it calls specify.
- `DlBin`: session construction in `main` is not modelled. A run is modelled as its plan of session phases.
- `SearchBin`: the CSV output loop over `stream_search` and its page limit of 10000 are not modelled. `sort` is modelled on values (`Sorting.Sort`), and `dedup` in place on an array.
- `Items.ParseUrlInfo`: the pattern's optional group `(:?s)?` is hand-coded as the schemes `http`, `https` and `http:s` (`Items.MatchScheme`). `\d` is modelled as an ASCII digit, although the regex crate's `\d` also matches other Unicode digits.
- `Util`: timestamps are parsed only in the strict fourteen-digit layout. chrono's lenient field widths, signed years and leap seconds are not modelled.
- `ClientDownloader.RetryBound`: the contract states the cast only for retry counts below 2^32, although the function keeps the low 32 bits of every count.
- Browser automation, the remaining binaries (`wbmis`, `check`, `compress`, `query`, `validate`), command-line parsing and logging setup are not part of this model.
