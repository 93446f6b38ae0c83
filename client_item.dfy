/**
 * The snapshot record of the client crate (`client/src/item.rs`): the same
 * six CDX fields as `Items.Item`, but with a 64-bit length, no ordering and
 * no record writer.
 */
module ClientItems {
  import opened Wrappers
  import opened Text
  import opened Util
  import Items

  datatype Error =
    | MissingUrl
    | MissingTimestamp
    | MissingDigest
    | MissingMimeType
    | MissingLength
    | MissingStatus
    | InvalidTimestamp(value: string)
    | InvalidLength(value: string)
    | InvalidStatus(value: string)

  datatype Item = Item(
    url: string,
    archivedAt: DateTime,
    digest: string,
    mimeType: string,
    length: U64,
    status: Option<U16>)

  function Timestamp(item: Item): (ts: string)
    ensures |ts| == 14 && ParseTimestamp(ts) == Some(item.archivedAt)
  {
    ParseToTimestamp(item.archivedAt);
    ToTimestamp(item.archivedAt)
  }

  /** The archive URL of the snapshot (`id_` original bytes, `if_` rewritten). */
  function WaybackUrl(item: Item, original: bool): (u: string)
    ensures |u| == |Items.WAYBACK_PREFIX| + 18 + |item.url|
    ensures u[..|Items.WAYBACK_PREFIX|] == Items.WAYBACK_PREFIX
    ensures u[|Items.WAYBACK_PREFIX|..|Items.WAYBACK_PREFIX| + 14] == Timestamp(item)
    ensures u[|Items.WAYBACK_PREFIX| + 14..|Items.WAYBACK_PREFIX| + 18] == (if original then "id_/" else "if_/")
    ensures u[|Items.WAYBACK_PREFIX| + 18..] == item.url
  {
    var mode := if original then "id_" else "if_";
    Items.UrlLayout(Items.WAYBACK_PREFIX, Timestamp(item), mode, item.url);
    Items.WAYBACK_PREFIX + Timestamp(item) + mode + "/" + item.url
  }

  function StatusCode(item: Item): (code: string)
    ensures item.status.None? <==> code == "-"
    ensures item.status.Some? ==> ParseUnsigned(code, U16_BOUND) == Some(item.status.value)
  {
    match item.status
    case None => "-"
    case Some(v) =>
      ParseToDecimal(v, U16_BOUND);
      ToDecimal(v)
  }

  function MakeExtension(item: Item): (ext: Option<string>)
    ensures ext == Some("json") <==> item.mimeType == "application/json"
    ensures ext == Some("html") <==> item.mimeType == "text/html"
    ensures ext.Some? ==> ext == Some("json") || ext == Some("html")
  {
    match item.mimeType
    case "application/json" => Some("json")
    case "text/html" => Some("html")
    case _ => None
  }

  function MakeFilename(item: Item): (name: string)
    ensures MakeExtension(item).None? ==> name == item.digest
    ensures MakeExtension(item).Some? ==>
      name == item.digest + "." + MakeExtension(item).value
  {
    match MakeExtension(item)
    case None => item.digest
    case Some(ext) => item.digest + "." + ext
  }

  /** Parses the six CDX fields, checking timestamp, then length (`u64`),
      then status. */
  function Parse(url: string, timestamp: string, digest: string, mimeType: string,
                 length: string, status: string): (r: Result<Item, Error>)
    ensures r == Failure(InvalidTimestamp(timestamp)) <==> ParseTimestamp(timestamp).None?
    ensures r == Failure(InvalidLength(length)) <==>
      ParseTimestamp(timestamp).Some? && ParseUnsigned(length, U64_BOUND).None?
    ensures r == Failure(InvalidStatus(status)) <==>
      ParseTimestamp(timestamp).Some? && ParseUnsigned(length, U64_BOUND).Some?
      && status != "-" && ParseUnsigned(status, U16_BOUND).None?
    ensures r.Failure? ==> r.error.InvalidTimestamp? || r.error.InvalidLength? || r.error.InvalidStatus?
    ensures r.Success? ==>
      && r.value.url == url && r.value.digest == digest && r.value.mimeType == mimeType
      && Timestamp(r.value) == timestamp
      && Some(r.value.length as nat) == ParseUnsigned(length, U64_BOUND)
      && (status == "-" <==> r.value.status.None?)
      && (r.value.status.Some? ==> Some(r.value.status.value as nat) == ParseUnsigned(status, U16_BOUND))
  {
    match ParseTimestamp(timestamp)
    case None => Failure(InvalidTimestamp(timestamp))
    case Some(archivedAt) =>
      match ParseUnsigned(length, U64_BOUND)
      case None => Failure(InvalidLength(length))
      case Some(len) =>
        if status == "-" then
          ToTimestampOfParse(timestamp);
          Success(Item(url, archivedAt, digest, mimeType, len, None))
        else
          match ParseUnsigned(status, U16_BOUND)
          case None => Failure(InvalidStatus(status))
          case Some(code) =>
            ToTimestampOfParse(timestamp);
            Success(Item(url, archivedAt, digest, mimeType, len, Some(code)))
  }

  /** `parse_optional`: the first absent field in column order is reported. */
  function ParseOptional(url: Option<string>, timestamp: Option<string>, digest: Option<string>,
                         mimeType: Option<string>, length: Option<string>, status: Option<string>)
    : (r: Result<Item, Error>)
    ensures url.None? ==> r == Failure(MissingUrl)
    ensures url.Some? && timestamp.None? ==> r == Failure(MissingTimestamp)
    ensures url.Some? && timestamp.Some? && digest.None? ==> r == Failure(MissingDigest)
    ensures url.Some? && timestamp.Some? && digest.Some? && mimeType.None? ==> r == Failure(MissingMimeType)
    ensures url.Some? && timestamp.Some? && digest.Some? && mimeType.Some? && length.None? ==>
      r == Failure(MissingLength)
    ensures url.Some? && timestamp.Some? && digest.Some? && mimeType.Some? && length.Some? && status.None? ==>
      r == Failure(MissingStatus)
    ensures url.Some? && timestamp.Some? && digest.Some? && mimeType.Some? && length.Some? && status.Some? ==>
      r == Parse(url.value, timestamp.value, digest.value, mimeType.value, length.value, status.value)
  {
    if url.None? then Failure(MissingUrl)
    else if timestamp.None? then Failure(MissingTimestamp)
    else if digest.None? then Failure(MissingDigest)
    else if mimeType.None? then Failure(MissingMimeType)
    else if length.None? then Failure(MissingLength)
    else if status.None? then Failure(MissingStatus)
    else Parse(url.value, timestamp.value, digest.value, mimeType.value, length.value, status.value)
  }

  /** Printing the fields of a snapshot the way the archive lists them and
      parsing them gives the snapshot back. */
  lemma ParsePrintedFields(item: Item)
    ensures Parse(item.url, Timestamp(item), item.digest, item.mimeType,
                  ToDecimal(item.length), StatusCode(item)) == Success(item)
  {
    ParseToDecimal(item.length, U64_BOUND);
    var r := Parse(item.url, Timestamp(item), item.digest, item.mimeType, ToDecimal(item.length), StatusCode(item));
    assert r.Success?;
    ToTimestampInjective(r.value.archivedAt, item.archivedAt);
    if item.status.Some? {
      assert StatusCode(item) != "-";
    }
  }

  /** The two crates read a CDX row alike, except that the client accepts
      lengths of 2^32 and more. */
  lemma ParseAgreesWithServerItem(url: string, timestamp: string, digest: string, mimeType: string,
                                  length: string, status: string)
    ensures var c := Parse(url, timestamp, digest, mimeType, length, status);
            var s := Items.Parse(url, timestamp, digest, mimeType, length, status);
      && (s.Success? ==>
            && c.Success? && c.value.length as nat == s.value.length as nat
            && c.value == Item(s.value.url, s.value.archivedAt, s.value.digest, s.value.mimeType,
                               c.value.length, s.value.status))
      && (c.Success? && s.Failure? ==> s.error == Items.InvalidLength(length) && c.value.length >= U32_BOUND)
  {
  }
}
