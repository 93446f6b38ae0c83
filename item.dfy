/**
 * One archived snapshot as listed by the CDX server (`src/item.rs`): its
 * parsing from the six CDX fields, its printing back to them, the archive
 * URLs that name it, and the parsing of such URLs.
 */
module Items {
  import opened Wrappers
  import opened Text
  import opened Util
  import Sorting

  datatype Error =
    | MissingUrl
    | MissingTimestamp
    | MissingDigest
    | MissingMimeType
    | MissingLength
    | MissingStatus
    | InvalidTimestamp(value: string)
    | InvalidLength(value: string)
    | InvalidStatus(value: string)
    | InvalidWaybackUrl(value: string)

  /** The original URL and the timestamp named by an archive URL. */
  datatype UrlInfo = UrlInfo(url: string, timestamp: string)

  datatype Item = Item(
    url: string,
    archivedAt: DateTime,
    digest: string,
    mimeType: string,
    length: U32,
    status: Option<U16>)

  const WAYBACK_PREFIX: string := "http://web.archive.org/web/"

  /** Where the pieces of `prefix + timestamp + mode + "/" + url` lie. */
  lemma UrlLayout(prefix: string, timestamp: string, mode: string, url: string)
    requires |timestamp| == 14 && |mode| == 3
    ensures var u := prefix + timestamp + mode + "/" + url;
      && |u| == |prefix| + 18 + |url|
      && u[..|prefix|] == prefix
      && u[|prefix|..|prefix| + 14] == timestamp
      && u[|prefix| + 14..|prefix| + 18] == mode + "/"
      && u[|prefix| + 18..] == url
  {
    var u := prefix + timestamp + mode + "/" + url;
    assert u == prefix + (timestamp + (mode + "/" + url));
    assert u[|prefix|..] == timestamp + ((mode + "/") + url);
  }

  /** The archive URL of the snapshot: `id_` asks for the original bytes,
      `if_` for the archive's rewritten page. */
  function WaybackUrl(item: Item, original: bool): (u: string)
    ensures |u| == |WAYBACK_PREFIX| + 18 + |item.url|
    ensures u[..|WAYBACK_PREFIX|] == WAYBACK_PREFIX
    ensures u[|WAYBACK_PREFIX|..|WAYBACK_PREFIX| + 14] == Timestamp(item)
    ensures u[|WAYBACK_PREFIX| + 14..|WAYBACK_PREFIX| + 18] == (if original then "id_/" else "if_/")
    ensures u[|WAYBACK_PREFIX| + 18..] == item.url
  {
    var mode := if original then "id_" else "if_";
    UrlLayout(WAYBACK_PREFIX, Timestamp(item), mode, item.url);
    WAYBACK_PREFIX + Timestamp(item) + mode + "/" + item.url
  }

  /** The fourteen-digit timestamp of the snapshot. */
  function Timestamp(item: Item): (ts: string)
    ensures |ts| == 14 && ParseTimestamp(ts) == Some(item.archivedAt)
  {
    ParseToTimestamp(item.archivedAt);
    ToTimestamp(item.archivedAt)
  }

  /** The status column: `-` when the CDX row had none, else its decimal form. */
  function StatusCode(item: Item): (code: string)
    ensures item.status.None? <==> code == "-"
    ensures item.status.Some? ==> ParseUnsigned(code, U16_BOUND) == Some(item.status.value)
  {
    match item.status
    case None => "-"
    case Some(v) =>
      ParseToDecimal(v, U16_BOUND);
      ToDecimal(v)
  }

  /** The file extension for the two MIME types that have one. */
  function MakeExtension(item: Item): (ext: Option<string>)
    ensures ext == Some("json") <==> item.mimeType == "application/json"
    ensures ext == Some("html") <==> item.mimeType == "text/html"
    ensures ext.Some? ==> ext == Some("json") || ext == Some("html")
  {
    match item.mimeType
    case "application/json" => Some("json")
    case "text/html" => Some("html")
    case _ => None
  }

  /** The file name of the snapshot: its digest, with the extension if any. */
  function MakeFilename(item: Item): (name: string)
    ensures MakeExtension(item).None? ==> name == item.digest
    ensures MakeExtension(item).Some? ==>
      name == item.digest + "." + MakeExtension(item).value
  {
    match MakeExtension(item)
    case None => item.digest
    case Some(ext) => item.digest + "." + ext
  }

  /** A copy of the snapshot with another digest and everything else kept. */
  function WithDigest(item: Item, digest: string): (r: Item)
    ensures r.digest == digest
    ensures r.url == item.url && r.archivedAt == item.archivedAt && r.mimeType == item.mimeType
    ensures r.length == item.length && r.status == item.status
  {
    item.(digest := digest)
  }

  /** Parses the six CDX fields: timestamp, then length (a `u32`), then
      status (`-` or a `u16`); URL, digest and MIME type are kept verbatim. */
  function Parse(url: string, timestamp: string, digest: string, mimeType: string,
                 length: string, status: string): (r: Result<Item, Error>)
    ensures r == Failure(InvalidTimestamp(timestamp)) <==> ParseTimestamp(timestamp).None?
    ensures r == Failure(InvalidLength(length)) <==>
      ParseTimestamp(timestamp).Some? && ParseUnsigned(length, U32_BOUND).None?
    ensures r == Failure(InvalidStatus(status)) <==>
      ParseTimestamp(timestamp).Some? && ParseUnsigned(length, U32_BOUND).Some?
      && status != "-" && ParseUnsigned(status, U16_BOUND).None?
    ensures r.Failure? ==> r.error.InvalidTimestamp? || r.error.InvalidLength? || r.error.InvalidStatus?
    ensures r.Success? ==>
      && r.value.url == url && r.value.digest == digest && r.value.mimeType == mimeType
      && Timestamp(r.value) == timestamp
      && Some(r.value.length as nat) == ParseUnsigned(length, U32_BOUND)
      && (status == "-" <==> r.value.status.None?)
      && (r.value.status.Some? ==> Some(r.value.status.value as nat) == ParseUnsigned(status, U16_BOUND))
  {
    match ParseTimestamp(timestamp)
    case None => Failure(InvalidTimestamp(timestamp))
    case Some(archivedAt) =>
      match ParseUnsigned(length, U32_BOUND)
      case None => Failure(InvalidLength(length))
      case Some(len) =>
        if status == "-" then
          ToTimestampOfParse(timestamp);
          Success(Item(url, archivedAt, digest, mimeType, len, None))
        else
          match ParseUnsigned(status, U16_BOUND)
          case None => Failure(InvalidStatus(status))
          case Some(code) =>
            ToTimestampOfParse(timestamp);
            Success(Item(url, archivedAt, digest, mimeType, len, Some(code)))
  }

  /** `parse_optional_record`: the first absent field, in column order,
      is reported; with all six present it is `Parse`. */
  function ParseOptionalRecord(url: Option<string>, timestamp: Option<string>, digest: Option<string>,
                               mimeType: Option<string>, length: Option<string>, status: Option<string>)
    : (r: Result<Item, Error>)
    ensures url.None? ==> r == Failure(MissingUrl)
    ensures url.Some? && timestamp.None? ==> r == Failure(MissingTimestamp)
    ensures url.Some? && timestamp.Some? && digest.None? ==> r == Failure(MissingDigest)
    ensures url.Some? && timestamp.Some? && digest.Some? && mimeType.None? ==> r == Failure(MissingMimeType)
    ensures url.Some? && timestamp.Some? && digest.Some? && mimeType.Some? && length.None? ==>
      r == Failure(MissingLength)
    ensures url.Some? && timestamp.Some? && digest.Some? && mimeType.Some? && length.Some? && status.None? ==>
      r == Failure(MissingStatus)
    ensures url.Some? && timestamp.Some? && digest.Some? && mimeType.Some? && length.Some? && status.Some? ==>
      r == Parse(url.value, timestamp.value, digest.value, mimeType.value, length.value, status.value)
  {
    if url.None? then Failure(MissingUrl)
    else if timestamp.None? then Failure(MissingTimestamp)
    else if digest.None? then Failure(MissingDigest)
    else if mimeType.None? then Failure(MissingMimeType)
    else if length.None? then Failure(MissingLength)
    else if status.None? then Failure(MissingStatus)
    else Parse(url.value, timestamp.value, digest.value, mimeType.value, length.value, status.value)
  }

  /** `to_record`: the six CDX fields of the snapshot, in column order. */
  function ToRecord(item: Item): (record: seq<string>)
    ensures |record| == 6
  {
    [item.url, Timestamp(item), item.digest, item.mimeType, ToDecimal(item.length), StatusCode(item)]
  }

  /** Reading back a written record gives the same snapshot. */
  lemma RecordRoundTrip(item: Item)
    ensures var f := ToRecord(item);
      ParseOptionalRecord(Some(f[0]), Some(f[1]), Some(f[2]), Some(f[3]), Some(f[4]), Some(f[5]))
        == Success(item)
  {
    ParseToDecimal(item.length, U32_BOUND);
    var f := ToRecord(item);
    var r := Parse(f[0], f[1], f[2], f[3], f[4], f[5]);
    assert r.Success?;
    ToTimestampInjective(r.value.archivedAt, item.archivedAt);
    if item.status.Some? {
      assert f[5] != "-";
    }
  }

  /** A record that parses is written back in canonical form: the same URL,
      timestamp, digest, MIME type, and a status column that is `-` exactly
      when the parsed one was. */
  lemma RecordOfParse(url: string, timestamp: string, digest: string, mimeType: string,
                      length: string, status: string)
    requires Parse(url, timestamp, digest, mimeType, length, status).Success?
    ensures var f := ToRecord(Parse(url, timestamp, digest, mimeType, length, status).value);
      f[..4] == [url, timestamp, digest, mimeType] && (f[5] == "-" <==> status == "-")
  {
  }

  // ------------------------------------------------------------ archive URLs

  /** The scheme alternatives of the archive URL pattern: `http`, `https`
      and (as the optional group is written) `http:s`, then `://`. */
  function MatchScheme(s: string): (n: Option<nat>)
    ensures n.Some? ==> n.value <= |s|
  {
    if StartsWith(s, "http://") then Some(7)
    else if StartsWith(s, "https://") then Some(8)
    else if StartsWith(s, "http:s://") then Some(9)
    else None
  }

  const HOST_PATTERN: string := "web.archive.org/web/"

  /** `web.archive.org/web/` where each unescaped `.` matches any character
      but a line feed. */
  predicate HostMatches(t: string)
    requires |t| == |HOST_PATTERN|
  {
    forall i :: 0 <= i < |t| ==>
      if HOST_PATTERN[i] == '.' then t[i] != '\n' else t[i] == HOST_PATTERN[i]
  }

  /** `.+`: one or more characters other than a line feed. */
  predicate IsLine(t: string) {
    t != [] && '\n' !in t
  }

  /** `UrlInfo::from_str`: matches the whole text against the archive URL
      pattern (scheme, host, fourteen digits, optional `id_`, `/`, URL). */
  function ParseUrlInfo(s: string): (r: Result<UrlInfo, Error>)
    ensures r.Failure? ==> r.error == InvalidWaybackUrl(s)
    ensures r.Success? ==> |r.value.timestamp| == 14 && AllDigits(r.value.timestamp) && IsLine(r.value.url)
  {
    match MatchScheme(s)
    case None => Failure(InvalidWaybackUrl(s))
    case Some(k) =>
      var rest := s[k..];
      if |rest| < |HOST_PATTERN| + 14 + 1 || !HostMatches(rest[..|HOST_PATTERN|]) then Failure(InvalidWaybackUrl(s))
      else
        var ts := rest[|HOST_PATTERN|..|HOST_PATTERN| + 14];
        var tail := rest[|HOST_PATTERN| + 14..];
        if !AllDigits(ts) then Failure(InvalidWaybackUrl(s))
        else if StartsWith(tail, "id_/") && IsLine(tail[4..]) then Success(UrlInfo(tail[4..], ts))
        else if StartsWith(tail, "/") && IsLine(tail[1..]) then Success(UrlInfo(tail[1..], ts))
        else Failure(InvalidWaybackUrl(s))
  }

  lemma HostPatternMatchesItself()
    ensures HostMatches(HOST_PATTERN)
  {
  }

  /** The archive prefix is `http://` followed by the host pattern. */
  lemma PrefixHost()
    ensures |WAYBACK_PREFIX| == 27 && WAYBACK_PREFIX[7..] == HOST_PATTERN
  {
  }

  /** The first seven characters of an archive URL select the `http` scheme. */
  lemma WaybackUrlScheme(item: Item, original: bool)
    ensures MatchScheme(WaybackUrl(item, original)) == Some(7)
  {
    var u := WaybackUrl(item, original);
    assert u[..7] == u[..|WAYBACK_PREFIX|][..7];
  }

  /** The `id_` archive URL of a snapshot whose URL is one line parses back
      to that URL and the snapshot's timestamp. */
  lemma ParseOriginalWaybackUrl(item: Item)
    requires IsLine(item.url)
    ensures ParseUrlInfo(WaybackUrl(item, true)) == Success(UrlInfo(item.url, Timestamp(item)))
  {
    var u := WaybackUrl(item, true);
    WaybackUrlScheme(item, true);
    var rest := u[7..];
    PrefixHost();
    assert u[7..27] == u[..27][7..];
    assert rest[..20] == HOST_PATTERN;
    HostPatternMatchesItself();
    assert rest[20..34] == u[27..41];
    var tail := rest[34..];
    assert tail[..4] == u[41..45] == "id_/";
    assert tail[4..] == u[45..] == item.url;
  }

  /** The `if_` archive URL does not match the pattern, which only allows
      `id_` between the timestamp and the URL. */
  lemma ParseRewrittenWaybackUrlFails(item: Item)
    ensures ParseUrlInfo(WaybackUrl(item, false)) == Failure(InvalidWaybackUrl(WaybackUrl(item, false)))
  {
    var u := WaybackUrl(item, false);
    WaybackUrlScheme(item, false);
    PrefixHost();
    var rest := u[7..];
    var tail := rest[34..];
    assert tail[..4] == u[41..45] == "if_/";
    assert tail[0] == 'i' && tail[1] == 'f';
    assert !StartsWith(tail, "id_/") && !StartsWith(tail, "/");
  }

  // ------------------------------------------------------------------ order

  predicate StatusLt(a: Option<U16>, b: Option<U16>) {
    match (a, b)
    case (None, Some(_)) => true
    case (Some(x), Some(y)) => x < y
    case _ => false
  }

  /** The derived `Ord` of `Item`: fields compared in declaration order. */
  predicate ItemLt(a: Item, b: Item) {
    if a.url != b.url then Sorting.StrLt(a.url, b.url)
    else if a.archivedAt != b.archivedAt then DateTimeLt(a.archivedAt, b.archivedAt)
    else if a.digest != b.digest then Sorting.StrLt(a.digest, b.digest)
    else if a.mimeType != b.mimeType then Sorting.StrLt(a.mimeType, b.mimeType)
    else if a.length != b.length then a.length < b.length
    else StatusLt(a.status, b.status)
  }

  lemma DateTimeLtTrichotomous(a: DateTime, b: DateTime)
    ensures a == b || DateTimeLt(a, b) || DateTimeLt(b, a)
  {
  }

  /** `ItemLt` is a strict total order, as `Vec<Item>::sort` needs. */
  lemma ItemLtTotal()
    ensures Sorting.StrictTotalOrder(ItemLt)
  {
    forall a: Item
      ensures !ItemLt(a, a)
    {
      Sorting.StrLtIrreflexive(a.url);
    }
    forall a: Item, b: Item, c: Item | ItemLt(a, b) && ItemLt(b, c)
      ensures ItemLt(a, c)
    {
      ItemLtTransitive(a, b, c);
    }
    forall a: Item, b: Item
      ensures a == b || ItemLt(a, b) || ItemLt(b, a)
    {
      Sorting.StrLtTrichotomous(a.url, b.url);
      Sorting.StrLtTrichotomous(a.digest, b.digest);
      Sorting.StrLtTrichotomous(a.mimeType, b.mimeType);
      DateTimeLtTrichotomous(a.archivedAt, b.archivedAt);
    }
  }

  lemma ItemLtTransitive(a: Item, b: Item, c: Item)
    requires ItemLt(a, b) && ItemLt(b, c)
    ensures ItemLt(a, c)
  {
    Sorting.StrLtIrreflexive(a.url);
    Sorting.StrLtIrreflexive(b.url);
    Sorting.StrLtIrreflexive(a.digest);
    Sorting.StrLtIrreflexive(b.digest);
    Sorting.StrLtIrreflexive(a.mimeType);
    Sorting.StrLtIrreflexive(b.mimeType);
    if a.url != b.url && b.url != c.url {
      Sorting.StrLtTransitive(a.url, b.url, c.url);
    }
    if a.url == b.url && b.url == c.url {
      if a.archivedAt == b.archivedAt && b.archivedAt == c.archivedAt {
        if a.digest != b.digest && b.digest != c.digest {
          Sorting.StrLtTransitive(a.digest, b.digest, c.digest);
        }
        if a.digest == b.digest && b.digest == c.digest && a.mimeType != b.mimeType && b.mimeType != c.mimeType {
          Sorting.StrLtTransitive(a.mimeType, b.mimeType, c.mimeType);
        }
      }
    }
  }
}
