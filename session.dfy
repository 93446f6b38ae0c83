/**
 * The download session of the client crate (`client/src/session.rs`). A
 * session directory holds the query log, the blocked queries, the CSV logs
 * of original and redirect snapshots, the extras found by resolving
 * redirects, the error logs, and the gzip files under `data/` and
 * `invalid/`. Each file is a field of `Session`; a CSV file is the
 * sequence of records written to it, `None` while it does not exist.
 *
 * The index client, the redirect resolver, the downloader and SHA-1 are
 * parameters; the session talks to them as `session.rs` does (the
 * library's snapshot record, `to_record` and `parse_optional_record`, and
 * the three-argument `resolve_redirect` with its `valid_digest` flag).
 * Work the source runs with bounded parallelism is done in worklist order.
 */
module Session {
  import opened Wrappers
  import opened Text
  import Util
  import Sorting
  import Items
  import Cdx
  import Downloader
  import Digest
  import ClientDownloader
  import ClientDigest

  datatype Error =
    | IOError
    | IndexClientError(cdxError: Cdx.Error)
    | CsvError
    | ItemError(itemError: Items.Error)

  /** A CSV record: its fields in column order. */
  type Record = seq<string>

  /** A gzip file as written: the file name kept in its header and the
      bytes it compresses. */
  datatype GzFile = GzFile(filename: string, content: seq<U8>)

  /** The known-digests file: none configured, its lines, or a file that
      cannot be opened or read to the end. */
  datatype KnownDigests = NoKnownDigests | KnownLines(lines: seq<string>) | KnownUnreadable

  /** The text of a log of lines: `join("\n")` and a final newline. */
  function LinesText(lines: seq<string>): string {
    (if lines == [] then "" else Join(lines, '\n')) + "\n"
  }

  // -------------------------------------------------------------- results

  /** The values of the successful results, in order. */
  function Successes<T(!new), E>(rs: seq<Result<T, E>>): (vs: seq<T>)
    ensures |vs| <= |rs|
    ensures forall v :: v in vs <==> Success(v) in rs
  {
    if rs == [] then []
    else
      var init := Successes(rs[..|rs| - 1]);
      assert rs == rs[..|rs| - 1] + [rs[|rs| - 1]];
      match rs[|rs| - 1]
      case Success(v) => init + [v]
      case Failure(_) => init
  }

  /** The errors of the failed results, in order. */
  function Failures<T, E(!new)>(rs: seq<Result<T, E>>): (es: seq<E>)
    ensures |es| <= |rs|
    ensures forall e :: e in es <==> Failure(e) in rs
  {
    if rs == [] then []
    else
      var init := Failures(rs[..|rs| - 1]);
      assert rs == rs[..|rs| - 1] + [rs[|rs| - 1]];
      match rs[|rs| - 1]
      case Success(_) => init
      case Failure(e) => init + [e]
  }

  /** Every result is either a success or a failure. */
  lemma {:induction false} SuccessesAndFailures<T(!new), E(!new)>(rs: seq<Result<T, E>>)
    ensures |Successes(rs)| + |Failures(rs)| == |rs|
  {
    if rs != [] {
      SuccessesAndFailures(rs[..|rs| - 1]);
    }
  }

  /** The batches one after the other. */
  function Flatten<T(!new)>(batches: seq<seq<T>>): (s: seq<T>)
    ensures forall x :: x in s <==> exists i :: 0 <= i < |batches| && x in batches[i]
  {
    if batches == [] then []
    else
      var init := batches[..|batches| - 1];
      assert forall i :: 0 <= i < |init| ==> init[i] == batches[i];
      Flatten(init) + batches[|batches| - 1]
  }

  // ------------------------------------------------------------ CSV files

  /** The records written for a sequence of snapshots. */
  function Records(items: seq<Items.Item>): seq<Record> {
    seq(|items|, i requires 0 <= i < |items| => Items.ToRecord(items[i]))
  }

  lemma RecordsSnoc(items: seq<Items.Item>, item: Items.Item)
    ensures Records(items + [item]) == Records(items) + [Items.ToRecord(item)]
  {
  }

  /** One record read back: its first six fields, a missing one reported
      as missing. */
  function ReadRecord(row: Record): (r: Result<Items.Item, Error>)
    ensures r.Failure? ==> r.error.ItemError?
  {
    match Items.ParseOptionalRecord(Cdx.Field(row, 0), Cdx.Field(row, 1), Cdx.Field(row, 2),
                                    Cdx.Field(row, 3), Cdx.Field(row, 4), Cdx.Field(row, 5))
    case Failure(e) => Failure(ItemError(e))
    case Success(item) => Success(item)
  }

  /** `read_csv`: every record read back (there is no header), the first
      failure failing the whole file. */
  function ReadCsv(rows: seq<Record>): (r: Result<seq<Items.Item>, Error>)
    ensures r.Success? <==> forall i :: 0 <= i < |rows| ==> ReadRecord(rows[i]).Success?
    ensures r.Success? ==> |r.value| == |rows| && forall i :: 0 <= i < |rows| ==> ReadRecord(rows[i]) == Success(r.value[i])
    ensures r.Failure? ==> r.error.ItemError?
  {
    var rs := Map(ReadRecord, rows);
    var r := Collect(rs);
    assert r.Failure? ==> exists i :: 0 <= i < |rs| && rs[i] == Failure(r.error);
    r
  }

  /** A file of written records reads back as the snapshots written. */
  lemma ReadWritten(items: seq<Items.Item>)
    ensures ReadCsv(Records(items)) == Success(items)
  {
    var rows := Records(items);
    var rs := Map(ReadRecord, rows);
    forall i | 0 <= i < |items|
      ensures rs[i] == Success(items[i])
    {
      Items.RecordRoundTrip(items[i]);
    }
    CollectSuccesses(rs, items);
  }

  // ------------------------------------------------------ saving searches

  /** A search result as `save_cdx_results` keeps it: the snapshots, or the
      query set aside when it was blocked; any other error aborts. */
  function Classify(r: Result<seq<Items.Item>, Cdx.Error>): Result<Result<seq<Items.Item>, string>, Error> {
    match r
    case Success(items) => Success(Success(items))
    case Failure(BlockedQuery(query)) => Success(Failure(query))
    case Failure(e) => Failure(IndexClientError(e))
  }

  /** An index search: a query with an optional timestamp filter (the
      session never filters by digest). */
  type Search = (string, Option<string>) -> Result<seq<Items.Item>, Cdx.Error>

  /** The searches of all queries, collected: the first error other than
      a blocked query aborts. */
  function SearchResults(queries: seq<string>, search: Search)
    : (r: Result<seq<Result<seq<Items.Item>, string>>, Error>)
    ensures r.Failure? <==> exists i :: 0 <= i < |queries| && Classify(search(queries[i], None)).Failure?
    ensures r.Failure? ==> exists i :: 0 <= i < |queries| && Classify(search(queries[i], None)) == Failure(r.error)
    ensures r.Success? ==> (|r.value| == |queries| &&
      forall i :: 0 <= i < |queries| ==> Classify(search(queries[i], None)) == Success(r.value[i]))
  {
    var rs := seq(|queries|, i requires 0 <= i < |queries| => Classify(search(queries[i], None)));
    assert forall i :: 0 <= i < |queries| ==> rs[i] == Classify(search(queries[i], None));
    Collect(rs)
  }

  /** The blocked queries and the found snapshots of the searches, in
      order: the loop that extends `items` and pushes onto `blocked`. */
  method Gather(results: seq<Result<seq<Items.Item>, string>>)
    returns (blocked: seq<string>, items: seq<Items.Item>)
    ensures blocked == Failures(results)
    ensures items == Flatten(Successes(results))
  {
    blocked, items := [], [];
    for i := 0 to |results|
      invariant blocked == Failures(results[..i])
      invariant items == Flatten(Successes(results[..i]))
    {
      assert results[..i + 1][..i] == results[..i];
      match results[i] {
        case Success(batch) =>
          items := items + batch;
        case Failure(query) =>
          blocked := blocked + [query];
      }
    }
    assert results[..|results|] == results;
  }

  /** A snapshot listed as a redirect: status exactly 302. */
  predicate IsRedirect(item: Items.Item) {
    item.status == Some(302)
  }

  /** The snapshots with status 302, in order. */
  function Redirects(items: seq<Items.Item>): (r: seq<Items.Item>)
    ensures forall x :: x in r <==> x in items && IsRedirect(x)
    ensures multiset(r) <= multiset(items)
  {
    if items == [] then []
    else
      var init := items[..|items| - 1];
      assert items == init + [items[|items| - 1]];
      if IsRedirect(items[|items| - 1]) then Redirects(init) + [items[|items| - 1]] else Redirects(init)
  }

  /** The other snapshots (any other status, or none), in order. */
  function Originals(items: seq<Items.Item>): (r: seq<Items.Item>)
    ensures forall x :: x in r <==> x in items && !IsRedirect(x)
    ensures multiset(r) <= multiset(items)
  {
    if items == [] then []
    else
      var init := items[..|items| - 1];
      assert items == init + [items[|items| - 1]];
      if IsRedirect(items[|items| - 1]) then Originals(init) else Originals(init) + [items[|items| - 1]]
  }

  /** Every snapshot goes to exactly one of the two logs. */
  lemma {:induction false} PartitionExact(items: seq<Items.Item>)
    ensures multiset(Originals(items)) + multiset(Redirects(items)) == multiset(items)
  {
    if items != [] {
      var init := items[..|items| - 1];
      PartitionExact(init);
      assert items == init + [items[|items| - 1]];
    }
  }

  /** One more snapshot: appended to the log its status selects. */
  lemma PartitionStep(items: seq<Items.Item>, i: nat)
    requires i < |items|
    ensures Redirects(items[..i + 1]) ==
      if IsRedirect(items[i]) then Redirects(items[..i]) + [items[i]] else Redirects(items[..i])
    ensures Originals(items[..i + 1]) ==
      if IsRedirect(items[i]) then Originals(items[..i]) else Originals(items[..i]) + [items[i]]
  {
    assert items[..i + 1][..i] == items[..i];
  }

  /** The two item logs: each snapshot's record written to the redirects
      log when its status is 302 and to the originals log otherwise. */
  method WriteItemLogs(items: seq<Items.Item>) returns (originals: seq<Record>, redirects: seq<Record>)
    ensures originals == Records(Originals(items))
    ensures redirects == Records(Redirects(items))
  {
    originals, redirects := [], [];
    for i := 0 to |items|
      invariant originals == Records(Originals(items[..i]))
      invariant redirects == Records(Redirects(items[..i]))
    {
      PartitionStep(items, i);
      if items[i].status == Some(302) {
        RecordsSnoc(Redirects(items[..i]), items[i]);
        redirects := redirects + [Items.ToRecord(items[i])];
      } else {
        RecordsSnoc(Originals(items[..i]), items[i]);
        originals := originals + [Items.ToRecord(items[i])];
      }
    }
    assert items[..|items|] == items;
  }

  /** The snapshots `save_cdx_results` logs: the found ones sorted with
      adjacent duplicates removed, which holds every found snapshot, no
      two equal, and nothing else. */
  function Collected(found: seq<Items.Item>): (r: seq<Items.Item>)
    ensures forall i, j :: 0 <= i < j < |r| ==> r[i] != r[j]
    ensures forall x :: x in found ==> x in r
    ensures multiset(r) <= multiset(found)
  {
    Items.ItemLtTotal();
    Sorting.SortDedup(found, Items.ItemLt);
    var r := Sorting.Dedup(Sorting.Sort(found, Items.ItemLt));
    Sorting.StrictlySortedDistinct(r, Items.ItemLt);
    r
  }

  /** Every found snapshot is logged exactly once: in the redirects log
      when its status is 302, in the originals log otherwise, and both
      logs hold only found snapshots. */
  lemma CollectedLoggedOnce(found: seq<Items.Item>)
    ensures forall x :: x in found ==>
      multiset(Originals(Collected(found)))[x] + multiset(Redirects(Collected(found)))[x] == 1
    ensures forall x :: x in found && IsRedirect(x) ==> x in Redirects(Collected(found))
    ensures forall x :: x in found && !IsRedirect(x) ==> x in Originals(Collected(found))
    ensures forall x :: x in Originals(Collected(found)) + Redirects(Collected(found)) ==> x in found
  {
    var items := Collected(found);
    CollectedOnce(found);
    PartitionExact(items);
    forall x | x in Originals(items) + Redirects(items)
      ensures x in found
    {
      assert x in multiset(items);
    }
  }

  /** The sorted, deduplicated snapshots hold each found one exactly once
      and nothing else. */
  lemma CollectedOnce(found: seq<Items.Item>)
    ensures forall x :: x in found ==> multiset(Collected(found))[x] == 1
    ensures multiset(Collected(found)) <= multiset(found)
  {
    var items := Collected(found);
    forall x | x in found
      ensures multiset(items)[x] == 1
    {
      var k :| 0 <= k < |items| && items[k] == x;
      DistinctCount(items, k);
    }
  }

  /** In a sequence without repeated values each element occurs once. */
  lemma {:induction false} DistinctCount<T>(s: seq<T>, k: nat)
    requires k < |s|
    requires forall i, j :: 0 <= i < j < |s| ==> s[i] != s[j]
    ensures multiset(s)[s[k]] == 1
  {
    var init := s[..|s| - 1];
    assert s == init + [s[|s| - 1]];
    if k == |s| - 1 {
      assert s[k] !in init;
    } else {
      DistinctCount(init, k);
      assert s[|s| - 1] != s[k];
    }
  }

  // ------------------------------------------------------------ worklists

  /** The digests of a sequence of snapshots. */
  function Digests(s: seq<Items.Item>): set<string> {
    set i | 0 <= i < |s| :: s[i].digest
  }

  lemma DigestsSnoc(s: seq<Items.Item>, x: Items.Item)
    ensures Digests(s + [x]) == Digests(s) + {x.digest}
  {
    var t := s + [x];
    assert t[|s|] == x;
    forall d | d in Digests(s)
      ensures d in Digests(t)
    {
      var i :| 0 <= i < |s| && s[i].digest == d;
      assert t[i] == s[i];
    }
  }

  /** Whether `s[i]` is the first snapshot of its digest in `s`. */
  predicate IsFirst(s: seq<Items.Item>, i: nat)
    requires i < |s|
  {
    forall j :: 0 <= j < i ==> s[j].digest != s[i].digest
  }

  /** No digest occurs twice. */
  predicate DistinctDigests(s: seq<Items.Item>) {
    forall i, j :: 0 <= i < j < |s| ==> s[i].digest != s[j].digest
  }

  /** `retain(|item| digests.insert(item.digest))`: a snapshot is kept when
      its digest was not seen before it. */
  function FirstPerDigest(s: seq<Items.Item>): (r: seq<Items.Item>)
    ensures |r| <= |s|
  {
    if s == [] then []
    else
      var init := s[..|s| - 1];
      if s[|s| - 1].digest in Digests(init) then FirstPerDigest(init)
      else FirstPerDigest(init) + [s[|s| - 1]]
  }

  /** Appending a snapshot does not change which earlier ones come first. */
  lemma IsFirstSnoc(init: seq<Items.Item>, last: Items.Item, i: nat)
    requires i < |init|
    ensures IsFirst(init + [last], i) <==> IsFirst(init, i)
  {
    assert forall j :: 0 <= j <= i ==> (init + [last])[j] == init[j];
  }

  /** `FirstPerDigest` keeps every digest. */
  lemma {:induction false} FirstPerDigestDigests(s: seq<Items.Item>)
    ensures Digests(FirstPerDigest(s)) == Digests(s)
  {
    if s != [] {
      var init, last := s[..|s| - 1], s[|s| - 1];
      assert s == init + [last];
      FirstPerDigestDigests(init);
      DigestsSnoc(init, last);
      if last.digest !in Digests(init) {
        DigestsSnoc(FirstPerDigest(init), last);
      }
    }
  }

  /** `FirstPerDigest` keeps no digest twice. */
  lemma {:induction false} FirstPerDigestDistinct(s: seq<Items.Item>)
    ensures DistinctDigests(FirstPerDigest(s))
  {
    if s != [] {
      var init, last := s[..|s| - 1], s[|s| - 1];
      var r := FirstPerDigest(init);
      FirstPerDigestDistinct(init);
      if last.digest !in Digests(init) {
        FirstPerDigestDigests(init);
        var t := r + [last];
        forall i, j | 0 <= i < j < |t|
          ensures t[i].digest != t[j].digest
        {
          if j == |r| {
            assert t[i] == r[i];
          } else {
            assert t[i] == r[i] && t[j] == r[j];
          }
        }
      }
    }
  }

  /** `FirstPerDigest` keeps exactly the snapshots that come first for
      their digest. */
  lemma {:induction false} FirstPerDigestMembers(s: seq<Items.Item>)
    ensures forall x :: x in FirstPerDigest(s) <==> exists i :: 0 <= i < |s| && s[i] == x && IsFirst(s, i)
  {
    if s != [] {
      var init, last := s[..|s| - 1], s[|s| - 1];
      var r := FirstPerDigest(init);
      assert s == init + [last];
      FirstPerDigestMembers(init);
      forall i | 0 <= i < |init|
        ensures IsFirst(s, i) <==> IsFirst(init, i)
      {
        IsFirstSnoc(init, last, i);
      }
      var lastFirst := last.digest !in Digests(init);
      assert IsFirst(s, |s| - 1) <==> lastFirst by {
        if !lastFirst {
          var k :| 0 <= k < |init| && init[k].digest == last.digest;
          assert s[k] == init[k];
        } else {
          forall j | 0 <= j < |s| - 1
            ensures s[j].digest != last.digest
          {
            assert s[j] == init[j];
          }
        }
      }
      forall x | x in FirstPerDigest(s)
        ensures exists i :: 0 <= i < |s| && s[i] == x && IsFirst(s, i)
      {
        if x in r {
          var i :| 0 <= i < |init| && init[i] == x && IsFirst(init, i);
          assert s[i] == x;
        } else {
          assert x == last && lastFirst;
        }
      }
      forall x | exists i :: 0 <= i < |s| && s[i] == x && IsFirst(s, i)
        ensures x in FirstPerDigest(s)
      {
        var i :| 0 <= i < |s| && s[i] == x && IsFirst(s, i);
        if i < |init| {
          assert init[i] == x;
        }
      }
    }
  }

  /** `FirstPerDigest` keeps exactly the first snapshot of each digest, so
      it keeps every digest and no digest twice. */
  lemma FirstPerDigestSpec(s: seq<Items.Item>)
    ensures Digests(FirstPerDigest(s)) == Digests(s)
    ensures DistinctDigests(FirstPerDigest(s))
    ensures forall x :: x in FirstPerDigest(s) <==> exists i :: 0 <= i < |s| && s[i] == x && IsFirst(s, i)
  {
    FirstPerDigestDigests(s);
    FirstPerDigestDistinct(s);
    FirstPerDigestMembers(s);
  }

  /** `retain(|item| digests.remove(&item.digest))`: a snapshot is kept
      when its digest is still in the set, and taking it removes the
      digest, so later snapshots of the same digest are dropped. */
  function TakeListed(s: seq<Items.Item>, listed: set<string>): (r: seq<Items.Item>)
    ensures |r| <= |s|
  {
    if s == [] then []
    else
      var init := s[..|s| - 1];
      var r := TakeListed(init, listed);
      if s[|s| - 1].digest in listed && s[|s| - 1].digest !in Digests(r) then r + [s[|s| - 1]] else r
  }

  /** On snapshots with distinct digests, `TakeListed` keeps exactly those
      whose digest is listed. */
  lemma {:induction false} TakeListedSpec(s: seq<Items.Item>, listed: set<string>)
    requires DistinctDigests(s)
    ensures DistinctDigests(TakeListed(s, listed))
    ensures Digests(TakeListed(s, listed)) == Digests(s) * listed
    ensures forall x :: x in TakeListed(s, listed) <==> x in s && x.digest in listed
  {
    if s != [] {
      var init := s[..|s| - 1];
      var last := s[|s| - 1];
      var r := TakeListed(init, listed);
      assert s == init + [last];
      assert DistinctDigests(init) by {
        assert forall i :: 0 <= i < |init| ==> init[i] == s[i];
      }
      TakeListedSpec(init, listed);
      DigestsSnoc(init, last);
      assert last.digest !in Digests(init) by {
        forall i | 0 <= i < |init|
          ensures init[i].digest != last.digest
        {
          assert init[i] == s[i];
        }
      }
      if last.digest in listed {
        DigestsSnoc(r, last);
        var t := r + [last];
        forall i, j | 0 <= i < j < |t|
          ensures t[i].digest != t[j].digest
        {
          if j == |r| {
            assert t[i].digest in Digests(r);
          }
        }
      }
    }
  }

  /** The values `f` takes on the elements of `s`. */
  function Image<A, B>(s: seq<A>, f: A -> B): set<B> {
    set k | 0 <= k < |s| :: f(s[k])
  }

  lemma ImageSnoc<A, B>(s: seq<A>, x: A, f: A -> B)
    ensures Image(s + [x], f) == Image(s, f) + {f(x)}
  {
    var all := s + [x];
    forall y | y in Image(all, f)
      ensures y in Image(s, f) + {f(x)}
    {
      var k :| 0 <= k < |all| && f(all[k]) == y;
      if k < |s| {
        assert all[k] == s[k];
      }
    }
    forall y | y in Image(s, f)
      ensures y in Image(all, f)
    {
      var k :| 0 <= k < |s| && f(s[k]) == y;
      assert all[k] == s[k];
    }
    assert all[|s|] == x;
  }

  /** The trimmed lines of the known-digests file. */
  function Trimmed(lines: seq<string>): set<string> {
    Image(lines, Trim)
  }

  /** The digests the known-digests file names (none without one). */
  function Known(known: KnownDigests): set<string> {
    if known.KnownLines? then Trimmed(known.lines) else {}
  }

  /** The worklist of a session: the first snapshot of each digest,
      without those whose digest is known. It holds each unknown digest of
      the snapshots exactly once, through the first snapshot of that
      digest, and nothing else. */
  function Worklist(items: seq<Items.Item>, known: set<string>): (r: seq<Items.Item>)
    ensures DistinctDigests(r)
    ensures Digests(r) == Digests(items) - known
    ensures forall x :: x in r <==>
      x.digest !in known && exists i :: 0 <= i < |items| && items[i] == x && IsFirst(items, i)
    ensures |r| <= |items|
  {
    FirstPerDigestSpec(items);
    TakeListedSpec(FirstPerDigest(items), Digests(items) - known);
    TakeListed(FirstPerDigest(items), Digests(items) - known)
  }

  /** The first `retain`: the snapshots kept and the set of digests seen. */
  method RetainFirstPerDigest(items: seq<Items.Item>) returns (kept: seq<Items.Item>, digests: set<string>)
    ensures kept == FirstPerDigest(items) && digests == Digests(items)
  {
    kept, digests := [], {};
    for i := 0 to |items|
      invariant kept == FirstPerDigest(items[..i]) && digests == Digests(items[..i])
    {
      assert items[..i + 1][..i] == items[..i];
      DigestsSnoc(items[..i], items[i]);
      assert items[..i + 1] == items[..i] + [items[i]];
      if items[i].digest !in digests {
        digests := digests + {items[i].digest};
        kept := kept + [items[i]];
      }
    }
    assert items[..|items|] == items;
  }

  /** One more line of the known-digests file forgets its trimmed text. */
  lemma ForgetOne(digests: set<string>, lines: seq<string>, k: nat)
    requires k < |lines|
    ensures digests - Trimmed(lines[..k + 1]) == (digests - Trimmed(lines[..k])) - {Trim(lines[k])}
  {
    assert lines[..k + 1] == lines[..k] + [lines[k]];
    ImageSnoc(lines[..k], lines[k], Trim);
  }

  /** Removing each trimmed line of the known-digests file from the set. */
  method ForgetKnown(digests: set<string>, lines: seq<string>) returns (rest: set<string>)
    ensures rest == digests - Trimmed(lines)
  {
    rest := digests;
    for k := 0 to |lines|
      invariant rest == digests - Trimmed(lines[..k])
    {
      ForgetOne(digests, lines, k);
      rest := rest - {Trim(lines[k])};
    }
    assert lines[..|lines|] == lines;
  }

  /** The second `retain`: snapshots taken while their digest is still in
      the set, each taking its digest out. */
  method RetainListed(items: seq<Items.Item>, digests: set<string>) returns (taken: seq<Items.Item>, rest: set<string>)
    ensures taken == TakeListed(items, digests)
    ensures rest == digests - Digests(taken)
  {
    taken, rest := [], digests;
    for i := 0 to |items|
      invariant taken == TakeListed(items[..i], digests)
      invariant rest == digests - Digests(taken)
    {
      assert items[..i + 1][..i] == items[..i];
      assert items[..i + 1][i] == items[i];
      if items[i].digest in rest {
        DigestsSnoc(taken, items[i]);
        rest := rest - {items[i].digest};
        taken := taken + [items[i]];
      }
    }
    assert items[..|items|] == items;
  }

  /** The worklist building shared by `resolve_redirects` and
      `download_items`, on the sorted snapshots: an unreadable
      known-digests file is an I/O error. */
  method BuildWorklist(items: seq<Items.Item>, known: KnownDigests) returns (r: Result<seq<Items.Item>, Error>)
    ensures known.KnownUnreadable? ==> r == Failure(IOError)
    ensures !known.KnownUnreadable? ==> r == Success(Worklist(items, Known(known)))
  {
    var kept, digests := RetainFirstPerDigest(items);
    match known {
      case KnownUnreadable =>
        return Failure(IOError);
      case KnownLines(lines) =>
        digests := ForgetKnown(digests, lines);
      case NoKnownDigests =>
        assert digests == Digests(items) - Known(known);
    }
    var work, _ := RetainListed(kept, digests);
    r := Success(work);
  }

  // --------------------------------------------------- resolving redirects

  /** The redirect resolver `session.rs` calls: URL, timestamp and
      expected digest. */
  type Resolve = (string, string, string) -> Result<Downloader.RedirectResolution, Downloader.Error>

  /** The resolution of a worklist snapshot. */
  function ResolutionOf(item: Items.Item, resolve: Resolve): Result<Downloader.RedirectResolution, Downloader.Error> {
    resolve(item.url, Items.Timestamp(item), item.digest)
  }

  /** One worklist snapshot of `resolve_redirects`: the snapshot the index
      lists last for the resolved capture, or the snapshot itself when the
      resolution fails, its content does not have the expected digest, or
      the index lists nothing for the capture. */
  function ResolveOne(item: Items.Item, resolve: Resolve, search: Search): (r: Result<Items.Item, Items.Item>)
    ensures r.Failure? ==> r.error == item
    ensures r.Success? ==> ResolutionOf(item, resolve).Success? && ResolutionOf(item, resolve).value.validDigest
  {
    match ResolutionOf(item, resolve)
    case Failure(_) => Failure(item)
    case Success(resolution) =>
      if !resolution.validDigest then Failure(item)
      else
        match search(resolution.url, Some(resolution.timestamp))
        case Failure(_) => Failure(item)
        case Success(listed) => if listed == [] then Failure(item) else Success(listed[|listed| - 1])
  }

  /** The extra snapshot of a resolved one is listed by the index for the
      resolved capture. */
  lemma ResolvedListed(item: Items.Item, resolve: Resolve, search: Search)
    requires ResolveOne(item, resolve, search).Success?
    ensures var resolution := ResolutionOf(item, resolve).value;
      && search(resolution.url, Some(resolution.timestamp)).Success?
      && ResolveOne(item, resolve, search).value in search(resolution.url, Some(resolution.timestamp)).value
  {
  }

  /** The outcomes of the worklist, one per snapshot, in worklist order. */
  function ResolveAll(work: seq<Items.Item>, resolve: Resolve, search: Search): (outcomes: seq<Result<Items.Item, Items.Item>>)
    ensures |outcomes| == |work|
  {
    if work == [] then []
    else ResolveAll(work[..|work| - 1], resolve, search) + [ResolveOne(work[|work| - 1], resolve, search)]
  }

  /** The gzip file a resolved snapshot's content is saved in. */
  function ResolvedFile(item: Items.Item, resolve: Resolve): GzFile
    requires ResolutionOf(item, resolve).Success?
  {
    GzFile(Items.MakeFilename(item), ResolutionOf(item, resolve).value.content)
  }

  /** `data/` after the worklist: each resolved snapshot's content saved
      under its expected digest, one snapshot after the other. */
  function SaveResolved(files: map<string, GzFile>, work: seq<Items.Item>, resolve: Resolve, search: Search)
    : map<string, GzFile>
  {
    if work == [] then files
    else
      var last := work[|work| - 1];
      var saved := SaveResolved(files, work[..|work| - 1], resolve, search);
      if ResolveOne(last, resolve, search).Success? then saved[last.digest := ResolvedFile(last, resolve)] else saved
  }

  /** Resolving one more worklist snapshot appends its outcome and, when it
      resolved, saves its content under its digest. */
  lemma ResolveSnoc(files: map<string, GzFile>, work: seq<Items.Item>, i: nat, resolve: Resolve, search: Search)
    requires i < |work|
    ensures ResolveAll(work[..i + 1], resolve, search) == ResolveAll(work[..i], resolve, search) + [ResolveOne(work[i], resolve, search)]
    ensures var saved := SaveResolved(files, work[..i], resolve, search);
      SaveResolved(files, work[..i + 1], resolve, search)
      == if ResolveOne(work[i], resolve, search).Success? then saved[work[i].digest := ResolvedFile(work[i], resolve)] else saved
  {
    assert work[..i + 1][..i] == work[..i];
  }

  /** Whether some worklist snapshot of digest `d` was resolved. */
  predicate ResolvedFor(work: seq<Items.Item>, d: string, resolve: Resolve, search: Search) {
    exists i :: 0 <= i < |work| && work[i].digest == d && ResolveOne(work[i], resolve, search).Success?
  }

  /** On a worklist of distinct digests, every resolved snapshot's content
      ends up in `data/` under its digest. */
  lemma SaveResolvedSaves(files: map<string, GzFile>, work: seq<Items.Item>, resolve: Resolve, search: Search)
    requires DistinctDigests(work)
    ensures forall i :: 0 <= i < |work| && ResolveOne(work[i], resolve, search).Success? ==>
      work[i].digest in SaveResolved(files, work, resolve, search)
      && SaveResolved(files, work, resolve, search)[work[i].digest] == ResolvedFile(work[i], resolve)
  {
    forall i | 0 <= i < |work| && ResolveOne(work[i], resolve, search).Success?
      ensures work[i].digest in SaveResolved(files, work, resolve, search)
      ensures SaveResolved(files, work, resolve, search)[work[i].digest] == ResolvedFile(work[i], resolve)
    {
      SavedAt(files, work, resolve, search, i);
    }
  }

  /** `SaveResolvedSaves` for the snapshot at `i`. */
  lemma {:induction false} SavedAt(files: map<string, GzFile>, work: seq<Items.Item>, resolve: Resolve, search: Search, i: nat)
    requires DistinctDigests(work) && i < |work| && ResolveOne(work[i], resolve, search).Success?
    ensures work[i].digest in SaveResolved(files, work, resolve, search)
    ensures SaveResolved(files, work, resolve, search)[work[i].digest] == ResolvedFile(work[i], resolve)
  {
    var init, last := work[..|work| - 1], work[|work| - 1];
    if i < |init| {
      assert init[i] == work[i] && work[i].digest != last.digest;
      assert DistinctDigests(init) by {
        assert forall j :: 0 <= j < |init| ==> init[j] == work[j];
      }
      SavedAt(files, init, resolve, search, i);
      SavedKept(files, work, resolve, search, work[i].digest);
    } else {
      assert work[i] == last;
      SavedLast(files, work, resolve, search);
    }
  }

  /** A resolved last snapshot of the worklist has its file saved. */
  lemma SavedLast(files: map<string, GzFile>, work: seq<Items.Item>, resolve: Resolve, search: Search)
    requires work != [] && ResolveOne(work[|work| - 1], resolve, search).Success?
    ensures SaveResolved(files, work, resolve, search)
         == SaveResolved(files, work[..|work| - 1], resolve, search)[work[|work| - 1].digest := ResolvedFile(work[|work| - 1], resolve)]
  {
  }

  /** The last snapshot of the worklist leaves the other digests' files
      as they were. */
  lemma SavedKept(files: map<string, GzFile>, work: seq<Items.Item>, resolve: Resolve, search: Search, d: string)
    requires work != [] && work[|work| - 1].digest != d
    ensures var saved := SaveResolved(files, work[..|work| - 1], resolve, search);
      && (d in SaveResolved(files, work, resolve, search) <==> d in saved)
      && (d in saved ==> SaveResolved(files, work, resolve, search)[d] == saved[d])
  {
  }

  /** No other file of `data/` is touched. */
  lemma {:induction false} SaveResolvedKeeps(files: map<string, GzFile>, work: seq<Items.Item>, resolve: Resolve,
                                             search: Search, d: string)
    requires !ResolvedFor(work, d, resolve, search)
    ensures d in SaveResolved(files, work, resolve, search) <==> d in files
    ensures d in files ==> SaveResolved(files, work, resolve, search)[d] == files[d]
  {
    if work != [] {
      var init, last := work[..|work| - 1], work[|work| - 1];
      assert !ResolvedFor(init, d, resolve, search) by {
        assert forall i :: 0 <= i < |init| ==> init[i] == work[i];
      }
      SaveResolvedKeeps(files, init, resolve, search, d);
      assert ResolveOne(last, resolve, search).Success? ==> last.digest != d by {
        assert work[|work| - 1] == last;
      }
    }
  }

  /** The two logs of `resolve_redirects`: a resolved snapshot's extra one
      to the extras log, an unresolved snapshot to the redirect errors. */
  method SplitOutcomes(outcomes: seq<Result<Items.Item, Items.Item>>) returns (extras: seq<Record>, errors: seq<Record>)
    ensures extras == Records(Successes(outcomes)) && errors == Records(Failures(outcomes))
  {
    extras, errors := [], [];
    for i := 0 to |outcomes|
      invariant extras == Records(Successes(outcomes[..i])) && errors == Records(Failures(outcomes[..i]))
    {
      assert outcomes[..i + 1][..i] == outcomes[..i] && outcomes[..i + 1][i] == outcomes[i];
      match outcomes[i] {
        case Success(item) =>
          RecordsSnoc(Successes(outcomes[..i]), item);
          extras := extras + [Items.ToRecord(item)];
        case Failure(item) =>
          RecordsSnoc(Failures(outcomes[..i]), item);
          errors := errors + [Items.ToRecord(item)];
      }
    }
    assert outcomes[..|outcomes|] == outcomes;
  }

  /** Each worklist snapshot is written to exactly one of the two logs. */
  lemma ResolutionLogged(work: seq<Items.Item>, resolve: Resolve, search: Search)
    ensures |Records(Successes(ResolveAll(work, resolve, search)))|
          + |Records(Failures(ResolveAll(work, resolve, search)))| == |work|
  {
    SuccessesAndFailures(ResolveAll(work, resolve, search));
  }

  // ------------------------------------------------------ downloading items

  /** The item downloader `session.rs` calls. */
  type Download = Items.Item -> Result<seq<U8>, ClientDownloader.Error>

  /** `compute_digest` over downloaded bytes: reading them cannot fail. */
  function ContentDigest(content: seq<U8>, sha1: seq<U8> -> Digest.Sha1Value): string {
    Digest.BytesToString(sha1(content))
  }

  /** A download's outcome: `Ok(None)` when the content has the expected
      digest, `Ok(Some((expected, computed)))` when it has another, and the
      snapshot itself when the download fails. */
  function DownloadOne(item: Items.Item, download: Download, sha1: seq<U8> -> Digest.Sha1Value)
    : (r: Result<Option<(string, string)>, Items.Item>)
    ensures r.Failure? <==> download(item).Failure?
    ensures r.Failure? ==> r.error == item
    ensures r == Success(None) <==> download(item).Success? && ContentDigest(download(item).value, sha1) == item.digest
    ensures r.Success? && r.value.Some? ==>
      r.value.value == (item.digest, ContentDigest(download(item).value, sha1)) && r.value.value.1 != item.digest
  {
    match download(item)
    case Failure(_) => Failure(item)
    case Success(content) =>
      var computed := ContentDigest(content, sha1);
      if computed == item.digest then Success(None) else Success(Some((item.digest, computed)))
  }

  function DownloadAll(work: seq<Items.Item>, download: Download, sha1: seq<U8> -> Digest.Sha1Value)
    : (results: seq<Result<Option<(string, string)>, Items.Item>>)
    ensures |results| == |work|
  {
    if work == [] then []
    else DownloadAll(work[..|work| - 1], download, sha1) + [DownloadOne(work[|work| - 1], download, sha1)]
  }

  /** `data/` and `invalid/` after the downloads: content with the
      expected digest saved under that digest in `data/`, other content
      under its own digest in `invalid/`. Downloads only add files. */
  function SaveDownloads(data: map<string, GzFile>, invalid: map<string, GzFile>, work: seq<Items.Item>,
                         download: Download, sha1: seq<U8> -> Digest.Sha1Value)
    : (r: (map<string, GzFile>, map<string, GzFile>))
    ensures data.Keys <= r.0.Keys && invalid.Keys <= r.1.Keys
  {
    if work == [] then (data, invalid)
    else
      var last := work[|work| - 1];
      var (d, v) := SaveDownloads(data, invalid, work[..|work| - 1], download, sha1);
      match download(last)
      case Failure(_) => (d, v)
      case Success(content) =>
        var computed := ContentDigest(content, sha1);
        var file := GzFile(Items.MakeFilename(last), content);
        if computed == last.digest then (d[last.digest := file], v) else (d, v[computed := file])
  }

  /** Downloading one snapshot: a failure saves nothing, content with the
      expected digest goes to `data/`, other content to `invalid/`. */
  lemma SaveOne(data: map<string, GzFile>, invalid: map<string, GzFile>, item: Items.Item,
                download: Download, sha1: seq<U8> -> Digest.Sha1Value)
    ensures var saved := SaveDownloads(data, invalid, [item], download, sha1);
      && (download(item).Failure? ==> saved == (data, invalid))
      && (download(item).Success? ==>
            var content := download(item).value;
            var computed := ContentDigest(content, sha1);
            var file := GzFile(Items.MakeFilename(item), content);
            saved == if computed == item.digest then (data[item.digest := file], invalid)
                     else (data, invalid[computed := file]))
  {
    assert [item][..0] == [];
  }

  /** Every file of `data/` and `invalid/` after the downloads is either
      one that was there or holds content whose digest is its name. */
  lemma {:induction false} DownloadsHashed(data: map<string, GzFile>, invalid: map<string, GzFile>, work: seq<Items.Item>,
                                           download: Download, sha1: seq<U8> -> Digest.Sha1Value)
    ensures var (d, v) := SaveDownloads(data, invalid, work, download, sha1);
      && (forall k :: k in d ==> (k in data && d[k] == data[k]) || ContentDigest(d[k].content, sha1) == k)
      && (forall k :: k in v ==> (k in invalid && v[k] == invalid[k]) || ContentDigest(v[k].content, sha1) == k)
  {
    if work != [] {
      DownloadsHashed(data, invalid, work[..|work| - 1], download, sha1);
      SaveLastHashed(data, invalid, work, download, sha1);
    }
  }

  /** The last download adds at most one file, named by the digest of its
      content. */
  lemma SaveLastHashed(data: map<string, GzFile>, invalid: map<string, GzFile>, work: seq<Items.Item>,
                       download: Download, sha1: seq<U8> -> Digest.Sha1Value)
    requires work != []
    ensures var (d0, v0) := SaveDownloads(data, invalid, work[..|work| - 1], download, sha1);
      var (d, v) := SaveDownloads(data, invalid, work, download, sha1);
      && (forall k :: k in d ==> (k in d0 && d[k] == d0[k]) || ContentDigest(d[k].content, sha1) == k)
      && (forall k :: k in v ==> (k in v0 && v[k] == v0[k]) || ContentDigest(v[k].content, sha1) == k)
  {
    var last := work[|work| - 1];
    var (d0, v0) := SaveDownloads(data, invalid, work[..|work| - 1], download, sha1);
    var (d, v) := SaveDownloads(data, invalid, work, download, sha1);
    match download(last)
    case Failure(_) =>
      assert d == d0 && v == v0;
    case Success(content) =>
      var computed := ContentDigest(content, sha1);
      var file := GzFile(Items.MakeFilename(last), content);
      if computed == last.digest {
        assert d == d0[last.digest := file] && v == v0;
      } else {
        assert d == d0 && v == v0[computed := file];
      }
  }

  /** The outcome of downloading `item` is on disk: a verified download
      under its digest in `data/`, a mismatched one under the digest
      computed in `invalid/`. */
  predicate Routed(item: Items.Item, d: map<string, GzFile>, v: map<string, GzFile>,
                   download: Download, sha1: seq<U8> -> Digest.Sha1Value)
  {
    var o := DownloadOne(item, download, sha1);
    && (o == Success(None) ==> item.digest in d)
    && (o.Success? && o.value.Some? ==> o.value.value.1 in v)
  }

  /** A saved outcome stays saved when files are only added. */
  lemma RoutedGrows(item: Items.Item, d0: map<string, GzFile>, v0: map<string, GzFile>,
                    d: map<string, GzFile>, v: map<string, GzFile>,
                    download: Download, sha1: seq<U8> -> Digest.Sha1Value)
    requires Routed(item, d0, v0, download, sha1)
    requires d0.Keys <= d.Keys && v0.Keys <= v.Keys
    ensures Routed(item, d, v, download, sha1)
  {
  }

  /** The last download keeps every file and saves its own outcome. */
  lemma SaveLastRouted(data: map<string, GzFile>, invalid: map<string, GzFile>, work: seq<Items.Item>,
                       download: Download, sha1: seq<U8> -> Digest.Sha1Value)
    requires work != []
    ensures var (d0, v0) := SaveDownloads(data, invalid, work[..|work| - 1], download, sha1);
      var (d, v) := SaveDownloads(data, invalid, work, download, sha1);
      d0.Keys <= d.Keys && v0.Keys <= v.Keys && Routed(work[|work| - 1], d, v, download, sha1)
  {
  }

  /** A verified download is saved in `data/` under its digest, and a
      mismatched one in `invalid/` under the digest computed. */
  lemma DownloadsRouted(data: map<string, GzFile>, invalid: map<string, GzFile>, work: seq<Items.Item>,
                        download: Download, sha1: seq<U8> -> Digest.Sha1Value)
    ensures var (d, v) := SaveDownloads(data, invalid, work, download, sha1);
      forall i :: 0 <= i < |work| ==> Routed(work[i], d, v, download, sha1)
  {
    forall i | 0 <= i < |work|
      ensures var after := SaveDownloads(data, invalid, work, download, sha1);
        Routed(work[i], after.0, after.1, download, sha1)
    {
      DownloadRouted(data, invalid, work, i, download, sha1);
    }
  }

  /** The download at position `i` is saved, and stays saved through the
      downloads after it. */
  lemma {:induction false} DownloadRouted(data: map<string, GzFile>, invalid: map<string, GzFile>, work: seq<Items.Item>,
                                          i: nat, download: Download, sha1: seq<U8> -> Digest.Sha1Value)
    requires i < |work|
    ensures var after := SaveDownloads(data, invalid, work, download, sha1);
      Routed(work[i], after.0, after.1, download, sha1)
    decreases |work|
  {
    SaveLastRouted(data, invalid, work, download, sha1);
    if i < |work| - 1 {
      var init := work[..|work| - 1];
      DownloadRouted(data, invalid, init, i, download, sha1);
      var before := SaveDownloads(data, invalid, init, download, sha1);
      var after := SaveDownloads(data, invalid, work, download, sha1);
      assert init[i] == work[i];
      RoutedGrows(work[i], before.0, before.1, after.0, after.1, download, sha1);
    }
  }

  /** The number of verified downloads. */
  function Verified(results: seq<Result<Option<(string, string)>, Items.Item>>): nat {
    if results == [] then 0
    else Verified(results[..|results| - 1]) + (if results[|results| - 1] == Success(None) then 1 else 0)
  }

  /** The (expected, computed) digest pairs of mismatched downloads. */
  function Mismatches(results: seq<Result<Option<(string, string)>, Items.Item>>): seq<(string, string)> {
    if results == [] then []
    else
      var init := Mismatches(results[..|results| - 1]);
      match results[|results| - 1]
      case Success(Some(pair)) => init + [pair]
      case _ => init
  }

  /** Every download outcome is counted once: verified, mismatched or
      failed. */
  lemma {:induction false} OutcomesCounted(results: seq<Result<Option<(string, string)>, Items.Item>>)
    ensures Verified(results) + |Mismatches(results)| + |Failures(results)| == |results|
  {
    if results != [] {
      OutcomesCounted(results[..|results| - 1]);
    }
  }

  /** The records of the invalid log: expected, then computed digest. */
  function PairRecords(pairs: seq<(string, string)>): (records: seq<Record>)
    ensures |records| == |pairs|
    ensures forall i :: 0 <= i < |pairs| ==> records[i] == [pairs[i].0, pairs[i].1]
  {
    seq(|pairs|, i requires 0 <= i < |pairs| => [pairs[i].0, pairs[i].1])
  }

  lemma PairRecordsSnoc(pairs: seq<(string, string)>, pair: (string, string))
    ensures PairRecords(pairs + [pair]) == PairRecords(pairs) + [[pair.0, pair.1]]
  {
    var r, s := PairRecords(pairs + [pair]), PairRecords(pairs) + [[pair.0, pair.1]];
    assert forall i :: 0 <= i < |r| ==> r[i] == s[i];
  }

  /** One more outcome: counted under its kind and, when it is a failure
      or a mismatch, appended to its log. */
  lemma TallyStep(results: seq<Result<Option<(string, string)>, Items.Item>>, i: nat)
    requires i < |results|
    ensures var r, prefix := results[i], results[..i];
      && Verified(results[..i + 1]) == Verified(prefix) + (if r == Success(None) then 1 else 0)
      && Mismatches(results[..i + 1]) == Mismatches(prefix) + (if r.Success? && r.value.Some? then [r.value.value] else [])
      && Failures(results[..i + 1]) == Failures(prefix) + (if r.Failure? then [r.error] else [])
  {
    assert results[..i + 1][..i] == results[..i];
  }

  /** One outcome counted under its kind and, when it is a failure or a
      mismatch, appended to its log. */
  method CountOne(r: Result<Option<(string, string)>, Items.Item>,
                  success: nat, invalid: nat, error: nat, errorLog: seq<Record>, invalidLog: seq<Record>,
                  ghost failed: seq<Items.Item>, ghost mismatched: seq<(string, string)>)
    returns (success': nat, invalid': nat, error': nat, errorLog': seq<Record>, invalidLog': seq<Record>)
    requires errorLog == Records(failed) && invalidLog == PairRecords(mismatched)
    ensures success' == success + (if r == Success(None) then 1 else 0)
    ensures invalid' == invalid + (if r.Success? && r.value.Some? then 1 else 0)
    ensures error' == error + (if r.Failure? then 1 else 0)
    ensures errorLog' == Records(failed + (if r.Failure? then [r.error] else []))
    ensures invalidLog' == PairRecords(mismatched + (if r.Success? && r.value.Some? then [r.value.value] else []))
  {
    success', invalid', error', errorLog', invalidLog' := success, invalid, error, errorLog, invalidLog;
    match r {
      case Success(None) =>
        success' := success + 1;
      case Success(Some(pair)) =>
        invalid' := invalid + 1;
        PairRecordsSnoc(mismatched, pair);
        invalidLog' := invalidLog + [[pair.0, pair.1]];
      case Failure(item) =>
        error' := error + 1;
        RecordsSnoc(failed, item);
        errorLog' := errorLog + [Items.ToRecord(item)];
    }
  }

  /** The counting loop of `download_items`: the three counters and the
      error and invalid logs. */
  method Tally(results: seq<Result<Option<(string, string)>, Items.Item>>)
    returns (success: nat, invalid: nat, error: nat, errorLog: seq<Record>, invalidLog: seq<Record>)
    ensures success == Verified(results) && invalid == |Mismatches(results)| && error == |Failures(results)|
    ensures errorLog == Records(Failures(results)) && invalidLog == PairRecords(Mismatches(results))
  {
    success, invalid, error, errorLog, invalidLog := 0, 0, 0, [], [];
    for i := 0 to |results|
      invariant success == Verified(results[..i]) && invalid == |Mismatches(results[..i])|
      invariant error == |Failures(results[..i])|
      invariant errorLog == Records(Failures(results[..i])) && invalidLog == PairRecords(Mismatches(results[..i]))
    {
      TallyStep(results, i);
      ghost var prefix := results[..i];
      success, invalid, error, errorLog, invalidLog :=
        CountOne(results[i], success, invalid, error, errorLog, invalidLog, Failures(prefix), Mismatches(prefix));
    }
    assert results[..|results|] == results;
  }

  // ------------------------------------------------------------- sessions

  /** The logs of a session directory, each `None` while it does not
      exist: `queries.txt`, `blocked.txt`, `originals.csv`,
      `redirects.csv`, `extras.csv`, `errors/redirects.csv`,
      `errors/items.csv` and `errors/invalid.csv`. */
  datatype Logs = Logs(
    queryLog: Option<string>,
    blockedLog: Option<string>,
    originalsLog: Option<seq<Record>>,
    redirectsLog: Option<seq<Record>>,
    extrasLog: Option<seq<Record>>,
    redirectErrorLog: Option<seq<Record>>,
    itemErrorLog: Option<seq<Record>>,
    invalidLog: Option<seq<Record>>)

  const NO_LOGS: Logs := Logs(None, None, None, None, None, None, None, None)

  /** The worklist of `resolve_redirects`: the redirect snapshots read
      back, sorted, and filtered. */
  function RedirectWork(logs: Logs, known: KnownDigests): Result<seq<Items.Item>, Error> {
    if logs.redirectsLog.None? then Failure(IOError)
    else
      match ReadCsv(logs.redirectsLog.value)
      case Failure(e) => Failure(e)
      case Success(items) =>
        if known.KnownUnreadable? then Failure(IOError)
        else Success(Worklist(Sorting.Sort(items, Items.ItemLt), Known(known)))
  }

  /** The total and the worklist of `download_items`: the originals and
      extras read back, sorted, and filtered. */
  function DownloadWork(logs: Logs, known: KnownDigests): Result<(nat, seq<Items.Item>), Error> {
    if logs.originalsLog.None? then Failure(IOError)
    else
      match ReadCsv(logs.originalsLog.value)
      case Failure(e) => Failure(e)
      case Success(originals) =>
        if logs.extrasLog.None? then Failure(IOError)
        else
          match ReadCsv(logs.extrasLog.value)
          case Failure(e) => Failure(e)
          case Success(extras) =>
            if known.KnownUnreadable? then Failure(IOError)
            else
              var items := Sorting.Sort(originals + extras, Items.ItemLt);
              Success((|items|, Worklist(items, Known(known))))
  }

  /** The total counts every original and extra snapshot, and the worklist
      is no longer than it. */
  lemma DownloadWorkTotal(logs: Logs, known: KnownDigests)
    requires DownloadWork(logs, known).Success?
    ensures var (total, work) := DownloadWork(logs, known).value;
      && total == |ReadCsv(logs.originalsLog.value).value| + |ReadCsv(logs.extrasLog.value).value|
      && |work| <= total && DistinctDigests(work)
  {
  }

  /** A session: its directory's name, the known-digests file, and the
      files of the directory (the logs, and the gzip files of `data/` and
      `invalid/` by digest). */
  class Session {
    const base: string
    const knownDigests: KnownDigests
    var logs: Logs
    var data: map<string, GzFile>
    var invalid: map<string, GzFile>

    /** `Session::new` over a directory holding `logs`, `data` and
        `invalid`. */
    constructor (base: string, known: KnownDigests, logs: Logs, data: map<string, GzFile>, invalid: map<string, GzFile>)
      ensures this.base == base && knownDigests == known
      ensures this.logs == logs && this.data == data && this.invalid == invalid
    {
      this.base := base;
      knownDigests := known;
      this.logs := logs;
      this.data := data;
      this.invalid := invalid;
    }

    /** `Session::new_timestamped`: the directory named after the time in
        the `%Y%m%d%H%M%S` layout, not yet holding anything. */
    constructor Timestamped(now: Util.DateTime, known: KnownDigests)
      ensures base == Util.ToTimestamp(now) && knownDigests == known
      ensures logs == NO_LOGS && data == map[] && invalid == map[]
    {
      base := Util.ToTimestamp(now);
      knownDigests := known;
      logs := NO_LOGS;
      data := map[];
      invalid := map[];
    }

    /** `save_cdx_results`: the query log written first; then, unless a
        search fails other than by a blocked query, the blocked queries
        sorted (when there are any) and the found snapshots, sorted and
        de-duplicated, split into the two item logs. */
    method SaveCdxResults(queries: seq<string>, search: Search) returns (r: Result<(), Error>)
      modifies this
      ensures data == old(data) && invalid == old(invalid)
      ensures var results := SearchResults(queries, search);
        && (results.Failure? ==> r == Failure(results.error) && logs == old(logs).(queryLog := Some(LinesText(queries))))
        && (results.Success? ==>
              && r == Success(())
              && var blocked := Failures(results.value);
                 var found := Collected(Flatten(Successes(results.value)));
                 logs == old(logs).(queryLog := Some(LinesText(queries)),
                                    blockedLog := if blocked == [] then old(logs).blockedLog
                                                  else Some(LinesText(Sorting.Sort(blocked, Sorting.StrLt))),
                                    originalsLog := Some(Records(Originals(found))),
                                    redirectsLog := Some(Records(Redirects(found)))))
    {
      logs := logs.(queryLog := Some(LinesText(queries)));
      var results := SearchResults(queries, search);
      if results.Failure? {
        return Failure(results.error);
      }
      var blocked, found := Gather(results.value);
      LogBlocked(blocked);
      LogFound(found);
      r := Success(());
    }

    /** The blocked queries logged, sorted, when there are any. */
    method LogBlocked(blocked: seq<string>)
      modifies this
      ensures data == old(data) && invalid == old(invalid)
      ensures logs == old(logs).(blockedLog := if blocked == [] then old(logs).blockedLog
                                               else Some(LinesText(Sorting.Sort(blocked, Sorting.StrLt))))
    {
      if blocked != [] {
        var sorted := Sorting.Sort(blocked, Sorting.StrLt);
        logs := logs.(blockedLog := Some(LinesText(sorted)));
      }
    }

    /** The found snapshots, sorted and de-duplicated, split into the two
        item logs. */
    method LogFound(found: seq<Items.Item>)
      modifies this
      ensures data == old(data) && invalid == old(invalid)
      ensures var items := Collected(found);
        logs == old(logs).(originalsLog := Some(Records(Originals(items))),
                           redirectsLog := Some(Records(Redirects(items))))
    {
      var items := Collected(found);
      var originals, redirects := WriteItemLogs(items);
      logs := logs.(originalsLog := Some(originals), redirectsLog := Some(redirects));
    }

    /** One worklist snapshot resolved; a resolved snapshot's content is
        saved in `data/` under its digest. */
    method ResolveItem(item: Items.Item, resolve: Resolve, search: Search) returns (outcome: Result<Items.Item, Items.Item>)
      modifies this
      ensures outcome == ResolveOne(item, resolve, search)
      ensures outcome.Success? ==> data == old(data)[item.digest := ResolvedFile(item, resolve)]
      ensures outcome.Failure? ==> data == old(data)
      ensures logs == old(logs) && invalid == old(invalid)
    {
      var resolved := resolve(item.url, Items.Timestamp(item), item.digest);
      if resolved.Failure? {
        return Failure(item);
      }
      var resolution := resolved.value;
      if !resolution.validDigest {
        return Failure(item);
      }
      var listed := search(resolution.url, Some(resolution.timestamp));
      if listed.Failure? || listed.value == [] {
        return Failure(item);
      }
      var actual := listed.value[|listed.value| - 1];
      data := data[item.digest := GzFile(Items.MakeFilename(item), resolution.content)];
      outcome := Success(actual);
    }

    /** The worklist resolved in order. */
    method ResolveWork(work: seq<Items.Item>, resolve: Resolve, search: Search)
      returns (outcomes: seq<Result<Items.Item, Items.Item>>)
      modifies this
      ensures outcomes == ResolveAll(work, resolve, search)
      ensures data == SaveResolved(old(data), work, resolve, search)
      ensures logs == old(logs) && invalid == old(invalid)
    {
      outcomes := [];
      for i := 0 to |work|
        invariant outcomes == ResolveAll(work[..i], resolve, search)
        invariant data == SaveResolved(old(data), work[..i], resolve, search)
        invariant logs == old(logs) && invalid == old(invalid)
      {
        ResolveSnoc(old(data), work, i, resolve, search);
        var outcome := ResolveItem(work[i], resolve, search);
        outcomes := outcomes + [outcome];
      }
      assert work[..|work|] == work;
    }

    /** `resolve_redirects`: the redirect log read back, the worklist
        resolved, and both its logs written. */
    method ResolveRedirects(resolve: Resolve, search: Search) returns (r: Result<(), Error>)
      modifies this
      ensures invalid == old(invalid)
      ensures var work := RedirectWork(old(logs), knownDigests);
        && (work.Failure? ==> r == Failure(work.error) && logs == old(logs) && data == old(data))
        && (work.Success? ==>
              && r == Success(())
              && data == SaveResolved(old(data), work.value, resolve, search)
              && var outcomes := ResolveAll(work.value, resolve, search);
                 logs == old(logs).(extrasLog := Some(Records(Successes(outcomes))),
                                    redirectErrorLog := Some(Records(Failures(outcomes)))))
    {
      if logs.redirectsLog.None? {
        return Failure(IOError);
      }
      var read := ReadCsv(logs.redirectsLog.value);
      if read.Failure? {
        return Failure(read.error);
      }
      var items := Sorting.Sort(read.value, Items.ItemLt);
      var built := BuildWorklist(items, knownDigests);
      if built.Failure? {
        return Failure(built.error);
      }
      var outcomes := ResolveWork(built.value, resolve, search);
      var extras, errors := SplitOutcomes(outcomes);
      logs := logs.(extrasLog := Some(extras), redirectErrorLog := Some(errors));
      r := Success(());
    }

    /** One worklist snapshot downloaded and saved by the digest of its
        content. */
    method DownloadItem(item: Items.Item, download: Download, sha1: seq<U8> -> Digest.Sha1Value)
      returns (result: Result<Option<(string, string)>, Items.Item>)
      modifies this
      ensures result == DownloadOne(item, download, sha1)
      ensures (data, invalid) == SaveDownloads(old(data), old(invalid), [item], download, sha1)
      ensures logs == old(logs)
    {
      SaveOne(data, invalid, item, download, sha1);
      var fetched := download(item);
      if fetched.Failure? {
        return Failure(item);
      }
      var content := fetched.value;
      var expected := item.digest;
      var computed := ClientDigest.ComputeDigest([Digest.Data(content)], sha1);
      Downloader.SliceDigest(content, sha1);
      assert computed == Success(ContentDigest(content, sha1));
      if computed.value == expected {
        data := data[expected := GzFile(Items.MakeFilename(item), content)];
        result := Success(None);
      } else {
        invalid := invalid[computed.value := GzFile(Items.MakeFilename(item), content)];
        result := Success(Some((expected, computed.value)));
      }
    }

    /** The worklist downloaded in order. */
    method DownloadWorklist(work: seq<Items.Item>, download: Download, sha1: seq<U8> -> Digest.Sha1Value)
      returns (results: seq<Result<Option<(string, string)>, Items.Item>>)
      modifies this
      ensures results == DownloadAll(work, download, sha1)
      ensures (data, invalid) == SaveDownloads(old(data), old(invalid), work, download, sha1)
      ensures logs == old(logs)
    {
      results := [];
      for i := 0 to |work|
        invariant results == DownloadAll(work[..i], download, sha1)
        invariant (data, invalid) == SaveDownloads(old(data), old(invalid), work[..i], download, sha1)
        invariant logs == old(logs)
      {
        assert work[..i + 1][..i] == work[..i] && work[..i + 1][i] == work[i];
        var result := DownloadItem(work[i], download, sha1);
        results := results + [result];
      }
      assert work[..|work|] == work;
    }

    /** `download_items`: the originals and extras read back, the worklist
        downloaded, the error and invalid logs written, and the counts of
        verified, invalid, skipped and failed snapshots returned. */
    method DownloadItems(download: Download, sha1: seq<U8> -> Digest.Sha1Value)
      returns (r: Result<(nat, nat, nat, nat), Error>)
      modifies this
      ensures var work := DownloadWork(old(logs), knownDigests);
        && (work.Failure? ==> r == Failure(work.error) && logs == old(logs) && data == old(data) && invalid == old(invalid))
        && (work.Success? ==>
              var (total, items) := work.value;
              var results := DownloadAll(items, download, sha1);
              && r.Success?
              && r.value.0 == Verified(results) && r.value.1 == |Mismatches(results)| && r.value.3 == |Failures(results)|
              && r.value.0 + r.value.1 + r.value.3 == |items|
              && r.value.2 == total - |items|
              && (data, invalid) == SaveDownloads(old(data), old(invalid), items, download, sha1)
              && logs == old(logs).(itemErrorLog := Some(Records(Failures(results))),
                                    invalidLog := Some(PairRecords(Mismatches(results)))))
    {
      if logs.originalsLog.None? {
        return Failure(IOError);
      }
      var originals := ReadCsv(logs.originalsLog.value);
      if originals.Failure? {
        return Failure(originals.error);
      }
      if logs.extrasLog.None? {
        return Failure(IOError);
      }
      var extras := ReadCsv(logs.extrasLog.value);
      if extras.Failure? {
        return Failure(extras.error);
      }
      var items := Sorting.Sort(originals.value + extras.value, Items.ItemLt);
      var total := |items|;
      var built := BuildWorklist(items, knownDigests);
      if built.Failure? {
        return Failure(built.error);
      }
      var counts := DownloadAndLog(built.value, total, download, sha1);
      r := Success(counts);
    }

    /** The second half of `download_items`: the worklist downloaded, the
        outcomes counted, and the error and invalid logs written; the
        snapshots of the `total` read back that are not in the worklist
        are counted as skipped. */
    method DownloadAndLog(work: seq<Items.Item>, total: nat, download: Download, sha1: seq<U8> -> Digest.Sha1Value)
      returns (counts: (nat, nat, nat, nat))
      requires |work| <= total
      modifies this
      ensures var results := DownloadAll(work, download, sha1);
        && counts.0 == Verified(results) && counts.1 == |Mismatches(results)| && counts.3 == |Failures(results)|
        && counts.0 + counts.1 + counts.3 == |work|
        && counts.2 == total - |work|
        && (data, invalid) == SaveDownloads(old(data), old(invalid), work, download, sha1)
        && logs == old(logs).(itemErrorLog := Some(Records(Failures(results))),
                              invalidLog := Some(PairRecords(Mismatches(results))))
    {
      var results := DownloadWorklist(work, download, sha1);
      var success, invalidCount, error, errorLog, invalidLog := Tally(results);
      OutcomesCounted(results);
      logs := logs.(itemErrorLog := Some(errorLog), invalidLog := Some(invalidLog));
      counts := (success, invalidCount, total - success - error - invalidCount, error);
    }
  }
}
