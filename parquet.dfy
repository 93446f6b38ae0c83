/**
 * The Parquet export (`src/parquet.rs`): the snapshot rows of a directory
 * of CSV files are bucketed by the first symbol of their digest (one extra
 * bucket, `_`, takes every row whose digest is not valid), each bucket is
 * sorted and reduced to one row per (URL, capture time, digest), and each
 * bucket becomes one row group of the file.
 */
module Parquet {
  import opened Wrappers
  import opened Text
  import Util
  import Sorting
  import Items
  import Digest
  import Base32

  type Item = Items.Item

  datatype Error =
    | Io
    | ParquetError
    | InvalidColumns
    | ItemParsingError(error: Items.Error)

  // ------------------------------------------------------------- buckets

  /** The 32 digest symbols in ascending order, then `_` for the rows whose
      digest is not valid. */
  const PREFIXES: seq<char> := Digest.DIGEST_CHARS + ['_']

  lemma PrefixesLayout()
    ensures |PREFIXES| == 33 && PREFIXES[32] == '_'
    ensures forall i, j :: 0 <= i < j < |PREFIXES| ==> PREFIXES[i] != PREFIXES[j]
  {
    Digest.DigestCharsAreTheAlphabet();
    forall i, j | 0 <= i < j < |PREFIXES|
      ensures PREFIXES[i] != PREFIXES[j]
    {
      assert PREFIXES[i] == Digest.DIGEST_CHARS[i];
      if j == 32 {
        assert Digest.DIGEST_CHARS[i] in Digest.DIGEST_CHARS;
      } else {
        assert PREFIXES[j] == Digest.DIGEST_CHARS[j];
      }
    }
  }

  /** Whether the bucket `prefix` takes the row. */
  predicate Selected(prefix: char, item: Item) {
    var valid := Digest.IsValidDigest(item.digest);
    (StartsWith(item.digest, [prefix]) && valid) || (prefix == '_' && !valid)
  }

  /** The bucket a row belongs to: the first symbol of a valid digest,
      otherwise `_`. */
  function BucketOf(item: Item): char {
    if Digest.IsValidDigest(item.digest) then item.digest[0] else '_'
  }

  /** A valid digest starts with one of the 32 symbols, and only the bucket
      of that symbol takes it. */
  lemma ValidDigestBucket(d: string)
    requires Digest.IsValidDigest(d)
    ensures d[0] in Digest.DIGEST_CHARS && d[0] != '_'
    ensures forall q :: StartsWith(d, [q]) <==> q == d[0]
  {
    Digest.DigestCharsAreTheAlphabet();
    assert Base32.IsSymbol(d[0]);
    forall q
      ensures StartsWith(d, [q]) <==> q == d[0]
    {
      assert d[..1] == [d[0]];
    }
  }

  /** Every row lands in exactly one bucket, whatever its digest. */
  lemma OneBucket(item: Item)
    ensures BucketOf(item) in PREFIXES
    ensures forall q :: Selected(q, item) <==> q == BucketOf(item)
  {
    assert PREFIXES[32] == '_';
    if Digest.IsValidDigest(item.digest) {
      ValidDigestBucket(item.digest);
      assert forall i :: 0 <= i < 32 ==> PREFIXES[i] == Digest.DIGEST_CHARS[i];
    }
  }

  // ----------------------------------------------------------- selection

  /** One CSV file: its rows as the CSV reader parses them, in order. */
  type Rows = seq<Result<Item, Items.Error>>

  predicate Distinct(s: seq<Item>) {
    forall i, j :: 0 <= i < j < |s| ==> s[i] != s[j]
  }

  /** The rows of every file, files in order. */
  function AllRows(files: seq<Rows>): (rows: Rows)
    ensures |files| == 1 ==> rows == files[0]
  {
    if files == [] then [] else files[0] + AllRows(files[1..])
  }

  /** Every row of every file parses. */
  predicate AllParsed(files: seq<Rows>) {
    forall j :: 0 <= j < |AllRows(files)| ==> AllRows(files)[j].Success?
  }

  /** The scan of one file into the hash set `acc`, kept as its members in
      insertion order: the first unparsable row ends the scan. */
  function SelectRows(rows: Rows, prefix: char, acc: seq<Item>): Result<seq<Item>, Error>
    decreases |rows|
  {
    if rows == [] then Success(acc)
    else match rows[0]
      case Failure(e) => Failure(ItemParsingError(e))
      case Success(x) =>
        SelectRows(rows[1..], prefix, if Selected(prefix, x) && x !in acc then acc + [x] else acc)
  }

  /** The scan of the files, in order, for one bucket. */
  function SelectFiles(files: seq<Rows>, prefix: char, acc: seq<Item>): Result<seq<Item>, Error>
    decreases |files|
  {
    if files == [] then Success(acc)
    else match SelectRows(files[0], prefix, acc)
      case Failure(e) => Failure(e)
      case Success(next) => SelectFiles(files[1..], prefix, next)
  }

  /** Scanning two pieces of rows is scanning the first, then the second
      from where the first left off. */
  lemma {:induction false} SelectRowsAppend(r1: Rows, r2: Rows, prefix: char, acc: seq<Item>)
    ensures SelectRows(r1 + r2, prefix, acc) ==
      match SelectRows(r1, prefix, acc)
      case Failure(e) => Failure(e)
      case Success(next) => SelectRows(r2, prefix, next)
    decreases |r1|
  {
    if r1 != [] {
      assert (r1 + r2)[0] == r1[0] && (r1 + r2)[1..] == r1[1..] + r2;
      match r1[0]
      case Failure(e) =>
      case Success(x) =>
        SelectRowsAppend(r1[1..], r2, prefix, if Selected(prefix, x) && x !in acc then acc + [x] else acc);
    } else {
      assert r1 + r2 == r2;
    }
  }

  /** Scanning the files one by one is scanning all their rows. */
  lemma {:induction false} SelectFilesFlat(files: seq<Rows>, prefix: char, acc: seq<Item>)
    ensures SelectFiles(files, prefix, acc) == SelectRows(AllRows(files), prefix, acc)
    decreases |files|
  {
    if files != [] {
      SelectRowsAppend(files[0], AllRows(files[1..]), prefix, acc);
      match SelectRows(files[0], prefix, acc)
      case Failure(e) =>
      case Success(next) =>
        SelectFilesFlat(files[1..], prefix, next);
    }
  }

  /** The scan succeeds exactly when every row parses, and the set it builds
      holds what it started with and every parsed row of the bucket, each once. */
  lemma {:induction false} SelectRowsSpec(rows: Rows, prefix: char, acc: seq<Item>)
    requires Distinct(acc)
    ensures SelectRows(rows, prefix, acc).Success? <==> forall j :: 0 <= j < |rows| ==> rows[j].Success?
    ensures SelectRows(rows, prefix, acc).Success? ==>
      var s := SelectRows(rows, prefix, acc).value;
      && Distinct(s)
      && forall x :: x in s <==> x in acc || (Success(x) in rows && Selected(prefix, x))
    decreases |rows|
  {
    if rows != [] {
      assert rows == [rows[0]] + rows[1..];
      match rows[0]
      case Failure(e) =>
      case Success(x) =>
        var next := if Selected(prefix, x) && x !in acc then acc + [x] else acc;
        SelectRowsSpec(rows[1..], prefix, next);
        if SelectRows(rows, prefix, acc).Success? {
          forall j | 0 <= j < |rows| ensures rows[j].Success? {
            if j > 0 {
              assert rows[j] == rows[1..][j - 1];
            }
          }
          var s := SelectRows(rows, prefix, acc).value;
          forall y ensures y in s <==> y in acc || (Success(y) in rows && Selected(prefix, y)) {
            assert Success(y) in rows <==> y == x || Success(y) in rows[1..];
          }
        } else {
          var j :| 0 <= j < |rows[1..]| && !rows[1..][j].Success?;
          assert !rows[j + 1].Success?;
        }
    }
  }

  /** `select`: the bucket scan as the source runs it, two nested loops
      over the files and their rows, leaving at the first row that does
      not parse. */
  method Select(files: seq<Rows>, prefix: char) returns (r: Result<seq<Item>, Error>)
    ensures r == SelectFiles(files, prefix, [])
  {
    var acc: seq<Item> := [];
    for i := 0 to |files|
      invariant SelectFiles(files, prefix, []) == SelectFiles(files[i..], prefix, acc)
    {
      ghost var start := acc;
      var rows := files[i];
      assert files[i..][0] == rows && files[i..][1..] == files[i + 1..];
      for j := 0 to |rows|
        invariant SelectRows(rows, prefix, start) == SelectRows(rows[j..], prefix, acc)
      {
        assert rows[j..][0] == rows[j] && rows[j..][1..] == rows[j + 1..];
        match rows[j]
        case Failure(e) =>
          return Failure(ItemParsingError(e));
        case Success(x) =>
          if Selected(prefix, x) && x !in acc {
            acc := acc + [x];
          }
      }
      assert rows[|rows|..] == [];
    }
    assert files[|files|..] == [];
    return Success(acc);
  }

  // ------------------------------------------------------------- sorting

  lemma {:induction false} DistinctCount(s: seq<Item>, v: Item)
    requires Distinct(s)
    ensures multiset(s)[v] <= 1
    decreases |s|
  {
    if s != [] {
      var init := s[..|s| - 1];
      assert s == init + [s[|s| - 1]];
      DistinctCount(init, v);
      if v == s[|s| - 1] {
        assert v !in init;
      }
    }
  }

  lemma CountTwice(t: seq<Item>, i: nat, j: nat)
    requires i < j < |t| && t[i] == t[j]
    ensures multiset(t)[t[i]] >= 2
  {
    assert t == t[..j] + [t[j]] + t[j + 1..];
    assert t[i] in multiset(t[..j]);
  }

  /** `items.sort()` on the members of the hash set: the same rows, each
      once, in strictly ascending order. */
  lemma SortSelection(s: seq<Item>)
    requires Distinct(s)
    ensures var t := Sorting.Sort(s, Items.ItemLt);
      && Sorting.StrictlySorted(t, Items.ItemLt)
      && |t| == |s|
      && forall x :: x in t <==> x in s
  {
    var t := Sorting.Sort(s, Items.ItemLt);
    Items.ItemLtTotal();
    Sorting.SortSorted(s, Items.ItemLt);
    forall i, j | 0 <= i < j < |t|
      ensures Items.ItemLt(t[i], t[j])
    {
      if t[i] == t[j] {
        CountTwice(t, i, j);
        DistinctCount(s, t[i]);
      }
    }
    forall x
      ensures x in t <==> x in s
    {
      assert x in t <==> x in multiset(t);
    }
  }

  // ------------------------------------------------------------ grouping

  /** The grouping key: URL, capture time and digest. */
  function Key(item: Item): (string, Util.DateTime, string) {
    (item.url, item.archivedAt, item.digest)
  }

  function Keys(s: seq<Item>): set<(string, Util.DateTime, string)> {
    set y | y in s :: Key(y)
  }

  /** One row joining the groups so far: a row with the last group's key
      replaces that group's row when it is at least as long (`max_by_key`
      keeps the last of equally long rows), and otherwise starts a group. */
  function Absorb(g: seq<Item>, x: Item): (r: seq<Item>)
    ensures |r| <= |g| + 1
    ensures forall y :: y in r ==> y in g || y == x
    ensures r != [] && Key(r[|r| - 1]) == Key(x)
  {
    if g != [] && Key(g[|g| - 1]) == Key(x) then
      if x.length >= g[|g| - 1].length then
        assert forall y :: y in g[..|g| - 1] ==> y in g;
        g[..|g| - 1] + [x]
      else g
    else g + [x]
  }

  /** `group_by` over consecutive rows with one key, then `max_by_key` on
      the length of each group. */
  function GroupMax(items: seq<Item>): (r: seq<Item>)
    ensures |r| <= |items|
    ensures forall y :: y in r ==> y in items
    ensures items != [] ==> r != [] && Key(r[|r| - 1]) == Key(items[|items| - 1])
  {
    if items == [] then []
    else
      var init := items[..|items| - 1];
      assert forall y :: y in init ==> y in items;
      Absorb(GroupMax(init), items[|items| - 1])
  }

  /** No two output rows share a key. */
  predicate KeysDistinct(r: seq<Item>) {
    forall i, j :: 0 <= i < j < |r| ==> Key(r[i]) != Key(r[j])
  }

  /** Each output row is at least as long as every input row with its key. */
  predicate Heaviest(r: seq<Item>, items: seq<Item>) {
    forall i, k :: 0 <= i < |r| && 0 <= k < |items| && Key(items[k]) == Key(r[i]) ==>
      items[k].length <= r[i].length
  }

  /** Rows with one key sit together in strictly ascending order. */
  lemma KeyBetween(a: Item, b: Item, c: Item)
    requires Items.ItemLt(a, b) && Items.ItemLt(b, c) && Key(a) == Key(c)
    ensures Key(b) == Key(a)
  {
    Sorting.StrLtIrreflexive(a.url);
    Sorting.StrLtIrreflexive(a.digest);
    if a.url != b.url {
      Sorting.StrLtTransitive(a.url, b.url, a.url);
    } else if a.archivedAt != b.archivedAt {
    } else if a.digest != b.digest {
      Sorting.StrLtTransitive(a.digest, b.digest, a.digest);
    }
  }

  /** A row that is not the last in a strictly sorted sequence comes before
      the last one. */
  lemma BeforeLast(items: seq<Item>, y: Item)
    requires Sorting.StrictlySorted(items, Items.ItemLt) && items != []
    requires y in items[..|items| - 1]
    ensures Items.ItemLt(y, items[|items| - 1])
  {
    var k :| 0 <= k < |items| - 1 && items[..|items| - 1][k] == y;
    assert items[k] == y;
  }

  /** When the last row's key is new, no earlier row has it. */
  lemma NewKey(items: seq<Item>)
    requires Sorting.StrictlySorted(items, Items.ItemLt) && |items| >= 2
    requires Key(items[|items| - 2]) != Key(items[|items| - 1])
    ensures forall k :: 0 <= k < |items| - 1 ==> Key(items[k]) != Key(items[|items| - 1])
  {
    var n := |items|;
    forall k | 0 <= k < n - 1
      ensures Key(items[k]) != Key(items[n - 1])
    {
      if k < n - 2 && Key(items[k]) == Key(items[n - 1]) {
        KeyBetween(items[k], items[n - 2], items[n - 1]);
      }
    }
  }

  /** On sorted distinct rows the groups come out in order, one per key,
      each the longest row of its key. */
  lemma GroupMaxSpec(items: seq<Item>)
    requires Sorting.StrictlySorted(items, Items.ItemLt)
    ensures Sorting.StrictlySorted(GroupMax(items), Items.ItemLt)
    ensures KeysDistinct(GroupMax(items))
    ensures Heaviest(GroupMax(items), items)
  {
    GroupMaxSorted(items);
    GroupMaxKeys(items);
  }

  lemma {:induction false} GroupMaxSorted(items: seq<Item>)
    requires Sorting.StrictlySorted(items, Items.ItemLt)
    ensures Sorting.StrictlySorted(GroupMax(items), Items.ItemLt)
    decreases |items|
  {
    if items != [] {
      var n := |items|;
      var init := items[..n - 1];
      var x := items[n - 1];
      assert Sorting.StrictlySorted(init, Items.ItemLt);
      GroupMaxSorted(init);
      var g := GroupMax(init);
      forall y | y in g
        ensures Items.ItemLt(y, x)
      {
        BeforeLast(items, y);
      }
      SortedStep(g, x);
    }
  }

  /** One row more keeps the groups in order when it follows all of them. */
  lemma SortedStep(g: seq<Item>, x: Item)
    requires Sorting.StrictlySorted(g, Items.ItemLt)
    requires forall y :: y in g ==> Items.ItemLt(y, x)
    ensures Sorting.StrictlySorted(Absorb(g, x), Items.ItemLt)
  {
    if g != [] && Key(g[|g| - 1]) == Key(x) {
      if x.length >= g[|g| - 1].length {
        var h := g[..|g| - 1];
        assert forall y :: y in h ==> y in g;
        SortedSnoc(h, x);
      }
    } else {
      SortedSnoc(g, x);
    }
  }

  lemma SortedSnoc(h: seq<Item>, x: Item)
    requires Sorting.StrictlySorted(h, Items.ItemLt)
    requires forall y :: y in h ==> Items.ItemLt(y, x)
    ensures Sorting.StrictlySorted(h + [x], Items.ItemLt)
  {
    var r := h + [x];
    forall i, j | 0 <= i < j < |r|
      ensures Items.ItemLt(r[i], r[j])
    {
      assert r[i] == h[i] && h[i] in h;
      if j < |h| {
        assert r[j] == h[j];
      }
    }
  }

  lemma {:induction false} GroupMaxKeys(items: seq<Item>)
    requires Sorting.StrictlySorted(items, Items.ItemLt)
    ensures KeysDistinct(GroupMax(items))
    ensures Heaviest(GroupMax(items), items)
    decreases |items|
  {
    if items != [] {
      var n := |items|;
      var init := items[..n - 1];
      var x := items[n - 1];
      assert items == init + [x];
      assert Sorting.StrictlySorted(init, Items.ItemLt);
      GroupMaxKeys(init);
      var g := GroupMax(init);
      if g != [] && Key(g[|g| - 1]) == Key(x) {
        JoinStep(g, x, init);
      } else {
        if n >= 2 {
          NewKey(items);
        }
        NewStep(g, x, init);
      }
    }
  }

  /** The step of `GroupMaxKeys` where the last row starts a new key. */
  lemma NewStep(g: seq<Item>, x: Item, init: seq<Item>)
    requires KeysDistinct(g) && Heaviest(g, init)
    requires forall y :: y in g ==> y in init
    requires forall k :: 0 <= k < |init| ==> Key(init[k]) != Key(x)
    ensures KeysDistinct(Absorb(g, x)) && Heaviest(Absorb(g, x), init + [x])
  {
    forall y | y in g
      ensures Key(y) != Key(x)
    {
      var k :| 0 <= k < |init| && init[k] == y;
    }
    AppendNew(g, x, init);
  }

  /** The step of `GroupMaxKeys` where the last row has the last group's key. */
  lemma JoinStep(g: seq<Item>, x: Item, init: seq<Item>)
    requires g != [] && Key(g[|g| - 1]) == Key(x) && KeysDistinct(g) && Heaviest(g, init)
    ensures KeysDistinct(Absorb(g, x))
    ensures Heaviest(Absorb(g, x), init + [x])
  {
    var h, last := g[..|g| - 1], g[|g| - 1];
    assert g == h + [last];
    if x.length >= last.length {
      ReplaceLast(h, last, x, init);
    } else {
      KeepLast(h, last, x, init);
    }
  }

  /** A row whose key is new becomes a group of its own. */
  lemma AppendNew(g: seq<Item>, x: Item, init: seq<Item>)
    requires KeysDistinct(g) && Heaviest(g, init)
    requires forall y :: y in g ==> Key(y) != Key(x)
    requires forall k :: 0 <= k < |init| ==> Key(init[k]) != Key(x)
    ensures KeysDistinct(Absorb(g, x)) && Heaviest(Absorb(g, x), init + [x])
  {
    var r, items := g + [x], init + [x];
    assert g == [] || Key(g[|g| - 1]) != Key(x) by {
      if g != [] {
        assert g[|g| - 1] in g;
      }
    }
    forall i, j | 0 <= i < j < |r|
      ensures Key(r[i]) != Key(r[j])
    {
      assert r[i] == g[i] && g[i] in g;
    }
    forall i, k | 0 <= i < |r| && 0 <= k < |items| && Key(items[k]) == Key(r[i])
      ensures items[k].length <= r[i].length
    {
      if k < |init| {
        assert items[k] == init[k];
      }
      if i < |g| {
        assert r[i] == g[i] && g[i] in g;
      }
    }
  }

  /** A row at least as long as the last group's row takes its place. */
  lemma ReplaceLast(h: seq<Item>, last: Item, x: Item, init: seq<Item>)
    requires KeysDistinct(h + [last]) && Heaviest(h + [last], init)
    requires Key(last) == Key(x) && last.length <= x.length
    ensures KeysDistinct(h + [x]) && Heaviest(h + [x], init + [x])
  {
    var g, r, items := h + [last], h + [x], init + [x];
    forall i | 0 <= i < |h|
      ensures r[i] == g[i] == h[i] && Key(h[i]) != Key(x)
    {
      assert g[|h|] == last;
    }
    forall k | 0 <= k < |init| && Key(init[k]) == Key(x)
      ensures init[k].length <= x.length
    {
      assert g[|h|] == last;
    }
    forall i, k | 0 <= i < |r| && 0 <= k < |items| && Key(items[k]) == Key(r[i])
      ensures items[k].length <= r[i].length
    {
      if k < |init| {
        assert items[k] == init[k];
      }
    }
  }

  /** A shorter row with the last group's key leaves the group as it is. */
  lemma KeepLast(h: seq<Item>, last: Item, x: Item, init: seq<Item>)
    requires KeysDistinct(h + [last]) && Heaviest(h + [last], init)
    requires Key(last) == Key(x) && x.length < last.length
    ensures Heaviest(h + [last], init + [x])
  {
    var g, items := h + [last], init + [x];
    assert forall i :: 0 <= i < |h| ==> Key(g[i]) != Key(g[|h|]);
    forall i, k | 0 <= i < |g| && 0 <= k < |items| && Key(items[k]) == Key(g[i])
      ensures items[k].length <= g[i].length
    {
      if k < |init| {
        assert items[k] == init[k];
      }
    }
  }

  /** Of several longest rows with one key, the output keeps the last. */
  predicate LastOfLongest(r: seq<Item>, items: seq<Item>) {
    forall i, k :: 0 <= i < |r| && 0 <= k < |items| && Key(items[k]) == Key(r[i]) && items[k].length == r[i].length ==>
      r[i] in items[k..]
  }

  /** On sorted distinct rows `max_by_key` breaks ties by keeping the last row. */
  lemma {:induction false} GroupMaxTies(items: seq<Item>)
    requires Sorting.StrictlySorted(items, Items.ItemLt)
    ensures LastOfLongest(GroupMax(items), items)
    decreases |items|
  {
    if items != [] {
      var n := |items|;
      var init := items[..n - 1];
      var x := items[n - 1];
      assert items == init + [x];
      assert Sorting.StrictlySorted(init, Items.ItemLt);
      GroupMaxTies(init);
      GroupMaxKeys(init);
      var g := GroupMax(init);
      if g != [] && Key(g[|g| - 1]) == Key(x) {
        TiesJoin(g, x, init);
      } else {
        TiesNewKey(init, x, g);
      }
    }
  }

  /** The step of `GroupMaxTies` for a row whose key differs from that of
      the row before it. */
  lemma TiesNewKey(init: seq<Item>, x: Item, g: seq<Item>)
    requires Sorting.StrictlySorted(init + [x], Items.ItemLt)
    requires init == [] || Key(init[|init| - 1]) != Key(x)
    requires forall y :: y in g ==> y in init
    requires LastOfLongest(g, init)
    ensures LastOfLongest(Absorb(g, x), init + [x])
  {
    var items := init + [x];
    if init != [] {
      assert items[|items| - 2] == init[|init| - 1];
      NewKey(items);
    }
    assert forall k :: 0 <= k < |init| ==> Key(init[k]) != Key(x) by {
      assert forall k :: 0 <= k < |init| ==> init[k] == items[k];
    }
    TiesNew(g, x, init);
  }

  lemma SuffixSnoc(init: seq<Item>, x: Item, k: nat, y: Item)
    requires k <= |init| && y in init[k..]
    ensures y in (init + [x])[k..]
  {
    assert (init + [x])[k..] == init[k..] + [x];
  }

  /** The tie step where the last row starts a new key. */
  lemma TiesNew(g: seq<Item>, x: Item, init: seq<Item>)
    requires LastOfLongest(g, init)
    requires forall y :: y in g ==> Key(y) != Key(x)
    requires forall k :: 0 <= k < |init| ==> Key(init[k]) != Key(x)
    ensures LastOfLongest(Absorb(g, x), init + [x])
  {
    var r, items := g + [x], init + [x];
    assert g == [] || Key(g[|g| - 1]) != Key(x) by {
      if g != [] {
        assert g[|g| - 1] in g;
      }
    }
    forall i, k | 0 <= i < |r| && 0 <= k < |items| && Key(items[k]) == Key(r[i]) && items[k].length == r[i].length
      ensures r[i] in items[k..]
    {
      if k < |init| {
        assert items[k] == init[k];
      }
      if i < |g| {
        assert r[i] == g[i] && g[i] in g;
        SuffixSnoc(init, x, k, g[i]);
      } else {
        assert items[k..] == [x];
      }
    }
  }

  /** The tie step where the last row has the last group's key. */
  lemma TiesJoin(g: seq<Item>, x: Item, init: seq<Item>)
    requires g != [] && Key(g[|g| - 1]) == Key(x) && KeysDistinct(g) && LastOfLongest(g, init)
    ensures LastOfLongest(Absorb(g, x), init + [x])
  {
    var items := init + [x];
    var h, last := g[..|g| - 1], g[|g| - 1];
    assert g == h + [last];
    assert forall i :: 0 <= i < |h| ==> Key(g[i]) != Key(x);
    var r := Absorb(g, x);
    forall i, k | 0 <= i < |r| && 0 <= k < |items| && Key(items[k]) == Key(r[i]) && items[k].length == r[i].length
      ensures r[i] in items[k..]
    {
      if k < |init| {
        assert items[k] == init[k];
      }
      if x.length >= last.length && i == |h| {
        assert r[i] == x && items[k..][|items| - 1 - k] == x;
      } else {
        assert r[i] == g[i];
        SuffixSnoc(init, x, k, g[i]);
      }
    }
  }

  lemma KeysSnoc(s: seq<Item>, x: Item)
    ensures Keys(s + [x]) == Keys(s) + {Key(x)}
  {
    forall k | k in Keys(s + [x])
      ensures k in Keys(s) + {Key(x)}
    {
      var y :| y in s + [x] && Key(y) == k;
    }
    forall k | k in Keys(s)
      ensures k in Keys(s + [x])
    {
      var y :| y in s && Key(y) == k;
      assert y in s + [x];
    }
  }

  lemma AbsorbKeys(g: seq<Item>, x: Item)
    ensures Keys(Absorb(g, x)) == Keys(g) + {Key(x)}
  {
    if g != [] && Key(g[|g| - 1]) == Key(x) {
      var h, last := g[..|g| - 1], g[|g| - 1];
      assert g == h + [last];
      KeysSnoc(h, last);
      if x.length >= last.length {
        KeysSnoc(h, x);
      }
    } else {
      KeysSnoc(g, x);
    }
  }

  /** Every key of the input has a group. */
  lemma {:induction false} GroupMaxCovers(items: seq<Item>)
    ensures Keys(GroupMax(items)) == Keys(items)
    decreases |items|
  {
    if items != [] {
      var n := |items|;
      var init := items[..n - 1];
      var x := items[n - 1];
      GroupMaxCovers(init);
      assert items == init + [x];
      KeysSnoc(init, x);
      AbsorbKeys(GroupMax(init), x);
    }
  }

  // -------------------------------------------------------------- buckets

  /** The rows one bucket's row group holds: the scan, sorted, one row per key. */
  function Bucket(files: seq<Rows>, prefix: char): seq<Item> {
    match SelectFiles(files, prefix, [])
    case Failure(_) => []
    case Success(s) => GroupMax(Sorting.Sort(s, Items.ItemLt))
  }

  /** A parsed row of some file that the bucket takes. */
  predicate Picked(files: seq<Rows>, prefix: char, x: Item) {
    Success(x) in AllRows(files) && Selected(prefix, x)
  }

  /** Grouping strictly sorted rows: the groups are rows of the input in
      strictly ascending order with no key twice, every key of the input
      present, and each row the longest of its key. */
  lemma GroupedSorted(t: seq<Item>)
    requires Sorting.StrictlySorted(t, Items.ItemLt)
    ensures var b := GroupMax(t);
      && Sorting.StrictlySorted(b, Items.ItemLt)
      && KeysDistinct(b)
      && (forall y :: y in b ==> y in t)
      && (forall x :: x in t ==> Key(x) in Keys(b))
      && (forall x, i :: x in t && 0 <= i < |b| && Key(x) == Key(b[i]) ==> x.length <= b[i].length)
      && (forall x, i :: x in t && 0 <= i < |b| && Key(x) == Key(b[i]) && x.length == b[i].length ==>
            x == b[i] || Items.ItemLt(x, b[i]))
  {
    GroupMaxSpec(t);
    GroupedTies(t);
    GroupedCovers(t);
  }

  /** Grouping sorted rows keeps every key, each at its greatest length. */
  lemma GroupedCovers(t: seq<Item>)
    requires Sorting.StrictlySorted(t, Items.ItemLt)
    ensures var b := GroupMax(t);
      && (forall x :: x in t ==> Key(x) in Keys(b))
      && (forall x, i :: x in t && 0 <= i < |b| && Key(x) == Key(b[i]) ==> x.length <= b[i].length)
  {
    GroupMaxKeys(t);
    GroupMaxCovers(t);
    var b := GroupMax(t);
    forall x | x in t
      ensures Key(x) in Keys(b)
    {
      assert Key(x) in Keys(t);
    }
    forall x, i | x in t && 0 <= i < |b| && Key(x) == Key(b[i])
      ensures x.length <= b[i].length
    {
      var k :| 0 <= k < |t| && t[k] == x;
    }
  }

  /** Among equally long rows of one key, grouping sorted rows keeps the
      greatest. */
  lemma GroupedTies(t: seq<Item>)
    requires Sorting.StrictlySorted(t, Items.ItemLt)
    ensures var b := GroupMax(t);
      forall x, i :: x in t && 0 <= i < |b| && Key(x) == Key(b[i]) && x.length == b[i].length ==>
        x == b[i] || Items.ItemLt(x, b[i])
  {
    GroupMaxTies(t);
    var b := GroupMax(t);
    forall x, i | x in t && 0 <= i < |b| && Key(x) == Key(b[i]) && x.length == b[i].length
      ensures x == b[i] || Items.ItemLt(x, b[i])
    {
      var k :| 0 <= k < |t| && t[k] == x;
      var p :| 0 <= p < |t[k..]| && t[k..][p] == b[i];
      assert t[k + p] == b[i];
    }
  }

  /** Sorting a set of rows and grouping it: the same, stated over the set. */
  lemma GroupedSelection(s: seq<Item>)
    requires Distinct(s)
    ensures var b := GroupMax(Sorting.Sort(s, Items.ItemLt));
      && Sorting.StrictlySorted(b, Items.ItemLt)
      && KeysDistinct(b)
      && (forall y :: y in b ==> y in s)
      && (forall x :: x in s ==> Key(x) in Keys(b))
      && (forall x, i :: x in s && 0 <= i < |b| && Key(x) == Key(b[i]) ==> x.length <= b[i].length)
      && (forall x, i :: x in s && 0 <= i < |b| && Key(x) == Key(b[i]) && x.length == b[i].length ==>
            x == b[i] || Items.ItemLt(x, b[i]))
  {
    var t := Sorting.Sort(s, Items.ItemLt);
    SortSelection(s);
    GroupedSorted(t);
  }

  /** What a bucket's row group holds, when every row parses: rows of the
      bucket in strictly ascending order with no key twice, every key of the
      bucket's rows present, and each row the longest of its key, the
      greatest in row order among equally long ones. */
  lemma BucketSpec(files: seq<Rows>, prefix: char)
    requires AllParsed(files)
    ensures var b := Bucket(files, prefix);
      && Sorting.StrictlySorted(b, Items.ItemLt)
      && KeysDistinct(b)
      && (forall y :: y in b ==> Picked(files, prefix, y))
      && (forall x :: Picked(files, prefix, x) ==> Key(x) in Keys(b))
      && (forall x, i :: Picked(files, prefix, x) && 0 <= i < |b| && Key(x) == Key(b[i]) ==>
            x.length <= b[i].length)
      && (forall x, i :: Picked(files, prefix, x) && 0 <= i < |b| && Key(x) == Key(b[i]) && x.length == b[i].length ==>
            x == b[i] || Items.ItemLt(x, b[i]))
  {
    SelectFilesFlat(files, prefix, []);
    SelectRowsSpec(AllRows(files), prefix, []);
    var s := SelectFiles(files, prefix, []).value;
    assert forall x :: x in s <==> Picked(files, prefix, x);
    GroupedSelection(s);
  }

  /** A scan fails for one bucket exactly when it fails for every bucket. */
  lemma SelectFailsAlike(files: seq<Rows>, prefix: char)
    ensures SelectFiles(files, prefix, []).Success? <==> AllParsed(files)
  {
    SelectFilesFlat(files, prefix, []);
    SelectRowsSpec(AllRows(files), prefix, []);
  }

  // ------------------------------------------------------------- columns

  /** `as i32` on a wider integer: the low 32 bits read as two's complement. */
  function AsI32(n: int): (r: int)
    ensures -0x8000_0000 <= r < 0x8000_0000
    ensures (r - n) % 0x1_0000_0000 == 0
  {
    (n + 0x8000_0000) % 0x1_0000_0000 - 0x8000_0000
  }

  function DaysInYear(y: nat): nat {
    if Util.IsLeapYear(y) then 366 else 365
  }

  function DaysBeforeYear(y: nat): nat {
    if y == 0 then 0 else DaysBeforeYear(y - 1) + DaysInYear(y - 1)
  }

  function DaysBeforeMonth(y: nat, m: nat): nat
    requires 1 <= m <= 12
  {
    if m == 1 then 0 else DaysBeforeMonth(y, m - 1) + Util.DaysInMonth(y, m - 1)
  }

  /** Days from 1 January of year 0 to the date. */
  function DayNumber(d: Util.DateTime): nat {
    DaysBeforeYear(d.year) + DaysBeforeMonth(d.year, d.month) + d.day - 1
  }

  /** `NaiveDateTime::timestamp`: seconds since 1970-01-01 00:00:00, the
      whole days since then and the seconds into the day. */
  function EpochSeconds(d: Util.DateTime): (r: int)
    ensures r / 86400 == DayNumber(d) - DaysBeforeYear(1970)
    ensures r % 86400 == d.hour * 3600 + d.minute * 60 + d.second
  {
    var days := DayNumber(d) - DaysBeforeYear(1970);
    var clock := d.hour * 3600 + d.minute * 60 + d.second;
    assert 0 <= clock < 86400;
    days * 86400 + clock
  }

  lemma {:induction false} YearsBefore(y1: nat, y2: nat)
    requires y1 < y2
    ensures DaysBeforeYear(y1) + DaysInYear(y1) <= DaysBeforeYear(y2)
    decreases y2
  {
    if y1 < y2 - 1 {
      YearsBefore(y1, y2 - 1);
    }
  }

  lemma {:induction false} MonthsBefore(y: nat, m1: nat, m2: nat)
    requires 1 <= m1 < m2 <= 12
    ensures DaysBeforeMonth(y, m1) + Util.DaysInMonth(y, m1) <= DaysBeforeMonth(y, m2)
    decreases m2
  {
    if m1 < m2 - 1 {
      MonthsBefore(y, m1, m2 - 1);
    }
  }

  lemma YearLength(y: nat)
    ensures DaysBeforeMonth(y, 12) + 31 == DaysInYear(y)
  {
    var feb := Util.DaysInMonth(y, 2);
    assert DaysBeforeMonth(y, 2) == 31;
    assert DaysBeforeMonth(y, 3) == 31 + feb;
    assert DaysBeforeMonth(y, 4) == 62 + feb;
    assert DaysBeforeMonth(y, 5) == 92 + feb;
    assert DaysBeforeMonth(y, 6) == 123 + feb;
    assert DaysBeforeMonth(y, 7) == 153 + feb;
    assert DaysBeforeMonth(y, 8) == 184 + feb;
    assert DaysBeforeMonth(y, 9) == 215 + feb;
    assert DaysBeforeMonth(y, 10) == 245 + feb;
    assert DaysBeforeMonth(y, 11) == 276 + feb;
    assert DaysBeforeMonth(y, 12) == 306 + feb;
  }

  /** A date falls inside its year. */
  lemma InYear(d: Util.DateTime)
    ensures DaysBeforeYear(d.year) <= DayNumber(d) < DaysBeforeYear(d.year) + DaysInYear(d.year)
  {
    YearLength(d.year);
    if d.month < 12 {
      MonthsBefore(d.year, d.month, 12);
    }
  }

  /** Later date-times have larger epoch seconds. */
  lemma EpochSecondsIncrease(a: Util.DateTime, b: Util.DateTime)
    requires Util.DateTimeLt(a, b)
    ensures EpochSeconds(a) < EpochSeconds(b)
  {
    if a.year != b.year {
      InYear(a);
      InYear(b);
      YearsBefore(a.year, b.year);
      assert DayNumber(a) < DayNumber(b);
    } else if a.month != b.month {
      MonthsBefore(a.year, a.month, b.month);
      assert DayNumber(a) < DayNumber(b);
    }
  }

  /** The column of present statuses, in row order. */
  function PresentStatuses(items: seq<Item>): seq<int> {
    if items == [] then []
    else
      var x := items[|items| - 1];
      PresentStatuses(items[..|items| - 1]) + (if x.status.Some? then [x.status.value] else [])
  }

  /** Reading the status column back: each definition level 1 takes the
      next stored value, each 0 is a null. */
  function ReadStatuses(defs: seq<int>, values: seq<int>): seq<Option<int>> {
    if defs == [] then []
    else if defs[|defs| - 1] == 1 && values != [] then
      ReadStatuses(defs[..|defs| - 1], values[..|values| - 1]) + [Some(values[|values| - 1])]
    else ReadStatuses(defs[..|defs| - 1], values) + [None]
  }

  /** The columns of one row group, in schema order: URL, capture time (as
      32-bit epoch seconds), digest, MIME type, length (as a 32-bit signed
      value), and the status as stored values plus definition levels. */
  datatype RowGroup = RowGroup(
    urls: seq<string>,
    archivedAts: seq<int>,
    digests: seq<string>,
    mimeTypes: seq<string>,
    lengths: seq<int>,
    statusValues: seq<int>,
    statusDefs: seq<int>)

  /** The row group holds exactly the given rows. */
  predicate Encodes(g: RowGroup, items: seq<Item>) {
    && |g.urls| == |items| && |g.archivedAts| == |items| && |g.digests| == |items|
    && |g.mimeTypes| == |items| && |g.lengths| == |items| && |g.statusDefs| == |items|
    && (forall i :: 0 <= i < |items| ==>
          && g.urls[i] == items[i].url
          && g.archivedAts[i] == AsI32(EpochSeconds(items[i].archivedAt))
          && g.digests[i] == items[i].digest
          && g.mimeTypes[i] == items[i].mimeType
          && g.lengths[i] == AsI32(items[i].length)
          && g.statusDefs[i] == (if items[i].status.Some? then 1 else 0))
    && g.statusValues == PresentStatuses(items)
  }

  /** The status loop: present statuses go to the values, and every row
      gets a definition level. */
  method StatusColumn(items: seq<Item>) returns (values: seq<int>, defs: seq<int>)
    ensures |defs| == |items|
    ensures forall i :: 0 <= i < |items| ==> defs[i] == (if items[i].status.Some? then 1 else 0)
    ensures values == PresentStatuses(items)
  {
    values, defs := [], [];
    for i := 0 to |items|
      invariant |defs| == i
      invariant forall k :: 0 <= k < i ==> defs[k] == (if items[k].status.Some? then 1 else 0)
      invariant values == PresentStatuses(items[..i])
    {
      assert items[..i + 1][..i] == items[..i];
      match items[i].status
      case Some(status) =>
        values := values + [status];
        defs := defs + [1];
      case None =>
        defs := defs + [0];
    }
    assert items[..|items|] == items;
  }

  /** A row's status as the column stores it. */
  function StatusValue(item: Item): Option<int> {
    if item.status.Some? then Some(item.status.value as int) else None
  }

  /** `read` holds the status of every row, in row order. */
  predicate ReadsBack(read: seq<Option<int>>, items: seq<Item>) {
    |read| == |items| && forall i :: 0 <= i < |items| ==> read[i] == StatusValue(items[i])
  }

  lemma ReadsBackSnoc(read: seq<Option<int>>, items: seq<Item>, x: Item)
    requires ReadsBack(read, items)
    ensures ReadsBack(read + [StatusValue(x)], items + [x])
  {
    var r, s := read + [StatusValue(x)], items + [x];
    forall i | 0 <= i < |s|
      ensures r[i] == StatusValue(s[i])
    {
      if i < |items| {
        assert r[i] == read[i] && s[i] == items[i];
      }
    }
  }

  /** Reading a written status column back gives every row's status. */
  lemma {:induction false} StatusRoundTrip(items: seq<Item>, defs: seq<int>)
    requires |defs| == |items|
    requires forall i :: 0 <= i < |items| ==> defs[i] == (if items[i].status.Some? then 1 else 0)
    ensures ReadsBack(ReadStatuses(defs, PresentStatuses(items)), items)
    decreases |items|
  {
    if items != [] {
      var n := |items|;
      var init, x, dinit := items[..n - 1], items[n - 1], defs[..n - 1];
      StatusRoundTrip(init, dinit);
      RoundTripStep(items, defs);
      ReadsBackSnoc(ReadStatuses(dinit, PresentStatuses(init)), init, x);
      assert items == init + [x];
    }
  }

  /** The last row of a written status column reads back as its status. */
  lemma RoundTripStep(items: seq<Item>, defs: seq<int>)
    requires items != [] && |defs| == |items|
    requires defs[|items| - 1] == (if items[|items| - 1].status.Some? then 1 else 0)
    ensures var n := |items|;
      ReadStatuses(defs, PresentStatuses(items)) ==
        ReadStatuses(defs[..n - 1], PresentStatuses(items[..n - 1])) + [StatusValue(items[n - 1])]
  {
    var n := |items|;
    var init, x, dinit := items[..n - 1], items[n - 1], defs[..n - 1];
    assert defs == dinit + [defs[n - 1]];
    ReadSnoc(dinit, PresentStatuses(init), x.status);
    if x.status.Some? {
      assert PresentStatuses(items) == PresentStatuses(init) + [x.status.value];
    } else {
      assert PresentStatuses(items) == PresentStatuses(init);
    }
  }

  /** Reading one more row back: its definition level and, when present,
      its value come last. */
  lemma ReadSnoc(defs: seq<int>, values: seq<int>, status: Option<U16>)
    ensures status.Some? ==>
      ReadStatuses(defs + [1], values + [status.value]) == ReadStatuses(defs, values) + [Some(status.value as int)]
    ensures status.None? ==>
      ReadStatuses(defs + [0], values) == ReadStatuses(defs, values) + [None]
  {
    assert (defs + [1])[..|defs|] == defs && (defs + [0])[..|defs|] == defs;
    assert (values + [0])[..|values|] == values;
    if status.Some? {
      assert (values + [status.value])[..|values|] == values;
    }
  }

  /** The row groups hold the first buckets, one each, in the order of
      `PREFIXES`. */
  predicate Written(groups: seq<RowGroup>, files: seq<Rows>)
    decreases |groups|
  {
    && |groups| <= |PREFIXES|
    && (groups != [] ==>
          && Written(groups[..|groups| - 1], files)
          && Encodes(groups[|groups| - 1], Bucket(files, PREFIXES[|groups| - 1])))
  }

  /** Row group `m` of a written file holds bucket `m`. */
  lemma {:induction false} WrittenBucket(groups: seq<RowGroup>, files: seq<Rows>, m: nat)
    requires Written(groups, files) && m < |groups|
    ensures Encodes(groups[m], Bucket(files, PREFIXES[m]))
    decreases |groups|
  {
    if m < |groups| - 1 {
      WrittenBucket(groups[..|groups| - 1], files, m);
    }
  }

  lemma WrittenExtend(files: seq<Rows>, before: seq<RowGroup>, after: seq<RowGroup>, k: nat)
    requires Written(before, files) && |before| == k < |PREFIXES|
    requires |after| == k + 1 && after[..k] == before
    requires Encodes(after[k], Bucket(files, PREFIXES[k]))
    ensures Written(after, files)
  {
  }

  /** The same step seen from the whole file: the groups written before
      the export stay in front and the buckets written so far follow. */
  lemma WrittenAppend(files: seq<Rows>, start: seq<RowGroup>, before: seq<RowGroup>, after: seq<RowGroup>, k: nat)
    requires k < |PREFIXES| && |before| == |start| + k && before[..|start|] == start
    requires Written(before[|start|..], files)
    requires |after| == |before| + 1 && after[..|before|] == before
    requires Encodes(after[|before|], Bucket(files, PREFIXES[k]))
    ensures after[..|start|] == start && Written(after[|start|..], files)
  {
    var tail, front := after[|start|..], before[|start|..];
    assert tail[..k] == front;
    assert tail[k] == after[|before|];
    WrittenExtend(files, front, tail, k);
  }

  /** The written file: its row groups in order, and whether it is closed. */
  class ParquetFile {
    var rowGroups: seq<RowGroup>
    var closed: bool

    /** `create`: an open file with no row groups yet. */
    constructor ()
      ensures rowGroups == [] && !closed
    {
      rowGroups := [];
      closed := false;
    }

    /** `close`: seals the file and reports how many row groups it holds;
        a closed writer refuses to close again. */
    method Close() returns (r: Result<nat, Error>)
      modifies this
      ensures rowGroups == old(rowGroups) && closed
      ensures r.Success? <==> !old(closed)
      ensures r.Success? ==> r.value == |rowGroups|
      ensures r.Failure? ==> r.error == ParquetError
    {
      if closed {
        return Failure(ParquetError);
      }
      closed := true;
      return Success(|rowGroups|);
    }

    /** `write`: one row group holding the rows in order. */
    method Write(items: seq<Item>) returns (r: Result<(), Error>)
      modifies this
      ensures closed == old(closed)
      ensures r.Success? <==> !old(closed)
      ensures r.Success? ==>
        && |rowGroups| == |old(rowGroups)| + 1
        && rowGroups[..|old(rowGroups)|] == old(rowGroups)
        && Encodes(rowGroups[|old(rowGroups)|], items)
      ensures r.Failure? ==> r.error == ParquetError && rowGroups == old(rowGroups)
    {
      if closed {
        return Failure(ParquetError);
      }
      var urls := Map((x: Item) => x.url, items);
      var archivedAts := Map((x: Item) => AsI32(EpochSeconds(x.archivedAt)), items);
      var digests := Map((x: Item) => x.digest, items);
      var mimeTypes := Map((x: Item) => x.mimeType, items);
      var lengths := Map((x: Item) => AsI32(x.length), items);
      var values, defs := StatusColumn(items);
      var g := RowGroup(urls, archivedAts, digests, mimeTypes, lengths, values, defs);
      rowGroups := rowGroups + [g];
      assert rowGroups[|old(rowGroups)|] == g;
      return Success(());
    }

    /** One round of `write_all`: scan the files for the bucket, sort the
        set, keep the longest row of each key, and write the row group. */
    method WriteBucket(files: seq<Rows>, prefix: char) returns (r: Result<(), Error>)
      modifies this
      ensures closed == old(closed)
      ensures r.Success? <==> !old(closed) && AllParsed(files)
      ensures r.Success? ==>
        && |rowGroups| == |old(rowGroups)| + 1
        && rowGroups[..|old(rowGroups)|] == old(rowGroups)
        && Encodes(rowGroups[|old(rowGroups)|], Bucket(files, prefix))
      ensures r.Failure? ==> rowGroups == old(rowGroups)
    {
      SelectFailsAlike(files, prefix);
      var selected := Select(files, prefix);
      if selected.Failure? {
        return Failure(selected.error);
      }
      var items := Sorting.Sort(selected.value, Items.ItemLt);
      var grouped := GroupMax(items);
      // The duplicates removed, which the source only logs, are never a negative count.
      assert |grouped| <= |selected.value|;
      r := Write(grouped);
    }

    /** `write_all`: one row group per bucket, in the order of `PREFIXES`.
        The files are given in path order; a row that does not parse ends
        the export at the first bucket, before anything is written. */
    method WriteAll(files: seq<Rows>) returns (r: Result<(), Error>)
      modifies this
      ensures closed == old(closed)
      ensures r.Success? <==> !old(closed) && AllParsed(files)
      ensures r.Success? ==>
        && |rowGroups| == |old(rowGroups)| + |PREFIXES|
        && rowGroups[..|old(rowGroups)|] == old(rowGroups)
        && Written(rowGroups[|old(rowGroups)|..], files)
      ensures r.Failure? ==> rowGroups == old(rowGroups)
    {
      ghost var start := rowGroups;
      assert rowGroups[|start|..] == [];
      for k := 0 to |PREFIXES|
        invariant closed == old(closed)
        invariant |rowGroups| == |start| + k && rowGroups[..|start|] == start
        invariant Written(rowGroups[|start|..], files)
        invariant k > 0 ==> !closed && AllParsed(files)
      {
        ghost var before := rowGroups;
        var written := WriteBucket(files, PREFIXES[k]);
        if written.Failure? {
          return written;
        }
        WrittenAppend(files, start, before, rowGroups, k);
      }
      return Success(());
    }
  }
}
