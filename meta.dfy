/**
 * The snapshot metadata store (`src/store/meta.rs`): URLs, digests and
 * MIME types are interned in value tables, each distinct snapshot (all
 * fields but its length) is one item row, and lengths live in a separate
 * size table keyed by item id. SQLite tables are sequences whose row id is
 * the position plus one; the size table is a map from item id.
 */
module Meta {
  import opened Wrappers
  import opened Text
  import Util
  import Items
  import Index

  /** An item row: the interned ids, the time and the status. */
  datatype ItemRow = ItemRow(urlId: nat, timestamp: Util.DateTime, digestId: nat, mimeTypeId: nat, status: Option<U16>)

  /** `merge`: the id, whether it was found (`Ok`) or inserted (`Err`). */
  function Merge<T>(r: Result<T, T>): (v: T)
    ensures r == Success(v) || r == Failure(v)
  {
    match r
    case Success(v) => v
    case Failure(v) => v
  }

  /** A value table: the values in row order. */
  class Table {
    var rows: seq<string>

    ghost predicate Valid()
      reads this
    {
      Index.Distinct(rows)
    }

    constructor ()
      ensures rows == [] && Valid()
    {
      rows := [];
    }

    /** `get_or_add`: `Ok(id)` of the value's row when there is one,
        otherwise the row is inserted and its id comes back as `Err`. */
    method GetOrAdd(value: string) returns (r: Result<nat, nat>)
      requires Valid()
      modifies this
      ensures Valid()
      ensures r.Success? <==> value in old(rows)
      ensures r.Success? ==> rows == old(rows)
      ensures r.Failure? ==> rows == old(rows) + [value] && r.error == |rows|
      ensures 1 <= Merge(r) <= |rows| && rows[Merge(r) - 1] == value
      ensures forall k :: 0 <= k < |rows| && rows[k] == value ==> k == Merge(r) - 1
    {
      match Index.Find(rows, value) {
        case Some(k) =>
          r := Success(k + 1);
        case None =>
          rows := rows + [value];
          r := Failure(|rows|);
      }
    }
  }

  /** `ItemStore`: the value tables, the item rows and the sizes. */
  class ItemStore {
    const urls: Table
    const digests: Table
    const mimeTypes: Table
    var items: seq<ItemRow>
    var sizes: map<nat, U32>

    /** Item rows refer to existing values and are pairwise distinct; each
        size belongs to an item row and is non-zero. */
    ghost predicate Valid()
      reads this, urls, digests, mimeTypes
    {
      && urls != digests && urls != mimeTypes && digests != mimeTypes
      && urls.Valid() && digests.Valid() && mimeTypes.Valid()
      && (forall k :: 0 <= k < |items| ==>
            && 1 <= items[k].urlId <= |urls.rows| && 1 <= items[k].digestId <= |digests.rows|
            && 1 <= items[k].mimeTypeId <= |mimeTypes.rows|)
      && Index.Distinct(items)
      && (forall id :: id in sizes ==> 1 <= id <= |items| && sizes[id] != 0)
    }

    /** `ItemStore::new` on a fresh (or recreated) database. */
    constructor ()
      ensures Valid() && fresh(urls) && fresh(digests) && fresh(mimeTypes)
      ensures urls.rows == [] && digests.rows == [] && mimeTypes.rows == []
      ensures items == [] && sizes == map[]
    {
      urls := new Table();
      digests := new Table();
      mimeTypes := new Table();
      items := [];
      sizes := map[];
    }

    /** The row a snapshot is stored as, once its values are interned. */
    function RowOf(item: Items.Item): (row: ItemRow)
      reads this, urls, digests, mimeTypes
      requires Interned(urls.rows, digests.rows, mimeTypes.rows, item)
    {
      RowIn(urls.rows, digests.rows, mimeTypes.rows, item)
    }

    /** The three `get_or_add` calls of one turn of `add_items`: the row the
        snapshot is to be stored as, and whether any value was new. A row
        with a new value cannot match a stored row. */
    method Intern(item: Items.Item) returns (row: ItemRow, anyInserts: bool)
      requires Valid()
      modifies urls, digests, mimeTypes
      ensures Valid()
      ensures urls.rows == Index.Added(old(urls.rows), item.url)
      ensures digests.rows == Index.Added(old(digests.rows), item.digest)
      ensures mimeTypes.rows == Index.Added(old(mimeTypes.rows), item.mimeType)
      ensures Interned(urls.rows, digests.rows, mimeTypes.rows, item) && row == RowOf(item)
      ensures anyInserts <==> !Interned(old(urls.rows), old(digests.rows), old(mimeTypes.rows), item)
      ensures anyInserts ==> row !in items
    {
      var urlRes := urls.GetOrAdd(item.url);
      var digestRes := digests.GetOrAdd(item.digest);
      assert urls.rows == Index.Added(old(urls.rows), item.url);
      var mimeTypeRes := mimeTypes.GetOrAdd(item.mimeType);
      assert digests.rows == Index.Added(old(digests.rows), item.digest);
      anyInserts := urlRes.Failure? || digestRes.Failure? || mimeTypeRes.Failure?;
      assert Merge(urlRes) == Index.IdOf(urls.rows, item.url);
      assert Merge(digestRes) == Index.IdOf(digests.rows, item.digest);
      assert Merge(mimeTypeRes) == Index.IdOf(mimeTypes.rows, item.mimeType);
      row := ItemRow(Merge(urlRes), item.archivedAt, Merge(digestRes), Merge(mimeTypeRes), item.status);
      if anyInserts {
        forall k | 0 <= k < |items|
          ensures items[k] != row
        {
          if urlRes.Failure? {
            assert items[k].urlId <= |old(urls.rows)| < row.urlId;
          } else if digestRes.Failure? {
            assert items[k].digestId <= |old(digests.rows)| < row.digestId;
          } else {
            assert items[k].mimeTypeId <= |old(mimeTypes.rows)| < row.mimeTypeId;
          }
        }
      }
    }

    /** One turn of the `add_items` loop. When any value was newly
        interned the row is inserted without a lookup; otherwise the
        matching row is reused or a row inserted. A non-zero length is
        recorded for the row unless it already has a size. */
    method AddItem(item: Items.Item) returns (itemId: nat)
      requires Valid()
      modifies this, urls, digests, mimeTypes
      ensures Valid()
      ensures urls.rows == Index.Added(old(urls.rows), item.url)
      ensures digests.rows == Index.Added(old(digests.rows), item.digest)
      ensures mimeTypes.rows == Index.Added(old(mimeTypes.rows), item.mimeType)
      ensures Interned(urls.rows, digests.rows, mimeTypes.rows, item)
      ensures 1 <= itemId <= |items| && items[itemId - 1] == RowOf(item)
      ensures forall k :: 0 <= k < |items| && items[k] == RowOf(item) ==> k == itemId - 1
      ensures RowOf(item) in old(items) ==> items == old(items)
      ensures RowOf(item) !in old(items) ==> items == old(items) + [RowOf(item)]
      ensures item.length == 0 || itemId in old(sizes) ==> sizes == old(sizes)
      ensures item.length != 0 && itemId !in old(sizes) ==> sizes == old(sizes)[itemId := item.length]
    {
      var row, anyInserts := Intern(item);
      itemId := StoreRow(row, anyInserts);
      RecordSize(itemId, item.length);
    }

    /** Whether a row's ids name rows of the three value tables. */
    ghost predicate Fits(row: ItemRow)
      reads this, urls, digests, mimeTypes
    {
      1 <= row.urlId <= |urls.rows| && 1 <= row.digestId <= |digests.rows| && 1 <= row.mimeTypeId <= |mimeTypes.rows|
    }

    /** The item row of one turn: reused when it is stored already (looked
        up only when no value was new), inserted otherwise. */
    method StoreRow(row: ItemRow, anyInserts: bool) returns (itemId: nat)
      requires Valid() && Fits(row) && (anyInserts ==> row !in items)
      modifies this
      ensures Valid() && sizes == old(sizes)
      ensures 1 <= itemId <= |items| && items[itemId - 1] == row
      ensures forall k :: 0 <= k < |items| && items[k] == row ==> k == itemId - 1
      ensures row in old(items) ==> items == old(items)
      ensures row !in old(items) ==> items == old(items) + [row]
    {
      var existing := if anyInserts then None else Index.Find(items, row);
      match existing {
        case Some(k) =>
          itemId := k + 1;
        case None =>
          items := items + [row];
          itemId := |items|;
      }
    }

    /** A non-zero length is recorded for a row that has no size yet. */
    method RecordSize(itemId: nat, length: U32)
      requires Valid() && 1 <= itemId <= |items|
      modifies this
      ensures Valid() && items == old(items)
      ensures length == 0 || itemId in old(sizes) ==> sizes == old(sizes)
      ensures length != 0 && itemId !in old(sizes) ==> sizes == old(sizes)[itemId := length]
    {
      if length != 0 {
        if itemId !in sizes {
          sizes := sizes[itemId := length];
        }
      }
    }

    /** `add_items`: each snapshot added in turn. Afterwards each of them
        is stored as its item row (`rows[j]` for `batch[j]`), a snapshot
        with a non-zero length has a size for that row, the item table has
        grown only by rows of the batch, and a size that is new belongs to
        a row of the batch and holds the first non-zero length given for
        it (`INSERT OR IGNORE`). */
    method AddItems(batch: seq<Items.Item>) returns (ghost rows: seq<ItemRow>)
      requires Valid()
      modifies this, urls, digests, mimeTypes
      ensures Valid()
      ensures old(items) <= items && Extends(old(sizes), sizes)
      ensures |rows| == |batch|
      ensures forall j :: 0 <= j < |batch| ==>
        Interned(urls.rows, digests.rows, mimeTypes.rows, batch[j])
        && rows[j] == RowIn(urls.rows, digests.rows, mimeTypes.rows, batch[j]) && rows[j] in items
      ensures forall j, k :: 0 <= j < |batch| && 0 <= k < |items| && items[k] == rows[j] && batch[j].length != 0 ==>
        k + 1 in sizes
      ensures forall k :: |old(items)| <= k < |items| ==> items[k] in rows
      ensures forall id :: id in sizes && id !in old(sizes) ==>
        1 <= id <= |items| && FirstLength(batch, rows, items[id - 1]) == Some(sizes[id])
    {
      rows := [];
      for i := 0 to |batch|
        invariant Valid() && old(items) <= items && Extends(old(sizes), sizes)
        invariant Done(urls.rows, digests.rows, mimeTypes.rows, items, sizes, batch, i, rows, old(items))
        invariant Sized(items, sizes, batch, rows, old(sizes))
      {
        ghost var sizesBefore := sizes;
        rows := AddNext(batch, i, rows, old(items), old(sizes));
        ExtendsTransitive(old(sizes), sizesBefore, sizes);
      }
      DoneAll(urls.rows, digests.rows, mimeTypes.rows, items, sizes, batch, rows, old(items), old(sizes));
    }

    /** The turn of `add_items` for `batch[i]`: the snapshots before it
        stay stored with their sizes, and it is stored too. */
    method AddNext(batch: seq<Items.Item>, i: nat, ghost rows: seq<ItemRow>, ghost items0: seq<ItemRow>,
                   ghost sizes0: map<nat, U32>)
      returns (ghost rows': seq<ItemRow>)
      requires Valid() && i < |batch| && items0 <= items
      requires Done(urls.rows, digests.rows, mimeTypes.rows, items, sizes, batch, i, rows, items0)
      requires Sized(items, sizes, batch, rows, sizes0)
      modifies this, urls, digests, mimeTypes
      ensures Valid()
      ensures old(items) <= items && Extends(old(sizes), sizes)
      ensures Done(urls.rows, digests.rows, mimeTypes.rows, items, sizes, batch, i + 1, rows', items0)
      ensures Sized(items, sizes, batch, rows', sizes0)
    {
      ghost var u, d, m := urls.rows, digests.rows, mimeTypes.rows;
      var itemId := AddItem(batch[i]);
      if sizes != old(sizes) {
        NewSizeExtends(old(sizes), itemId, batch[i].length);
      }
      rows' := rows + [RowIn(urls.rows, digests.rows, mimeTypes.rows, batch[i])];
      DoneStep(u, d, m, old(items), old(sizes), urls.rows, digests.rows, mimeTypes.rows, items, sizes,
               batch, i, rows, items0, itemId);
      SizedStep(old(items), old(sizes), items, sizes, batch, i, rows, sizes0, itemId, rows'[i]);
    }

    /** The snapshot listed for item row `k`: its values joined in, and its
        size as the length. */
    function Resolve(k: nat): (item: Items.Item)
      reads this, urls, digests, mimeTypes
      requires Valid() && k < |items| && k + 1 in sizes
      ensures item.length != 0
    {
      var row := items[k];
      Items.Item(urls.rows[row.urlId - 1], row.timestamp, digests.rows[row.digestId - 1],
                 mimeTypes.rows[row.mimeTypeId - 1], sizes[k + 1], row.status)
    }

    /** The snapshots listed for the first `n` item rows: only rows with a
        size, as the listing joins the size table. */
    function Listing(n: nat): (listed: seq<Items.Item>)
      reads this, urls, digests, mimeTypes
      requires Valid() && n <= |items|
      ensures forall x :: x in listed <==> exists k :: 0 <= k < n && k + 1 in sizes && x == Resolve(k)
    {
      if n == 0 then []
      else
        var earlier := Listing(n - 1);
        if n in sizes then earlier + [Resolve(n - 1)] else earlier
    }

    /** `for_each_item`: the snapshots handed to the callback, in row
        order. */
    function ForEachItem(): (listed: seq<Items.Item>)
      reads this, urls, digests, mimeTypes
      requires Valid()
      ensures forall x :: x in listed ==> x.length != 0
      ensures forall k :: 0 <= k < |items| && k + 1 in sizes ==> Resolve(k) in listed
    {
      Listing(|items|)
    }
  }

  /** The sizes recorded in `older` are all still recorded in `newer`. */
  predicate Extends(older: map<nat, U32>, newer: map<nat, U32>) {
    forall id :: id in older ==> id in newer && newer[id] == older[id]
  }

  lemma ExtendsTransitive(a: map<nat, U32>, b: map<nat, U32>, c: map<nat, U32>)
    requires Extends(a, b) && Extends(b, c)
    ensures Extends(a, c)
  {
  }

  lemma NewSizeExtends(m: map<nat, U32>, id: nat, size: U32)
    requires id !in m
    ensures Extends(m, m[id := size])
  {
  }

  /** Whether a snapshot's URL, digest and MIME type are all interned. */
  predicate Interned(urls: seq<string>, digests: seq<string>, mimeTypes: seq<string>, item: Items.Item) {
    item.url in urls && item.digest in digests && item.mimeType in mimeTypes
  }

  /** The item row of a snapshot whose values are interned. */
  function RowIn(urls: seq<string>, digests: seq<string>, mimeTypes: seq<string>, item: Items.Item): ItemRow
    requires Interned(urls, digests, mimeTypes, item)
  {
    ItemRow(Index.IdOf(urls, item.url), item.archivedAt, Index.IdOf(digests, item.digest),
            Index.IdOf(mimeTypes, item.mimeType), item.status)
  }

  /** Tables that only had values appended give a snapshot the same row. */
  lemma RowInStable(u: seq<string>, u': seq<string>, d: seq<string>, d': seq<string>,
                    m: seq<string>, m': seq<string>, item: Items.Item)
    requires Interned(u, d, m, item)
    requires u <= u' && d <= d' && m <= m'
    ensures Interned(u', d', m', item) && RowIn(u', d', m', item) == RowIn(u, d, m, item)
  {
    IdOfStable(u, u', item.url);
    IdOfStable(d, d', item.digest);
    IdOfStable(m, m', item.mimeType);
  }

  /** The length `INSERT OR IGNORE` leaves for `row` after the snapshots of
      the batch stored as `rows`: that of the first one stored as `row` with
      a non-zero length, if any. */
  function FirstLength(batch: seq<Items.Item>, rows: seq<ItemRow>, row: ItemRow): Option<U32>
    requires |rows| <= |batch|
  {
    if rows == [] then None
    else
      var n := |rows| - 1;
      var earlier := FirstLength(batch, rows[..n], row);
      if earlier.None? && rows[n] == row && batch[n].length != 0 then Some(batch[n].length) else earlier
  }

  /** `FirstLength` leaves a length exactly when some snapshot stored as
      `row` has a non-zero length, and then it is the first such length. */
  lemma {:induction false} FirstLengthSpec(batch: seq<Items.Item>, rows: seq<ItemRow>, row: ItemRow)
    requires |rows| <= |batch|
    ensures FirstLength(batch, rows, row).Some? <==> exists j :: 0 <= j < |rows| && rows[j] == row && batch[j].length != 0
    ensures FirstLength(batch, rows, row).Some? ==>
      exists j :: && 0 <= j < |rows| && rows[j] == row && batch[j].length == FirstLength(batch, rows, row).value != 0
                  && forall i :: 0 <= i < j && rows[i] == row ==> batch[i].length == 0
  {
    if rows != [] {
      var n := |rows| - 1;
      FirstLengthSpec(batch, rows[..n], row);
      assert forall j :: 0 <= j < n ==> rows[..n][j] == rows[j];
    }
  }

  /** The state of `add_items` after the first `n` snapshots of the batch,
      stored as `rows`, given the value tables, the item table and the
      sizes; `items0` is the item table before the batch. */
  ghost predicate Done(u: seq<string>, d: seq<string>, m: seq<string>, items: seq<ItemRow>, sizes: map<nat, U32>,
                       batch: seq<Items.Item>, n: nat, rows: seq<ItemRow>, items0: seq<ItemRow>)
  {
    && n <= |batch| && |rows| == n && items0 <= items
    && (forall j :: 0 <= j < n ==> Interned(u, d, m, batch[j]) && rows[j] == RowIn(u, d, m, batch[j]) && rows[j] in items)
    && (forall j, k :: 0 <= j < n && 0 <= k < |items| && items[k] == rows[j] && batch[j].length != 0 ==> k + 1 in sizes)
    && (forall k :: |items0| <= k < |items| ==> items[k] in rows)
  }

  /** The sizes added since `sizes0` by the snapshots of the batch stored
      as `rows`: each belongs to an item row and is the first non-zero
      length given for it. */
  ghost predicate Sized(items: seq<ItemRow>, sizes: map<nat, U32>, batch: seq<Items.Item>, rows: seq<ItemRow>,
                        sizes0: map<nat, U32>)
  {
    && |rows| <= |batch|
    && forall id :: id in sizes && id !in sizes0 ==>
         1 <= id <= |items| && FirstLength(batch, rows, items[id - 1]) == Some(sizes[id])
  }

  /** What `Done` says once the whole batch is added. */
  lemma DoneAll(u: seq<string>, d: seq<string>, m: seq<string>, items: seq<ItemRow>, sizes: map<nat, U32>,
                batch: seq<Items.Item>, rows: seq<ItemRow>, items0: seq<ItemRow>, sizes0: map<nat, U32>)
    requires Done(u, d, m, items, sizes, batch, |batch|, rows, items0) && Sized(items, sizes, batch, rows, sizes0)
    ensures |rows| == |batch|
    ensures forall j :: 0 <= j < |batch| ==>
      Interned(u, d, m, batch[j]) && rows[j] == RowIn(u, d, m, batch[j]) && rows[j] in items
    ensures forall j, k :: 0 <= j < |batch| && 0 <= k < |items| && items[k] == rows[j] && batch[j].length != 0 ==>
      k + 1 in sizes
    ensures forall k :: |items0| <= k < |items| ==> items[k] in rows
    ensures forall id :: id in sizes && id !in sizes0 ==>
      1 <= id <= |items| && FirstLength(batch, rows, items[id - 1]) == Some(sizes[id])
  {
  }

  /** One turn of `add_items`: with the tables and sizes only grown, the
      snapshots before keep their rows and sizes, and the next one is
      stored, with a size when its length is not zero. */
  lemma DoneStep(u: seq<string>, d: seq<string>, m: seq<string>, items: seq<ItemRow>, sizes: map<nat, U32>,
                 u': seq<string>, d': seq<string>, m': seq<string>, items': seq<ItemRow>, sizes': map<nat, U32>,
                 batch: seq<Items.Item>, n: nat, rows: seq<ItemRow>, items0: seq<ItemRow>, itemId: nat)
    requires n < |batch| && Done(u, d, m, items, sizes, batch, n, rows, items0)
    requires u <= u' && d <= d' && m <= m' && Extends(sizes, sizes')
    requires Interned(u', d', m', batch[n])
    requires items' == items || (RowIn(u', d', m', batch[n]) !in items && items' == items + [RowIn(u', d', m', batch[n])])
    requires 1 <= itemId <= |items'| && items'[itemId - 1] == RowIn(u', d', m', batch[n])
    requires forall k :: 0 <= k < |items'| && items'[k] == items'[itemId - 1] ==> k == itemId - 1
    requires batch[n].length != 0 ==> itemId in sizes'
    ensures Done(u', d', m', items', sizes', batch, n + 1, rows + [RowIn(u', d', m', batch[n])], items0)
  {
    var row := RowIn(u', d', m', batch[n]);
    var rows' := rows + [row];
    assert items <= items';
    forall j | 0 <= j < n + 1
      ensures Interned(u', d', m', batch[j]) && rows'[j] == RowIn(u', d', m', batch[j]) && rows'[j] in items'
    {
      if j < n {
        RowInStable(u, u', d, d', m, m', batch[j]);
      }
    }
    forall j, k | 0 <= j < n + 1 && 0 <= k < |items'| && items'[k] == rows'[j] && batch[j].length != 0
      ensures k + 1 in sizes'
    {
      if j == n {
        assert k == itemId - 1;
      } else {
        assert rows[j] in items;
        assert k < |items|;
        assert items[k] == rows[j];
      }
    }
    forall k | |items0| <= k < |items'|
      ensures items'[k] in rows'
    {
      if k < |items| {
        assert items'[k] == items[k];
      }
    }
  }

  /** The sizes of one turn of `add_items`: a size added now is the first
      non-zero length of its row, since an earlier one would have been
      recorded already. */
  lemma SizedStep(items: seq<ItemRow>, sizes: map<nat, U32>, items': seq<ItemRow>, sizes': map<nat, U32>,
                  batch: seq<Items.Item>, n: nat, rows: seq<ItemRow>, sizes0: map<nat, U32>, itemId: nat, row: ItemRow)
    requires n < |batch| && |rows| == n && items <= items'
    requires 1 <= itemId <= |items'| && items'[itemId - 1] == row
    requires forall k :: 0 <= k < |items'| && items'[k] == row ==> k == itemId - 1
    requires forall j :: 0 <= j < n ==> rows[j] in items
    requires forall j, k :: 0 <= j < n && 0 <= k < |items| && items[k] == rows[j] && batch[j].length != 0 ==> k + 1 in sizes
    requires Sized(items, sizes, batch, rows, sizes0)
    requires sizes' == sizes || (itemId !in sizes && batch[n].length != 0 && sizes' == sizes[itemId := batch[n].length])
    ensures Sized(items', sizes', batch, rows + [row], sizes0)
  {
    forall id | id in sizes' && id !in sizes0
      ensures 1 <= id <= |items'| && FirstLength(batch, rows + [row], items'[id - 1]) == Some(sizes'[id])
    {
      if id in sizes {
        assert items'[id - 1] == items[id - 1];
        FirstLengthSnoc(batch, rows, row, items[id - 1]);
      } else {
        forall j | 0 <= j < n && rows[j] == row
          ensures batch[j].length == 0
        {
          var k :| 0 <= k < |items| && items[k] == rows[j];
          assert k == itemId - 1;
        }
        FirstLengthSpec(batch, rows, row);
        FirstLengthSnoc(batch, rows, row, row);
      }
    }
  }

  /** One more stored snapshot changes the length left for `x` only when
      none was left before. */
  lemma FirstLengthSnoc(batch: seq<Items.Item>, rows: seq<ItemRow>, row: ItemRow, x: ItemRow)
    requires |rows| < |batch|
    ensures FirstLength(batch, rows + [row], x)
      == if FirstLength(batch, rows, x).None? && row == x && batch[|rows|].length != 0
         then Some(batch[|rows|].length) else FirstLength(batch, rows, x)
  {
    assert (rows + [row])[..|rows|] == rows;
  }

  /** Appending rows keeps the first occurrence of a stored row. */
  lemma FindStable<T>(s: seq<T>, s': seq<T>, v: T)
    requires v in s && s <= s'
    ensures Index.Find(s', v) == Index.Find(s, v)
  {
    var k := Index.Find(s, v).value;
    assert s'[k] == v;
    assert forall i :: 0 <= i < k ==> s'[i] == s[i];
  }

  /** Appending values to a table keeps the ids of those it held. */
  lemma IdOfStable(rows: seq<string>, more: seq<string>, v: string)
    requires v in rows && rows <= more
    ensures v in more && Index.IdOf(more, v) == Index.IdOf(rows, v)
  {
    FindStable(rows, more, v);
  }

  /** A snapshot added with a non-zero length to a row that had no size
      yet is listed with all its fields. */
  lemma AddedItemListed(store: ItemStore, item: Items.Item, itemId: nat)
    requires store.Valid()
    requires Interned(store.urls.rows, store.digests.rows, store.mimeTypes.rows, item)
    requires 1 <= itemId <= |store.items| && store.items[itemId - 1] == store.RowOf(item)
    requires itemId in store.sizes && store.sizes[itemId] == item.length
    ensures item in store.ForEachItem()
  {
    assert store.Resolve(itemId - 1) == item;
  }

  /** A stored snapshot whose row has a size is listed, with the size
      recorded first for its row as its length (`INSERT OR IGNORE` keeps
      the first one): after `add_items` this holds for every snapshot of
      the batch with a non-zero length. */
  lemma StoredItemListed(store: ItemStore, item: Items.Item, k: nat)
    requires store.Valid()
    requires Interned(store.urls.rows, store.digests.rows, store.mimeTypes.rows, item)
    requires k < |store.items| && store.items[k] == store.RowOf(item) && k + 1 in store.sizes
    ensures item.(length := store.sizes[k + 1]) in store.ForEachItem()
  {
    assert store.Resolve(k) == item.(length := store.sizes[k + 1]);
  }

  /** After `add_items`, a row that had no size before the batch and whose
      snapshots in the batch all had length zero still has no size. */
  lemma ZeroLengthUnsized(items: seq<ItemRow>, sizes: map<nat, U32>, sizes0: map<nat, U32>,
                          batch: seq<Items.Item>, rows: seq<ItemRow>, k: nat)
    requires |rows| == |batch| && k < |items| && k + 1 !in sizes0
    requires forall id :: id in sizes && id !in sizes0 ==>
      1 <= id <= |items| && FirstLength(batch, rows, items[id - 1]) == Some(sizes[id])
    requires forall j :: 0 <= j < |batch| && rows[j] == items[k] ==> batch[j].length == 0
    ensures k + 1 !in sizes
  {
    FirstLengthSpec(batch, rows, items[k]);
  }

  /** A row without a size is never listed, so a snapshot added with length
      zero (and never with another length) does not appear. */
  lemma UnsizedItemNotListed(store: ItemStore, k: nat)
    requires store.Valid() && k < |store.items| && k + 1 !in store.sizes
    requires forall j :: 0 <= j < |store.items| && j != k ==> store.items[j].urlId != store.items[k].urlId
    ensures forall x :: x in store.ForEachItem() ==> x.url != store.urls.rows[store.items[k].urlId - 1]
  {
    forall x | x in store.ForEachItem()
      ensures x.url != store.urls.rows[store.items[k].urlId - 1]
    {
      var j :| 0 <= j < |store.items| && j + 1 in store.sizes && x == store.Resolve(j);
      assert j != k;
      assert store.urls.Valid();
    }
  }
}
