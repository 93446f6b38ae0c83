/**
 * The snapshot index (`src/index/mod.rs`): URLs, digests and MIME types
 * are interned in value tables, and each snapshot is a row of the item
 * table. Adding a snapshot that shares URL, time and digest with a stored
 * row is decided by a fixed table. SQLite tables are sequences whose row
 * id is the position plus one, as rows are only ever appended.
 */
module Index {
  import opened Wrappers
  import opened Text
  import Util
  import Items

  /** The MIME type id of `warc/revisit` records. */
  const WARC_REVISIT_ID: nat := 1

  /** What adding a snapshot does given the stored row with the same URL,
      time and digest. */
  datatype OnExisting = Skip | Write | Overwrite | Ignore | Collision(id: nat)

  /** A row of the item table (the time column holds the epoch second of
      the date-time, which determines it). */
  datatype ItemRow = ItemRow(
    urlId: nat, timestamp: Util.DateTime, digestId: nat, mimeTypeId: nat, length: U32, status: Option<U16>)

  datatype AddOperationStats = AddOperationStats(
    skip: nat, write: nat, overwrite: nat, ignore: nat, collisions: set<(nat, Items.Item)>)

  predicate Distinct<T(==)>(s: seq<T>) {
    forall i, j :: 0 <= i < j < |s| ==> s[i] != s[j]
  }

  /** The position of the first occurrence of a value. */
  function Find<T(==)>(s: seq<T>, v: T): (r: Option<nat>)
    ensures r.None? <==> v !in s
    ensures r.Some? ==> r.value < |s| && s[r.value] == v && forall k :: 0 <= k < r.value ==> s[k] != v
  {
    if s == [] then None
    else if s[0] == v then Some(0)
    else match Find(s[1..], v)
      case None => None
      case Some(k) => Some(k + 1)
  }

  /** A value table: the values in row order; a value's id is its position
      plus one. */
  class Table {
    var rows: seq<string>

    ghost predicate Valid()
      reads this
    {
      Distinct(rows)
    }

    constructor ()
      ensures rows == [] && Valid()
    {
      rows := [];
    }

    /** `get_or_add`: the id of the value's row, the row being inserted
        when there is none. The id is the only one the value has. */
    method GetOrAdd(value: string) returns (id: nat)
      requires Valid()
      modifies this
      ensures Valid()
      ensures 1 <= id <= |rows| && rows[id - 1] == value
      ensures forall k :: 0 <= k < |rows| && rows[k] == value ==> k == id - 1
      ensures value in old(rows) ==> rows == old(rows)
      ensures value !in old(rows) ==> rows == old(rows) + [value] && id == |rows|
    {
      match Find(rows, value) {
        case Some(k) =>
          id := k + 1;
        case None =>
          rows := rows + [value];
          id := |rows|;
      }
    }
  }

  /** The first row with the given URL, time and digest, with its id. */
  function FirstMatch(rows: seq<ItemRow>, urlId: nat, timestamp: Util.DateTime, digestId: nat)
    : (r: Option<(nat, ItemRow)>)
    ensures r.None? <==> forall k :: 0 <= k < |rows| ==>
      !(rows[k].urlId == urlId && rows[k].timestamp == timestamp && rows[k].digestId == digestId)
    ensures r.Some? ==> 1 <= r.value.0 <= |rows| && rows[r.value.0 - 1] == r.value.1
    ensures r.Some? ==> r.value.1.urlId == urlId && r.value.1.timestamp == timestamp && r.value.1.digestId == digestId
  {
    if rows == [] then None
    else
      var last := rows[|rows| - 1];
      match FirstMatch(rows[..|rows| - 1], urlId, timestamp, digestId)
      case Some(m) => Some(m)
      case None =>
        if last.urlId == urlId && last.timestamp == timestamp && last.digestId == digestId
        then Some((|rows|, last)) else None
  }

  /** The decision for a new row given the stored one, if any. A MIME type
      mismatch keeps a stored revisit record and replaces one by a new
      revisit record; a status mismatch, or a MIME type mismatch without a
      revisit record, is a collision with the stored row; otherwise the
      shorter snapshot is kept (a longer new one is ignored, a shorter one
      overwrites) and an equal one is skipped. The revisit cases follow the
      branches of src/index/mod.rs:147-154, whose comments describe them the
      other way round. */
  function Decide(existing: Option<(nat, ItemRow)>, row: ItemRow): (d: OnExisting)
    ensures d == Write <==> existing.None?
    ensures d.Collision? <==> (existing.Some? && (
      || (existing.value.1.mimeTypeId != row.mimeTypeId
          && existing.value.1.mimeTypeId != WARC_REVISIT_ID && row.mimeTypeId != WARC_REVISIT_ID)
      || (existing.value.1.mimeTypeId == row.mimeTypeId && existing.value.1.status != row.status)))
    ensures d.Collision? ==> d.id == existing.value.0
    ensures d == Ignore <==> (existing.Some? && (
      || (existing.value.1.mimeTypeId != row.mimeTypeId && existing.value.1.mimeTypeId == WARC_REVISIT_ID)
      || (existing.value.1.mimeTypeId == row.mimeTypeId && existing.value.1.status == row.status
          && existing.value.1.length < row.length)))
    ensures d == Overwrite <==> (existing.Some? && (
      || (existing.value.1.mimeTypeId != row.mimeTypeId && existing.value.1.mimeTypeId != WARC_REVISIT_ID
          && row.mimeTypeId == WARC_REVISIT_ID)
      || (existing.value.1.mimeTypeId == row.mimeTypeId && existing.value.1.status == row.status
          && existing.value.1.length > row.length)))
    ensures d == Skip <==> (existing.Some? && existing.value.1.mimeTypeId == row.mimeTypeId
      && existing.value.1.status == row.status && existing.value.1.length == row.length)
  {
    match existing
    case None => Write
    case Some((id, stored)) =>
      if stored.mimeTypeId != row.mimeTypeId then
        if stored.mimeTypeId == WARC_REVISIT_ID then Ignore
        else if row.mimeTypeId == WARC_REVISIT_ID then Overwrite
        else Collision(id)
      else if stored.status != row.status then Collision(id)
      else if stored.length == row.length then Skip
      else if stored.length < row.length then Ignore
      else Overwrite
  }

  /** `check_existing`: the decision against the first stored row with the
      new row's URL, time and digest. */
  function CheckExisting(rows: seq<ItemRow>, row: ItemRow): (d: OnExisting)
    ensures d == Write <==> forall k :: 0 <= k < |rows| ==>
      !(rows[k].urlId == row.urlId && rows[k].timestamp == row.timestamp && rows[k].digestId == row.digestId)
    ensures d.Collision? ==>
      && 1 <= d.id <= |rows|
      && rows[d.id - 1].urlId == row.urlId && rows[d.id - 1].timestamp == row.timestamp
      && rows[d.id - 1].digestId == row.digestId
      && (rows[d.id - 1].mimeTypeId != row.mimeTypeId || rows[d.id - 1].status != row.status)
  {
    Decide(FirstMatch(rows, row.urlId, row.timestamp, row.digestId), row)
  }

  /** Whether a decision inserts the new row. */
  predicate Inserts(d: OnExisting) {
    d == Write || d == Overwrite
  }

  /** How many snapshots the statistics account for. */
  function Counted(stats: AddOperationStats): nat {
    stats.skip + stats.write + stats.overwrite + stats.ignore + |stats.collisions|
  }

  /** One snapshot's decision added to the statistics: its own counter
      goes up by one, or the collision joins the set. */
  function Tally(stats: AddOperationStats, decision: OnExisting, item: Items.Item): (r: AddOperationStats)
    ensures Counted(r) <= Counted(stats) + 1
    ensures r.write + r.overwrite == stats.write + stats.overwrite + (if Inserts(decision) then 1 else 0)
    ensures stats.collisions <= r.collisions <= stats.collisions + {(if decision.Collision? then decision.id else 0, item)}
  {
    match decision
    case Skip => stats.(skip := stats.skip + 1)
    case Write => stats.(write := stats.write + 1)
    case Overwrite => stats.(overwrite := stats.overwrite + 1)
    case Ignore => stats.(ignore := stats.ignore + 1)
    case Collision(id) => stats.(collisions := stats.collisions + {(id, item)})
  }

  /** A row written because nothing matched it is the match for that same
      row afterwards, so adding the same snapshot again is skipped. */
  lemma WrittenThenSkipped(rows: seq<ItemRow>, row: ItemRow)
    requires CheckExisting(rows, row) == Write
    ensures CheckExisting(rows + [row], row) == Skip
  {
    var rs := rows + [row];
    assert rs[..|rs| - 1] == rows;
  }

  /** The statistics of an empty batch. */
  const NoStats := AddOperationStats(0, 0, 0, 0, {})

  /** The statistics of a batch whose snapshots got the given decisions,
      counted one after another. */
  function TallyAll(decisions: seq<OnExisting>, items: seq<Items.Item>): AddOperationStats
    requires |decisions| == |items|
    decreases |decisions|
  {
    if decisions == [] then NoStats
    else
      var n := |decisions| - 1;
      Tally(TallyAll(decisions[..n], items[..n]), decisions[n], items[n])
  }

  /** How many decisions are `d`. */
  function CountOf(decisions: seq<OnExisting>, d: OnExisting): nat
    decreases |decisions|
  {
    if decisions == [] then 0
    else CountOf(decisions[..|decisions| - 1], d) + (if decisions[|decisions| - 1] == d then 1 else 0)
  }

  /** How many decisions are collisions. */
  function CollisionCount(decisions: seq<OnExisting>): nat
    decreases |decisions|
  {
    if decisions == [] then 0
    else CollisionCount(decisions[..|decisions| - 1]) + (if decisions[|decisions| - 1].Collision? then 1 else 0)
  }

  /** The collision set of a batch: each colliding snapshot with the id of
      the stored row. */
  function Collided(decisions: seq<OnExisting>, items: seq<Items.Item>): set<(nat, Items.Item)>
    requires |decisions| == |items|
  {
    set k | 0 <= k < |decisions| && decisions[k].Collision? :: (decisions[k].id, items[k])
  }

  lemma CollidedSnoc(decisions: seq<OnExisting>, items: seq<Items.Item>)
    requires |decisions| == |items| && decisions != []
    ensures var n := |decisions| - 1;
      Collided(decisions, items) == Collided(decisions[..n], items[..n]) +
        (if decisions[n].Collision? then {(decisions[n].id, items[n])} else {})
  {
    var n := |decisions| - 1;
    var whole, init := Collided(decisions, items), Collided(decisions[..n], items[..n]);
    var last: set<(nat, Items.Item)> := if decisions[n].Collision? then {(decisions[n].id, items[n])} else {};
    forall c | c in whole
      ensures c in init + last
    {
      var k :| 0 <= k < |decisions| && decisions[k].Collision? && c == (decisions[k].id, items[k]);
      if k < n {
        assert decisions[..n][k] == decisions[k] && items[..n][k] == items[k];
      }
    }
    forall c | c in init
      ensures c in whole
    {
      var k :| 0 <= k < n && decisions[..n][k].Collision? && c == (decisions[..n][k].id, items[..n][k]);
      assert decisions[..n][k] == decisions[k] && items[..n][k] == items[k];
    }
  }

  /** Each snapshot of a batch raises exactly the counter of its own
      decision, and the collision set holds exactly the colliding
      snapshots with the ids of the stored rows they collide with. */
  lemma {:induction false} TallyAllCounts(decisions: seq<OnExisting>, items: seq<Items.Item>)
    requires |decisions| == |items|
    ensures var stats := TallyAll(decisions, items);
      && stats.skip == CountOf(decisions, Skip)
      && stats.write == CountOf(decisions, Write)
      && stats.overwrite == CountOf(decisions, Overwrite)
      && stats.ignore == CountOf(decisions, Ignore)
      && stats.collisions == Collided(decisions, items)
    decreases |decisions|
  {
    if decisions != [] {
      var n := |decisions| - 1;
      TallyAllCounts(decisions[..n], items[..n]);
      CollidedSnoc(decisions, items);
    }
  }

  /** Every decision is of exactly one kind, so the four counters and the
      collisions add up to the size of the batch. */
  lemma {:induction false} KindsPartition(decisions: seq<OnExisting>)
    ensures CountOf(decisions, Skip) + CountOf(decisions, Write) + CountOf(decisions, Overwrite)
      + CountOf(decisions, Ignore) + CollisionCount(decisions) == |decisions|
    decreases |decisions|
  {
    if decisions != [] {
      KindsPartition(decisions[..|decisions| - 1]);
    }
  }

  /** There are no more collisions in the set than colliding decisions
      (two equal collisions are one). */
  lemma {:induction false} CollidedCount(decisions: seq<OnExisting>, items: seq<Items.Item>)
    requires |decisions| == |items|
    ensures |Collided(decisions, items)| <= CollisionCount(decisions)
    decreases |decisions|
  {
    if decisions != [] {
      var n := |decisions| - 1;
      CollidedCount(decisions[..n], items[..n]);
      CollidedSnoc(decisions, items);
    }
  }

  /** The statistics account for every snapshot of the batch at most once,
      and exactly once when no two collisions are equal. */
  lemma CountedBound(decisions: seq<OnExisting>, items: seq<Items.Item>)
    requires |decisions| == |items|
    ensures Counted(TallyAll(decisions, items)) <= |items|
  {
    TallyAllCounts(decisions, items);
    KindsPartition(decisions);
    CollidedCount(decisions, items);
  }

  /** The decisions of a batch and the item table after it. */
  datatype Batch = Batch(decisions: seq<OnExisting>, stored: seq<ItemRow>)

  /** Reference definition of `add_items` on the item table: each row is
      decided against the rows stored before it, those of the same batch
      included, and appended when the decision inserts it. */
  function Run(before: seq<ItemRow>, rows: seq<ItemRow>): (r: Batch)
    ensures |r.decisions| == |rows|
    ensures before <= r.stored
    decreases |rows|
  {
    if rows == [] then Batch([], before)
    else
      var n := |rows| - 1;
      var prior := Run(before, rows[..n]);
      var d := CheckExisting(prior.stored, rows[n]);
      Batch(prior.decisions + [d], if Inserts(d) then prior.stored + [rows[n]] else prior.stored)
  }

  /** The item table grows by one row per `Write` and `Overwrite`. */
  lemma {:induction false} RunGrowth(before: seq<ItemRow>, rows: seq<ItemRow>)
    ensures var r := Run(before, rows);
      |r.stored| == |before| + CountOf(r.decisions, Write) + CountOf(r.decisions, Overwrite)
    decreases |rows|
  {
    if rows != [] {
      var n := |rows| - 1;
      RunGrowth(before, rows[..n]);
      var r := Run(before, rows);
      assert r.decisions[..n] == Run(before, rows[..n]).decisions;
    }
  }

  /** One more row is decided against the rows stored so far. */
  lemma RunSnoc(before: seq<ItemRow>, rows: seq<ItemRow>, row: ItemRow)
    ensures var prior := Run(before, rows);
      var d := CheckExisting(prior.stored, row);
      Run(before, rows + [row]) ==
        Batch(prior.decisions + [d], if Inserts(d) then prior.stored + [row] else prior.stored)
  {
    assert (rows + [row])[..|rows|] == rows;
  }

  /** One more decision is tallied on top of the earlier ones. */
  lemma TallyAllSnoc(decisions: seq<OnExisting>, items: seq<Items.Item>, d: OnExisting, item: Items.Item)
    requires |decisions| == |items|
    ensures TallyAll(decisions + [d], items + [item]) == Tally(TallyAll(decisions, items), d, item)
  {
    assert (decisions + [d])[..|decisions|] == decisions;
    assert (items + [item])[..|items|] == items;
  }

  /** Decision `k` of a batch is the one taken against the rows stored
      after the first `k` rows. */
  lemma {:induction false} RunDecision(before: seq<ItemRow>, rows: seq<ItemRow>, k: nat)
    requires k < |rows|
    ensures Run(before, rows).decisions[k] == CheckExisting(Run(before, rows[..k]).stored, rows[k])
    decreases |rows|
  {
    var n := |rows| - 1;
    if k < n {
      RunDecision(before, rows[..n], k);
      assert rows[..n][..k] == rows[..k];
    } else {
      assert rows[..k] == rows[..n];
    }
  }

  /** A row repeated later in the same batch, after being written, is
      skipped. */
  lemma RunRepeatSkipped(before: seq<ItemRow>, row: ItemRow)
    requires CheckExisting(before, row) == Write
    ensures Run(before, [row, row]).decisions == [Write, Skip]
  {
    var first := Run(before, [row]);
    assert first.decisions == [Write] && first.stored == before + [row] by {
      RunSnoc(before, [], row);
      assert [] + [row] == [row];
    }
    WrittenThenSkipped(before, row);
    RunSnoc(before, [row], row);
    assert [row] + [row] == [row, row];
  }

  /** Appending rows never changes which stored row matches first. */
  lemma {:induction false} FirstMatchStable(rows: seq<ItemRow>, more: seq<ItemRow>, urlId: nat,
                                            timestamp: Util.DateTime, digestId: nat)
    requires FirstMatch(rows, urlId, timestamp, digestId).Some?
    ensures FirstMatch(rows + more, urlId, timestamp, digestId) == FirstMatch(rows, urlId, timestamp, digestId)
  {
    if more == [] {
      assert rows + more == rows;
    } else {
      var init := rows + more[..|more| - 1];
      FirstMatchStable(rows, more[..|more| - 1], urlId, timestamp, digestId);
      assert (rows + more)[..|rows + more| - 1] == init;
    }
  }

  /** The id a table gives a value it holds. */
  function IdOf(rows: seq<string>, v: string): (id: nat)
    requires v in rows
    ensures 1 <= id <= |rows| && rows[id - 1] == v
  {
    Find(rows, v).value + 1
  }

  /** A value table after `get_or_add`. */
  function Added(rows: seq<string>, v: string): (r: seq<string>)
    ensures v in r && rows <= r
    ensures v in rows ==> r == rows
  {
    if v in rows then rows else rows + [v]
  }

  /** `row` is the row of `item` given the value tables: its time, length
      and status, and the ids of its URL, digest and MIME type. */
  predicate Interned(row: ItemRow, item: Items.Item, urlRows: seq<string>, digestRows: seq<string>,
                     mimeRows: seq<string>) {
    && row.timestamp == item.archivedAt && row.length == item.length && row.status == item.status
    && 1 <= row.urlId <= |urlRows| && urlRows[row.urlId - 1] == item.url
    && 1 <= row.digestId <= |digestRows| && digestRows[row.digestId - 1] == item.digest
    && 1 <= row.mimeTypeId <= |mimeRows| && mimeRows[row.mimeTypeId - 1] == item.mimeType
  }

  /** Appending values to the tables keeps the ids of earlier rows. */
  lemma InternedGrows(row: ItemRow, item: Items.Item, urlRows: seq<string>, digestRows: seq<string>,
                      mimeRows: seq<string>, urlRows': seq<string>, digestRows': seq<string>, mimeRows': seq<string>)
    requires Interned(row, item, urlRows, digestRows, mimeRows)
    requires urlRows <= urlRows' && digestRows <= digestRows' && mimeRows <= mimeRows'
    ensures Interned(row, item, urlRows', digestRows', mimeRows')
  {
    assert urlRows'[row.urlId - 1] == urlRows[row.urlId - 1];
    assert digestRows'[row.digestId - 1] == digestRows[row.digestId - 1];
    assert mimeRows'[row.mimeTypeId - 1] == mimeRows[row.mimeTypeId - 1];
  }

  /** Every snapshot's URL and digest have a row and its MIME type is cached. */
  predicate Covers(items: seq<Items.Item>, urlRows: seq<string>, digestRows: seq<string>, mimes: map<string, nat>) {
    forall k :: 0 <= k < |items| ==>
      items[k].url in urlRows && items[k].digest in digestRows && items[k].mimeType in mimes
  }

  /** Interning one more snapshot keeps the earlier ones covered. */
  lemma CoversSnoc(items: seq<Items.Item>, item: Items.Item, urlRows: seq<string>, digestRows: seq<string>,
                   mimes: map<string, nat>, urlRows': seq<string>, digestRows': seq<string>, mimes': map<string, nat>)
    requires Covers(items, urlRows, digestRows, mimes)
    requires urlRows <= urlRows' && digestRows <= digestRows' && mimes.Keys <= mimes'.Keys
    requires item.url in urlRows' && item.digest in digestRows' && item.mimeType in mimes'
    ensures Covers(items + [item], urlRows', digestRows', mimes')
  {
    var t := items + [item];
    forall k | 0 <= k < |t|
      ensures t[k].url in urlRows' && t[k].digest in digestRows' && t[k].mimeType in mimes'
    {
      if k < |items| {
        assert t[k] == items[k];
        assert t[k].url in urlRows && t[k].digest in digestRows;
      }
    }
  }

  /** The state of `add_items` after the first `i` snapshots, stored as
      `rows`, given the item table, the value tables and the cache. */
  ghost predicate BatchState(items: seq<Items.Item>, i: nat, stats: AddOperationStats, rows: seq<ItemRow>,
                             before: seq<ItemRow>, itemRows: seq<ItemRow>, urlRows: seq<string>,
                             digestRows: seq<string>, mimeRows: seq<string>, mimes: map<string, nat>)
  {
    && i <= |items| && |rows| == i
    && (forall k :: 0 <= k < i ==> Interned(rows[k], items[k], urlRows, digestRows, mimeRows))
    && itemRows == Run(before, rows).stored
    && stats == TallyAll(Run(before, rows).decisions, items[..i])
    && Covers(items[..i], urlRows, digestRows, mimes)
  }

  /** One loop turn: the snapshot interned as `row`, decided against the
      stored rows and counted, keeps the state of `add_items`. */
  lemma BatchStep(items: seq<Items.Item>, i: nat, stats: AddOperationStats, rows: seq<ItemRow>,
                  before: seq<ItemRow>, itemRows: seq<ItemRow>, urlRows: seq<string>,
                  digestRows: seq<string>, mimeRows: seq<string>, mimes: map<string, nat>,
                  urlRows': seq<string>, digestRows': seq<string>, mimeRows': seq<string>, mimes': map<string, nat>,
                  row: ItemRow, decision: OnExisting)
    requires i < |items| && BatchState(items, i, stats, rows, before, itemRows, urlRows, digestRows, mimeRows, mimes)
    requires urlRows <= urlRows' && digestRows <= digestRows' && mimeRows <= mimeRows'
    requires mimes.Keys <= mimes'.Keys && items[i].mimeType in mimes'
    requires Interned(row, items[i], urlRows', digestRows', mimeRows')
    requires decision == CheckExisting(itemRows, row)
    ensures BatchState(items, i + 1, Tally(stats, decision, items[i]), rows + [row], before,
                       itemRows + (if Inserts(decision) then [row] else []), urlRows', digestRows', mimeRows', mimes')
  {
    var item := items[i];
    assert items[..i + 1] == items[..i] + [item];
    assert urlRows'[row.urlId - 1] == item.url && digestRows'[row.digestId - 1] == item.digest;
    CoversSnoc(items[..i], item, urlRows, digestRows, mimes, urlRows', digestRows', mimes');
    InternedSnoc(items, rows, row, urlRows, digestRows, mimeRows, urlRows', digestRows', mimeRows');
    RunStep(items, i, stats, rows, before, itemRows, row, decision);
  }

  /** One loop turn on the item table and the statistics. */
  lemma RunStep(items: seq<Items.Item>, i: nat, stats: AddOperationStats, rows: seq<ItemRow>,
                before: seq<ItemRow>, itemRows: seq<ItemRow>, row: ItemRow, decision: OnExisting)
    requires i < |items| && |rows| == i
    requires itemRows == Run(before, rows).stored
    requires stats == TallyAll(Run(before, rows).decisions, items[..i])
    requires decision == CheckExisting(itemRows, row)
    ensures itemRows + (if Inserts(decision) then [row] else []) == Run(before, rows + [row]).stored
    ensures Tally(stats, decision, items[i]) == TallyAll(Run(before, rows + [row]).decisions, items[..i + 1])
  {
    RunSnoc(before, rows, row);
    TallyStep(items, i, stats, Run(before, rows).decisions, Run(before, rows + [row]).decisions, decision);
  }

  lemma TallyStep(items: seq<Items.Item>, i: nat, stats: AddOperationStats, decisions: seq<OnExisting>,
                  decisions': seq<OnExisting>, decision: OnExisting)
    requires i < |items| && |decisions| == i && decisions' == decisions + [decision]
    requires stats == TallyAll(decisions, items[..i])
    ensures Tally(stats, decision, items[i]) == TallyAll(decisions', items[..i + 1])
  {
    TallyAllSnoc(decisions, items[..i], decision, items[i]);
    assert items[..i + 1] == items[..i] + [items[i]];
  }

  /** The rows of the first snapshots stay their rows as the tables grow,
      and the next snapshot's row is added. */
  lemma InternedSnoc(items: seq<Items.Item>, rows: seq<ItemRow>, row: ItemRow, urlRows: seq<string>,
                     digestRows: seq<string>, mimeRows: seq<string>, urlRows': seq<string>,
                     digestRows': seq<string>, mimeRows': seq<string>)
    requires |rows| < |items|
    requires forall k :: 0 <= k < |rows| ==> Interned(rows[k], items[k], urlRows, digestRows, mimeRows)
    requires urlRows <= urlRows' && digestRows <= digestRows' && mimeRows <= mimeRows'
    requires Interned(row, items[|rows|], urlRows', digestRows', mimeRows')
    ensures forall k :: 0 <= k < |rows| + 1 ==> Interned((rows + [row])[k], items[k], urlRows', digestRows', mimeRows')
  {
    forall k | 0 <= k < |rows| + 1
      ensures Interned((rows + [row])[k], items[k], urlRows', digestRows', mimeRows')
    {
      if k < |rows| {
        InternedGrows(rows[k], items[k], urlRows, digestRows, mimeRows, urlRows', digestRows', mimeRows');
      }
    }
  }

  /** `Store`: the value tables, the item table and the MIME type cache. */
  class Store {
    const urls: Table
    const digests: Table
    const mimeTypeTable: Table
    var itemRows: seq<ItemRow>
    var mimeTypes: map<string, nat>

    /** The tables are distinct and free of repeated values, and the cache
        maps each cached MIME type to its row id. */
    ghost predicate Valid()
      reads this, urls, digests, mimeTypeTable
    {
      && urls != digests && urls != mimeTypeTable && digests != mimeTypeTable
      && urls.Valid() && digests.Valid() && mimeTypeTable.Valid()
      && forall v :: v in mimeTypes ==>
           1 <= mimeTypes[v] <= |mimeTypeTable.rows| && mimeTypeTable.rows[mimeTypes[v] - 1] == v
    }

    /** `Store::new` on a fresh database: empty tables and cache. */
    constructor ()
      ensures Valid() && fresh(urls) && fresh(digests) && fresh(mimeTypeTable)
      ensures urls.rows == [] && digests.rows == [] && mimeTypeTable.rows == []
      ensures itemRows == [] && mimeTypes == map[]
    {
      urls := new Table();
      digests := new Table();
      mimeTypeTable := new Table();
      itemRows := [];
      mimeTypes := map[];
    }

    /** `get_mime_type_id`: a cached id without touching the table;
        otherwise `get_or_add` on the MIME type table, and the id is
        cached. */
    method GetMimeTypeId(value: string) returns (id: nat)
      requires Valid()
      modifies this, mimeTypeTable
      ensures Valid()
      ensures mimeTypes == old(mimeTypes)[value := id]
      ensures urls.rows == old(urls.rows) && digests.rows == old(digests.rows) && itemRows == old(itemRows)
      ensures value in old(mimeTypes) ==> id == old(mimeTypes[value]) && mimeTypeTable.rows == old(mimeTypeTable.rows)
      ensures mimeTypeTable.rows == Added(old(mimeTypeTable.rows), value)
      ensures value in mimeTypeTable.rows && id == IdOf(mimeTypeTable.rows, value)
    {
      if value in mimeTypes {
        id := mimeTypes[value];
      } else {
        id := mimeTypeTable.GetOrAdd(value);
        mimeTypes := mimeTypes[value := id];
      }
    }

    /** One turn of the `add_items` loop: the snapshot's URL, digest and
        MIME type are interned, the decision taken against the stored rows,
        and the row inserted when the decision is `Write` or `Overwrite`. */
    method AddItem(item: Items.Item) returns (decision: OnExisting)
      requires Valid()
      modifies this, urls, digests, mimeTypeTable
      ensures Valid()
      ensures urls.rows == Added(old(urls.rows), item.url)
      ensures digests.rows == Added(old(digests.rows), item.digest)
      ensures mimeTypeTable.rows == Added(old(mimeTypeTable.rows), item.mimeType)
      ensures mimeTypes == old(mimeTypes)[item.mimeType := IdOf(mimeTypeTable.rows, item.mimeType)]
      ensures var row := ItemRow(IdOf(urls.rows, item.url), item.archivedAt, IdOf(digests.rows, item.digest),
                                 IdOf(mimeTypeTable.rows, item.mimeType), item.length, item.status);
        && decision == CheckExisting(old(itemRows), row)
        && itemRows == old(itemRows) + (if Inserts(decision) then [row] else [])
    {
      var row := Intern(item);
      decision := CheckExisting(itemRows, row);
      if Inserts(decision) {
        itemRows := itemRows + [row];
      }
    }

    /** The three lookups of one turn: the row the snapshot is stored as. */
    method Intern(item: Items.Item) returns (row: ItemRow)
      requires Valid()
      modifies this, urls, digests, mimeTypeTable
      ensures Valid() && itemRows == old(itemRows)
      ensures urls.rows == Added(old(urls.rows), item.url)
      ensures digests.rows == Added(old(digests.rows), item.digest)
      ensures mimeTypeTable.rows == Added(old(mimeTypeTable.rows), item.mimeType)
      ensures mimeTypes == old(mimeTypes)[item.mimeType := IdOf(mimeTypeTable.rows, item.mimeType)]
      ensures row == ItemRow(IdOf(urls.rows, item.url), item.archivedAt, IdOf(digests.rows, item.digest),
                             IdOf(mimeTypeTable.rows, item.mimeType), item.length, item.status)
    {
      var urlId := urls.GetOrAdd(item.url);
      assert urlId == IdOf(urls.rows, item.url);
      var digestId := digests.GetOrAdd(item.digest);
      assert digestId == IdOf(digests.rows, item.digest);
      assert urls.rows == Added(old(urls.rows), item.url);
      var mimeTypeId := GetMimeTypeId(item.mimeType);
      row := ItemRow(urlId, item.archivedAt, digestId, mimeTypeId, item.length, item.status);
    }

    /** `add_items`: each snapshot is interned and decided against the rows
        stored before it, in order; the item table becomes that of `Run`
        and the statistics count the decisions. `rows` are the rows the
        snapshots are stored as. */
    method AddItems(items: seq<Items.Item>) returns (stats: AddOperationStats, ghost rows: seq<ItemRow>)
      requires Valid()
      modifies this, urls, digests, mimeTypeTable
      ensures Valid()
      ensures old(urls.rows) <= urls.rows && old(digests.rows) <= digests.rows
      ensures old(mimeTypeTable.rows) <= mimeTypeTable.rows
      ensures |rows| == |items|
      ensures forall k :: 0 <= k < |items| ==>
        Interned(rows[k], items[k], urls.rows, digests.rows, mimeTypeTable.rows)
      ensures itemRows == Run(old(itemRows), rows).stored
      ensures stats == TallyAll(Run(old(itemRows), rows).decisions, items)
      ensures Counted(stats) <= |items|
      ensures |itemRows| == |old(itemRows)| + stats.write + stats.overwrite
      ensures Covers(items, urls.rows, digests.rows, mimeTypes)
    {
      ghost var before := itemRows;
      ghost var urls0, digests0, mimes0 := urls.rows, digests.rows, mimeTypeTable.rows;
      stats := NoStats;
      rows := [];
      for i := 0 to |items|
        invariant Progress(items, i, stats, rows, before, urls0, digests0, mimes0)
      {
        stats, rows := AddCounted(items, i, stats, rows, before, urls0, digests0, mimes0);
      }
      assert items[..|items|] == items;
      CountedBound(Run(before, rows).decisions, items);
      TallyAllCounts(Run(before, rows).decisions, items);
      RunGrowth(before, rows);
    }

    /** The state of `add_items` after the first `i` snapshots, stored as
        `rows`. */
    ghost predicate Progress(items: seq<Items.Item>, i: nat, stats: AddOperationStats, rows: seq<ItemRow>,
                             before: seq<ItemRow>, urls0: seq<string>, digests0: seq<string>, mimes0: seq<string>)
      reads this, urls, digests, mimeTypeTable
    {
      && Valid() && urls0 <= urls.rows && digests0 <= digests.rows && mimes0 <= mimeTypeTable.rows
      && BatchState(items, i, stats, rows, before, itemRows, urls.rows, digests.rows, mimeTypeTable.rows, mimeTypes)
    }

    /** One turn of the `add_items` loop with its decision counted. */
    method AddCounted(items: seq<Items.Item>, i: nat, stats: AddOperationStats, ghost rows: seq<ItemRow>,
                      ghost before: seq<ItemRow>, ghost urls0: seq<string>, ghost digests0: seq<string>,
                      ghost mimes0: seq<string>)
      returns (next: AddOperationStats, ghost rows': seq<ItemRow>)
      requires i < |items| && Progress(items, i, stats, rows, before, urls0, digests0, mimes0)
      modifies this, urls, digests, mimeTypeTable
      ensures Progress(items, i + 1, next, rows', before, urls0, digests0, mimes0)
    {
      var item := items[i];
      ghost var stored, urlRows, digestRows, mimeRows, mimes :=
        itemRows, urls.rows, digests.rows, mimeTypeTable.rows, mimeTypes;
      var decision := AddItem(item);
      ghost var row := ItemRow(IdOf(urls.rows, item.url), item.archivedAt, IdOf(digests.rows, item.digest),
                               IdOf(mimeTypeTable.rows, item.mimeType), item.length, item.status);
      next := Tally(stats, decision, item);
      rows' := rows + [row];
      BatchStep(items, i, stats, rows, before, stored, urlRows, digestRows, mimeRows, mimes,
                urls.rows, digests.rows, mimeTypeTable.rows, mimeTypes, row, decision);
    }
  }
}
