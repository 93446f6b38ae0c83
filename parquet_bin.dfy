/**
 * The snapshot-URL sets of the `parquet` command's `to-db` mode: for each
 * digest, the list of (time, URL) pairs it was archived under, kept free
 * of duplicates in first-insertion order, and the merge operator the
 * key-value store calls to combine a stored set with a new one.
 *
 * The binary codec (`bincode`) is a pair of function parameters: `decode`
 * turns bytes into the list of a set, `encode` the list into bytes; either
 * may fail.
 */
module ParquetBin {
  import opened Wrappers
  import Util
  import Text

  type U8 = Text.U8

  datatype SnapshotUrl = SnapshotUrl(archivedAt: Util.DateTime, url: string)

  predicate Distinct(s: seq<SnapshotUrl>) {
    forall i, j :: 0 <= i < j < |s| ==> s[i] != s[j]
  }

  /** The list after `add`: the entry appended unless it is present
      already. */
  function Added(s: seq<SnapshotUrl>, x: SnapshotUrl): seq<SnapshotUrl> {
    if x in s then s else s + [x]
  }

  /** After `add`, `x` is a member, nothing else is added, what was there
      keeps its place, the list grows exactly when `x` was missing, and
      distinctness is kept. */
  lemma AddedSpec(s: seq<SnapshotUrl>, x: SnapshotUrl)
    ensures var r := Added(s, x);
      && x in r
      && (forall y :: y in r <==> y in s || y == x)
      && |s| <= |r| <= |s| + 1 && r[..|s|] == s
      && (|r| == |s| + 1 <==> x !in s)
      && (Distinct(s) ==> Distinct(r))
  {
  }

  /** The list after `add_all`: every entry of `other` added in order. */
  function AddedAll(s: seq<SnapshotUrl>, other: seq<SnapshotUrl>): seq<SnapshotUrl>
    decreases |other|
  {
    if other == [] then s else Added(AddedAll(s, other[..|other| - 1]), other[|other| - 1])
  }

  /** `add_all` yields the union of both sets, keeps the entries already
      present in front in their order, and never introduces a duplicate. */
  lemma AddedAllUnion(s: seq<SnapshotUrl>, other: seq<SnapshotUrl>)
    ensures var r := AddedAll(s, other);
      && (forall y :: y in r <==> y in s || y in other)
      && |s| <= |r| && r[..|s|] == s
      && (Distinct(s) ==> Distinct(r))
  {
    AddedAllMembers(s, other);
    AddedAllPrefix(s, other);
    if Distinct(s) {
      AddedAllDistinct(s, other);
    }
  }

  lemma {:induction false} AddedAllMembers(s: seq<SnapshotUrl>, other: seq<SnapshotUrl>)
    ensures forall y :: y in AddedAll(s, other) <==> y in s || y in other
    decreases |other|
  {
    if other != [] {
      var init, x := other[..|other| - 1], other[|other| - 1];
      AddedAllMembers(s, init);
      AddedSpec(AddedAll(s, init), x);
      assert other == init + [x];
    }
  }

  lemma {:induction false} AddedAllPrefix(s: seq<SnapshotUrl>, other: seq<SnapshotUrl>)
    ensures |s| <= |AddedAll(s, other)| && AddedAll(s, other)[..|s|] == s
    decreases |other|
  {
    if other != [] {
      var init, x := other[..|other| - 1], other[|other| - 1];
      AddedAllPrefix(s, init);
      var before := AddedAll(s, init);
      var r := Added(before, x);
      AddedSpec(before, x);
      assert r[..|s|] == r[..|before|][..|s|];
    }
  }

  lemma {:induction false} AddedAllDistinct(s: seq<SnapshotUrl>, other: seq<SnapshotUrl>)
    requires Distinct(s)
    ensures Distinct(AddedAll(s, other))
    decreases |other|
  {
    if other != [] {
      AddedAllDistinct(s, other[..|other| - 1]);
      AddedSpec(AddedAll(s, other[..|other| - 1]), other[|other| - 1]);
    }
  }

  /** Adding entries that are all present already changes nothing. */
  lemma {:induction false} AddedAllPresent(s: seq<SnapshotUrl>, other: seq<SnapshotUrl>)
    requires forall y :: y in other ==> y in s
    ensures AddedAll(s, other) == s
    decreases |other|
  {
    if other != [] {
      var init := other[..|other| - 1];
      assert forall y :: y in init ==> y in other;
      AddedAllPresent(s, init);
      assert other[|other| - 1] in other;
    }
  }

  /** Applying `add_all` with the same set a second time changes nothing. */
  lemma AddedAllIdempotent(s: seq<SnapshotUrl>, other: seq<SnapshotUrl>)
    ensures AddedAll(AddedAll(s, other), other) == AddedAll(s, other)
  {
    AddedAllUnion(s, other);
    AddedAllPresent(AddedAll(s, other), other);
  }

  /** Adding two sets one after the other is adding their concatenation. */
  lemma {:induction false} AddedAllConcat(s: seq<SnapshotUrl>, a: seq<SnapshotUrl>, b: seq<SnapshotUrl>)
    ensures AddedAll(AddedAll(s, a), b) == AddedAll(s, a + b)
    decreases |b|
  {
    if b == [] {
      assert a + b == a;
    } else {
      var init, x := b[..|b| - 1], b[|b| - 1];
      AddedAllConcat(s, a, init);
      var ab := a + b;
      assert ab[..|ab| - 1] == a + init && ab[|ab| - 1] == x;
    }
  }

  /** `SnapshotUrlSet`: the list of one digest's snapshots. */
  class SnapshotUrlSet {
    var snapshotUrls: seq<SnapshotUrl>

    predicate Valid()
      reads this
    {
      Distinct(snapshotUrls)
    }

    /** `singleton`: a set holding exactly the one given entry. */
    constructor Singleton(archivedAt: Util.DateTime, url: string)
      ensures snapshotUrls == [SnapshotUrl(archivedAt, url)]
      ensures Valid()
    {
      snapshotUrls := [SnapshotUrl(archivedAt, url)];
    }

    /** A set holding a decoded list as it is. */
    constructor FromList(s: seq<SnapshotUrl>)
      ensures snapshotUrls == s
    {
      snapshotUrls := s;
    }

    /** `add`: appends the entry unless it is present already. */
    method Add(x: SnapshotUrl)
      modifies this
      ensures snapshotUrls == Added(old(snapshotUrls), x)
      ensures old(Valid()) ==> Valid()
    {
      AddedSpec(snapshotUrls, x);
      if x !in snapshotUrls {
        snapshotUrls := snapshotUrls + [x];
      }
    }

    /** `add_all`: adds the entries of `other` one by one, in its order. */
    method AddAll(other: SnapshotUrlSet)
      modifies this
      ensures snapshotUrls == AddedAll(old(snapshotUrls), old(other.snapshotUrls))
      ensures old(Valid()) ==> Valid()
    {
      var entries := other.snapshotUrls;
      for i := 0 to |entries|
        invariant snapshotUrls == AddedAll(old(snapshotUrls), entries[..i])
      {
        assert entries[..i + 1][..i] == entries[..i];
        Add(entries[i]);
      }
      assert entries[..|entries|] == entries;
      AddedAllUnion(old(snapshotUrls), entries);
    }
  }

  /** The value `merge` leaves under a key: the new bytes when nothing is
      stored, the stored bytes when either value does not decode or the
      union does not encode, and otherwise the encoded union. It never
      deletes the key. */
  function MergedValue(oldValue: Option<seq<U8>>, mergedBytes: seq<U8>,
                       decode: seq<U8> -> Option<seq<SnapshotUrl>>,
                       encode: seq<SnapshotUrl> -> Option<seq<U8>>): (r: Option<seq<U8>>)
    ensures r.Some?
    ensures oldValue.None? ==> r.value == mergedBytes
    ensures oldValue.Some? && (decode(oldValue.value).None? || decode(mergedBytes).None?) ==> r == oldValue
    ensures oldValue.Some? && r != oldValue ==>
      decode(oldValue.value).Some? && decode(mergedBytes).Some? &&
      r == encode(AddedAll(decode(oldValue.value).value, decode(mergedBytes).value))
  {
    match oldValue
    case None => Some(mergedBytes)
    case Some(oldBytes) =>
      match (decode(oldBytes), decode(mergedBytes))
      case (Some(oldSet), Some(newSet)) =>
        var bytes := encode(AddedAll(oldSet, newSet));
        if bytes.Some? then bytes else oldValue
      case _ => oldValue
  }

  /** `merge`: decodes both sets, adds the new one to the stored one and
      encodes the result. */
  method Merge(oldValue: Option<seq<U8>>, mergedBytes: seq<U8>,
               decode: seq<U8> -> Option<seq<SnapshotUrl>>,
               encode: seq<SnapshotUrl> -> Option<seq<U8>>) returns (r: Option<seq<U8>>)
    ensures r == MergedValue(oldValue, mergedBytes, decode, encode)
  {
    if oldValue.None? {
      return Some(mergedBytes);
    }
    var decodedOld := decode(oldValue.value);
    if decodedOld.None? {
      return oldValue;
    }
    var decodedNew := decode(mergedBytes);
    if decodedNew.None? {
      return oldValue;
    }
    var oldSet := new SnapshotUrlSet.FromList(decodedOld.value);
    var newSet := new SnapshotUrlSet.FromList(decodedNew.value);
    oldSet.AddAll(newSet);
    var bytes := encode(oldSet.snapshotUrls);
    if bytes.Some? {
      r := bytes;
    } else {
      r := oldValue;
    }
  }

  /** The codec reads back whatever it wrote. */
  ghost predicate RoundTrips(decode: seq<U8> -> Option<seq<SnapshotUrl>>, encode: seq<SnapshotUrl> -> Option<seq<U8>>) {
    forall s :: encode(s).Some? ==> decode(encode(s).value) == Some(s)
  }

  /** With a codec that reads back what it writes, a stored set and a new
      set that decode merge into a value that decodes to their union, the
      stored entries first and in order, unless the union does not encode
      and the stored value is kept. */
  lemma MergeDecodesToUnion(oldSet: seq<SnapshotUrl>, newSet: seq<SnapshotUrl>, oldBytes: seq<U8>, mergedBytes: seq<U8>,
                            decode: seq<U8> -> Option<seq<SnapshotUrl>>, encode: seq<SnapshotUrl> -> Option<seq<U8>>)
    requires RoundTrips(decode, encode)
    requires decode(oldBytes) == Some(oldSet) && decode(mergedBytes) == Some(newSet)
    ensures var r := MergedValue(Some(oldBytes), mergedBytes, decode, encode).value;
      var merged := decode(r).value;
      && decode(r).Some?
      && (r == oldBytes || merged == AddedAll(oldSet, newSet))
      && (encode(AddedAll(oldSet, newSet)).Some? ==>
            && (forall y :: y in merged <==> y in oldSet || y in newSet)
            && |oldSet| <= |merged| && merged[..|oldSet|] == oldSet
            && (Distinct(oldSet) ==> Distinct(merged)))
  {
    AddedAllUnion(oldSet, newSet);
  }

  /** Merging the same new value a second time leaves the stored value as
      the first merge left it. */
  lemma MergeIdempotent(oldBytes: seq<U8>, mergedBytes: seq<U8>,
                        decode: seq<U8> -> Option<seq<SnapshotUrl>>, encode: seq<SnapshotUrl> -> Option<seq<U8>>)
    requires RoundTrips(decode, encode)
    ensures var once := MergedValue(Some(oldBytes), mergedBytes, decode, encode);
      MergedValue(once, mergedBytes, decode, encode) == once
  {
    var once := MergedValue(Some(oldBytes), mergedBytes, decode, encode);
    if once != Some(oldBytes) {
      var oldSet, newSet := decode(oldBytes).value, decode(mergedBytes).value;
      var union := AddedAll(oldSet, newSet);
      assert once == encode(union);
      AddedAllIdempotent(oldSet, newSet);
      assert decode(once.value) == Some(union);
    }
  }

  /** Two merges in sequence store what one merge of both new lists would,
      when every merge encodes. */
  lemma MergeSequence(oldSet: seq<SnapshotUrl>, first: seq<SnapshotUrl>, second: seq<SnapshotUrl>,
                      oldBytes: seq<U8>, firstBytes: seq<U8>, secondBytes: seq<U8>,
                      decode: seq<U8> -> Option<seq<SnapshotUrl>>, encode: seq<SnapshotUrl> -> Option<seq<U8>>)
    requires RoundTrips(decode, encode)
    requires decode(oldBytes) == Some(oldSet) && decode(firstBytes) == Some(first) && decode(secondBytes) == Some(second)
    requires forall s :: encode(s).Some?
    ensures var twice := MergedValue(MergedValue(Some(oldBytes), firstBytes, decode, encode), secondBytes, decode, encode);
      decode(twice.value) == Some(AddedAll(oldSet, first + second))
  {
    var once := MergedValue(Some(oldBytes), firstBytes, decode, encode);
    assert once == encode(AddedAll(oldSet, first));
    assert decode(once.value) == Some(AddedAll(oldSet, first));
    AddedAllConcat(oldSet, first, second);
  }
}
