/**
 * Sorting and de-duplication as the source uses them (`Vec::sort`,
 * `Vec::dedup`), generic over a strict order `lt` standing for `<` of a
 * type's `Ord` implementation.
 */
module Sorting {

  ghost predicate Irreflexive<T(!new)>(lt: (T, T) -> bool) {
    forall x :: !lt(x, x)
  }

  ghost predicate Transitive<T(!new)>(lt: (T, T) -> bool) {
    forall x, y, z :: lt(x, y) && lt(y, z) ==> lt(x, z)
  }

  ghost predicate Trichotomous<T(!new)>(lt: (T, T) -> bool) {
    forall x, y :: x == y || lt(x, y) || lt(y, x)
  }

  /** What a derived or hand-written `Ord` provides. */
  ghost predicate StrictTotalOrder<T(!new)>(lt: (T, T) -> bool) {
    Irreflexive(lt) && Transitive(lt) && Trichotomous(lt)
  }

  /** No element is smaller than an element before it. */
  predicate Sorted<T>(s: seq<T>, lt: (T, T) -> bool) {
    forall i, j :: 0 <= i < j < |s| ==> !lt(s[j], s[i])
  }

  /** Every element is smaller than every element after it. */
  predicate StrictlySorted<T>(s: seq<T>, lt: (T, T) -> bool) {
    forall i, j :: 0 <= i < j < |s| ==> lt(s[i], s[j])
  }

  /** Inserts `x` before the first element it is smaller than. */
  function Insert<T(==)>(x: T, s: seq<T>, lt: (T, T) -> bool): (r: seq<T>)
    ensures multiset(r) == multiset(s) + multiset{x}
    ensures |r| == |s| + 1
  {
    if s == [] || lt(x, s[0]) then [x] + s
    else
      assert s == [s[0]] + s[1..];
      [s[0]] + Insert(x, s[1..], lt)
  }

  /** `v.sort()`, here an insertion sort from the back. It is not stable (of two
      tied elements the earlier one ends up last), which cannot be seen with the
      orders it is used with: under `Items.ItemLt` and `StrLt` only equal values tie. */
  function Sort<T(==)>(s: seq<T>, lt: (T, T) -> bool): (r: seq<T>)
    ensures multiset(r) == multiset(s)
    ensures |r| == |s|
  {
    if s == [] then []
    else
      assert s == [s[0]] + s[1..];
      Insert(s[0], Sort(s[1..], lt), lt)
  }

  lemma {:induction false} InsertSorted<T(!new)>(x: T, s: seq<T>, lt: (T, T) -> bool)
    requires Irreflexive(lt) && Transitive(lt)
    requires Sorted(s, lt)
    ensures Sorted(Insert(x, s, lt), lt)
  {
    if s == [] || lt(x, s[0]) {
      var r := [x] + s;
      forall i, j | 0 <= i < j < |r|
        ensures !lt(r[j], r[i])
      {
        if i == 0 && j > 1 {
          assert !lt(s[j - 1], s[0]);
        } else if i == 0 {
          assert !lt(s[0], s[0]);
        }
      }
    } else {
      InsertSorted(x, s[1..], lt);
      var t := Insert(x, s[1..], lt);
      var r := [s[0]] + t;
      forall i, j | 0 <= i < j < |r|
        ensures !lt(r[j], r[i])
      {
        if i == 0 {
          assert r[j] in multiset(t);
          assert r[j] in multiset(s[1..]) + multiset{x};
          if r[j] != x {
            assert r[j] in s[1..];
          }
        }
      }
    }
  }

  /** The result of `Sort` is sorted and a permutation of its input. */
  lemma {:induction false} SortSorted<T(!new)>(s: seq<T>, lt: (T, T) -> bool)
    requires Irreflexive(lt) && Transitive(lt)
    ensures Sorted(Sort(s, lt), lt)
    ensures multiset(Sort(s, lt)) == multiset(s)
  {
    if s != [] {
      SortSorted(s[1..], lt);
      InsertSorted(s[0], Sort(s[1..], lt), lt);
    }
  }

  /** `v.dedup()`: drops every element equal to the one before it. */
  function Dedup<T(==)>(s: seq<T>): (r: seq<T>)
    ensures |r| <= |s|
    ensures s != [] ==> r != [] && r[0] == s[0]
  {
    if |s| <= 1 then s
    else if s[0] == s[1] then Dedup(s[1..])
    else [s[0]] + Dedup(s[1..])
  }

  /** `dedup` invents no value. */
  lemma {:induction false} DedupSubset<T>(s: seq<T>)
    ensures multiset(Dedup(s)) <= multiset(s)
  {
    if |s| > 1 {
      DedupSubset(s[1..]);
      assert s == [s[0]] + s[1..];
    }
  }

  /** `dedup` keeps every value. */
  lemma {:induction false} DedupKeeps<T>(s: seq<T>)
    ensures forall i :: 0 <= i < |s| ==> s[i] in Dedup(s)
  {
    if |s| > 1 {
      var tail := s[1..];
      DedupKeeps(tail);
      forall i | 1 <= i < |s|
        ensures s[i] in Dedup(s)
      {
        assert s[i] == tail[i - 1];
      }
    }
  }

  /** `dedup` leaves no two equal neighbours. */
  lemma {:induction false} DedupNoRepeats<T>(s: seq<T>)
    ensures forall i :: 0 <= i < |Dedup(s)| - 1 ==> Dedup(s)[i] != Dedup(s)[i + 1]
  {
    if |s| > 1 {
      var t := Dedup(s[1..]);
      DedupNoRepeats(s[1..]);
      if s[0] != s[1] {
        var r := [s[0]] + t;
        forall i | 0 <= i < |r| - 1
          ensures r[i] != r[i + 1]
        {
          if i > 0 {
            assert r[i] == t[i - 1] && r[i + 1] == t[i];
          }
        }
      }
    }
  }

  /** `dedup` ends with the input's last element. */
  lemma {:induction false} DedupLast<T>(s: seq<T>)
    requires s != []
    ensures Dedup(s)[|Dedup(s)| - 1] == s[|s| - 1]
  {
    if |s| > 1 {
      DedupLast(s[1..]);
    }
  }

  /** One more element is kept by `dedup` exactly when it differs from the
      element before it. */
  lemma {:induction false} DedupSnoc<T>(s: seq<T>, x: T)
    ensures s != [] && s[|s| - 1] == x ==> Dedup(s + [x]) == Dedup(s)
    ensures s == [] || s[|s| - 1] != x ==> Dedup(s + [x]) == Dedup(s) + [x]
  {
    if |s| >= 2 {
      DedupSnoc(s[1..], x);
      assert (s + [x])[1..] == s[1..] + [x];
    } else if |s| == 1 {
      assert (s + [x])[1..] == [x];
    }
  }

  /** Sorting then de-duplicating under a total order gives a strictly
      increasing sequence: each value exactly once, in order. */
  lemma {:induction false} DedupStrictlySorted<T(!new)>(s: seq<T>, lt: (T, T) -> bool)
    requires StrictTotalOrder(lt)
    requires Sorted(s, lt)
    ensures StrictlySorted(Dedup(s), lt)
  {
    if |s| > 1 {
      DedupStrictlySorted(s[1..], lt);
      if s[0] != s[1] {
        var t := Dedup(s[1..]);
        assert lt(s[0], s[1]);
        assert t[0] == s[1];
        var r := [s[0]] + t;
        forall i, j | 0 <= i < j < |r|
          ensures lt(r[i], r[j])
        {
          if i == 0 && j > 1 {
            assert lt(t[0], t[j - 1]);
          }
        }
      }
    }
  }

  /** Sorting then de-duplicating keeps exactly the input's values, each once. */
  lemma SortDedup<T(!new)>(s: seq<T>, lt: (T, T) -> bool)
    requires StrictTotalOrder(lt)
    ensures StrictlySorted(Dedup(Sort(s, lt)), lt)
    ensures forall i :: 0 <= i < |s| ==> s[i] in Dedup(Sort(s, lt))
    ensures multiset(Dedup(Sort(s, lt))) <= multiset(s)
  {
    var t := Sort(s, lt);
    SortSorted(s, lt);
    DedupStrictlySorted(t, lt);
    DedupSubset(t);
    DedupKeeps(t);
    forall i | 0 <= i < |s|
      ensures s[i] in t
    {
      assert s[i] in multiset(s);
    }
  }

  /** In a strictly sorted sequence no value occurs twice. */
  lemma StrictlySortedDistinct<T(!new)>(s: seq<T>, lt: (T, T) -> bool)
    requires Irreflexive(lt)
    requires StrictlySorted(s, lt)
    ensures forall i, j :: 0 <= i < j < |s| ==> s[i] != s[j]
  {
    forall i, j | 0 <= i < j < |s|
      ensures s[i] != s[j]
    {
      assert lt(s[i], s[j]);
    }
  }

  // ------------------------------------------------------ string ordering

  /** `Ord` for `String`: lexicographic on code points (which is the order
      of the UTF-8 bytes Rust compares). */
  predicate StrLt(a: string, b: string) {
    if a == [] then b != []
    else if b == [] then false
    else if a[0] != b[0] then a[0] < b[0]
    else StrLt(a[1..], b[1..])
  }

  lemma {:induction false} StrLtIrreflexive(a: string)
    ensures !StrLt(a, a)
  {
    if a != [] {
      StrLtIrreflexive(a[1..]);
    }
  }

  lemma {:induction false} StrLtTransitive(a: string, b: string, c: string)
    requires StrLt(a, b) && StrLt(b, c)
    ensures StrLt(a, c)
  {
    if a != [] && b != [] && c != [] && a[0] == b[0] && b[0] == c[0] {
      StrLtTransitive(a[1..], b[1..], c[1..]);
    }
  }

  lemma {:induction false} StrLtTrichotomous(a: string, b: string)
    ensures a == b || StrLt(a, b) || StrLt(b, a)
  {
    if a != [] && b != [] && a[0] == b[0] {
      StrLtTrichotomous(a[1..], b[1..]);
      if a[1..] == b[1..] {
        assert a == [a[0]] + a[1..] && b == [b[0]] + b[1..];
      }
    }
  }

  lemma StrLtTotal()
    ensures StrictTotalOrder(StrLt)
  {
    forall a
      ensures !StrLt(a, a)
    {
      StrLtIrreflexive(a);
    }
    forall a, b, c | StrLt(a, b) && StrLt(b, c)
      ensures StrLt(a, c)
    {
      StrLtTransitive(a, b, c);
    }
    forall a, b
      ensures a == b || StrLt(a, b) || StrLt(b, a)
    {
      StrLtTrichotomous(a, b);
    }
  }
}
