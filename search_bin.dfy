/**
 * The query list of the `search` command: every comma-separated part of
 * the query trimmed and expanded into its four Twitter URL patterns, then
 * sorted and with repeated queries removed.
 */
module SearchBin {
  import Text
  import Sorting
  import Commands

  /** `Vec::dedup` on the first `a.Length` queries: the kept queries are
      moved to the front, and their count is returned. */
  method DedupInPlace(a: array<string>) returns (len: nat)
    modifies a
    ensures len <= a.Length && a[..len] == Sorting.Dedup(old(a[..]))
  {
    ghost var s := a[..];
    if a.Length == 0 {
      return 0;
    }
    len := 1;
    assert a[..1] == s[..1];
    for r := 1 to a.Length
      invariant 1 <= len <= r
      invariant a[..len] == Sorting.Dedup(s[..r])
      invariant a[r..] == s[r..]
      invariant a[len - 1] == s[r - 1]
    {
      ghost var kept := a[..len];
      assert s[..r + 1] == s[..r] + [s[r]];
      assert a[r] == s[r] && a[r + 1..] == s[r + 1..] by {
        assert a[r..][0] == a[r] && s[r..][0] == s[r];
        assert a[r + 1..] == a[r..][1..] && s[r + 1..] == s[r..][1..];
      }
      Sorting.DedupSnoc(s[..r], s[r]);
      if a[r] != a[len - 1] {
        a[len] := a[r];
        assert a[..len + 1] == kept + [s[r]];
        len := len + 1;
      }
    }
    assert s[..a.Length] == s;
  }

  /** `sort` then `dedup` on a list of queries: strictly increasing, so
      none twice, and holding exactly the queries of the list. */
  method SortDedup(xs: seq<string>) returns (ys: seq<string>)
    ensures Sorting.StrictlySorted(ys, Sorting.StrLt)
    ensures forall q :: q in ys <==> q in xs
  {
    var sorted := Sorting.Sort(xs, Sorting.StrLt);
    var a := new string[|sorted|](i requires 0 <= i < |sorted| => sorted[i]);
    assert a[..] == sorted;
    var len := DedupInPlace(a);
    ys := a[..len];
    Sorting.StrLtTotal();
    Sorting.SortDedup(xs, Sorting.StrLt);
    forall q | q in ys
      ensures q in xs
    {
      assert q in multiset(ys);
    }
  }

  /** The queries `search` runs: strictly increasing, so none twice, and
      exactly the queries of the trimmed and expanded parts, with case kept
      apart. */
  method Queries(query: string) returns (queries: seq<string>)
    ensures Sorting.StrictlySorted(queries, Sorting.StrLt)
    ensures forall q :: q in queries <==> q in Commands.Expansions(Text.Split(query, ','))
  {
    var expanded := Commands.Expansions(Text.Split(query, ','));
    queries := SortDedup(expanded);
  }
}
