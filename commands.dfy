/**
 * What the command-line programs `wbms`, `search` and `dl` share: the
 * expansion of a Twitter screen name into the four URL patterns searched
 * for it, the query list built by expanding every comma-separated part of
 * a query, and the phases of a download run.
 */
module Commands {
  import Text

  const TWITTER := "https://twitter.com/"
  const MOBILE := "https://mobile.twitter.com/"

  /** `expand_twitter_queries`: the profile page and everything under it,
      on the desktop and on the mobile host. */
  /** The four patterns of one name are four different queries: the hosts
      differ at their ninth character and the wildcard ones are longer. */
  function ExpandTwitter(name: string): (r: seq<string>)
    ensures |r| == 4 && forall i, j :: 0 <= i < j < 4 ==> r[i] != r[j]
  {
    var r := [TWITTER + name, MOBILE + name, TWITTER + name + "/*", MOBILE + name + "/*"];
    assert r[0][8] == 't' && r[2][8] == 't';
    assert r[1][8] == 'm' && r[3][8] == 'm';
    assert |r[2]| == |r[0]| + 2 && |r[3]| == |r[1]| + 2;
    r
  }

  /** Different names never share a pattern in the same position. */
  lemma ExpandTwitterInjective(a: string, b: string, m: nat)
    requires m < 4 && ExpandTwitter(a)[m] == ExpandTwitter(b)[m]
    ensures a == b
  {
    var host := if m % 2 == 0 then TWITTER else MOBILE;
    var pa, pb := ExpandTwitter(a)[m], ExpandTwitter(b)[m];
    if m < 2 {
      assert a == pa[|host|..] && b == pb[|host|..];
    } else {
      assert a == pa[|host|..|pa| - 2] && b == pb[|host|..|pb| - 2];
    }
  }

  /** The patterns of every name, name by name. */
  function ExpandAll(names: seq<string>): seq<string> {
    Flatten(seq(|names|, i requires 0 <= i < |names| => ExpandTwitter(names[i])))
  }

  /** Every part trimmed. */
  function Trimmed(parts: seq<string>): (r: seq<string>)
    ensures |r| == |parts| && forall i :: 0 <= i < |parts| ==> r[i] == Text.Trim(parts[i])
  {
    seq(|parts|, i requires 0 <= i < |parts| => Text.Trim(parts[i]))
  }

  /** The query list of `search` and `dl`: every part trimmed and expanded,
      in the order of the parts. */
  function Expansions(parts: seq<string>): seq<string> {
    ExpandAll(Trimmed(parts))
  }

  /** The groups of a list, one after another. */
  function Flatten(groups: seq<seq<string>>): seq<string>
    decreases |groups|
  {
    if groups == [] then [] else Flatten(groups[..|groups| - 1]) + groups[|groups| - 1]
  }

  /** Groups of four laid end to end: group `i` at positions `4 * i` up to
      `4 * i + 4`. */
  lemma {:induction false} FlattenFours(groups: seq<seq<string>>)
    requires forall i :: 0 <= i < |groups| ==> |groups[i]| == 4
    ensures |Flatten(groups)| == 4 * |groups|
    ensures forall i :: 0 <= i < |groups| ==> Flatten(groups)[4 * i..4 * i + 4] == groups[i]
    decreases |groups|
  {
    if groups != [] {
      var init := groups[..|groups| - 1];
      var last := groups[|groups| - 1];
      FlattenFours(init);
      var front := Flatten(init);
      assert Flatten(groups) == front + last;
      assert |front| == 4 * |init|;
      forall i | 0 <= i < |groups|
        ensures Flatten(groups)[4 * i..4 * i + 4] == groups[i]
      {
        if i < |init| {
          assert groups[i] == init[i];
          PrefixSlice(front, last, 4 * i, 4 * i + 4);
        } else {
          SuffixSlice(front, last);
        }
      }
    }
  }

  lemma PrefixSlice(a: seq<string>, b: seq<string>, lo: nat, hi: nat)
    requires lo <= hi <= |a|
    ensures (a + b)[lo..hi] == a[lo..hi]
  {
  }

  lemma SuffixSlice(a: seq<string>, b: seq<string>)
    ensures (a + b)[|a|..|a| + |b|] == b
  {
  }

  /** Four queries per name, the `m`-th pattern of name `i` at position
      `4 * i + m`: the list is the patterns of the first name, then those
      of the second, and so on. */
  lemma ExpandAllLayout(names: seq<string>)
    ensures |ExpandAll(names)| == 4 * |names|
    ensures forall i :: 0 <= i < |names| ==> ExpandAll(names)[4 * i..4 * i + 4] == ExpandTwitter(names[i])
  {
    var groups := seq(|names|, i requires 0 <= i < |names| => ExpandTwitter(names[i]));
    FlattenFours(groups);
    forall i | 0 <= i < |names|
      ensures ExpandAll(names)[4 * i..4 * i + 4] == ExpandTwitter(names[i])
    {
      assert groups[i] == ExpandTwitter(names[i]);
    }
  }

  /** Expanding one more name appends its four patterns. */
  lemma ExpandAllSnoc(names: seq<string>, name: string)
    ensures ExpandAll(names + [name]) == ExpandAll(names) + ExpandTwitter(name)
  {
    var groups := seq(|names|, i requires 0 <= i < |names| => ExpandTwitter(names[i]));
    var more := seq(|names + [name]|, i requires 0 <= i < |names + [name]| => ExpandTwitter((names + [name])[i]));
    assert more[..|more| - 1] == groups;
  }

  /** Four queries per part, empty and repeated parts included, in the
      order of the parts. */
  lemma ExpansionsLayout(parts: seq<string>)
    ensures |Expansions(parts)| == 4 * |parts|
    ensures forall i :: 0 <= i < |parts| ==>
      Expansions(parts)[4 * i..4 * i + 4] == ExpandTwitter(Text.Trim(parts[i]))
  {
    ExpandAllLayout(Trimmed(parts));
  }

  /** A value is in the flattened list exactly when it is in some group. */
  lemma {:induction false} FlattenMembers(groups: seq<seq<string>>)
    ensures forall q :: q in Flatten(groups) <==> exists i :: 0 <= i < |groups| && q in groups[i]
    decreases |groups|
  {
    if groups != [] {
      var init := groups[..|groups| - 1];
      FlattenMembers(init);
      forall q | q in Flatten(groups)
        ensures exists i :: 0 <= i < |groups| && q in groups[i]
      {
        if q in Flatten(init) {
          var i :| 0 <= i < |init| && q in init[i];
          assert groups[i] == init[i];
        }
      }
      forall q, i | 0 <= i < |groups| && q in groups[i]
        ensures q in Flatten(groups)
      {
        if i < |init| {
          assert groups[i] == init[i];
        }
      }
    }
  }

  /** A query is in the list exactly when it is a pattern of some name. */
  lemma ExpandAllMembers(names: seq<string>)
    ensures forall q :: q in ExpandAll(names) <==> exists i :: 0 <= i < |names| && q in ExpandTwitter(names[i])
  {
    var groups := seq(|names|, i requires 0 <= i < |names| => ExpandTwitter(names[i]));
    FlattenMembers(groups);
    forall q | q in Flatten(groups)
      ensures exists i :: 0 <= i < |names| && q in ExpandTwitter(names[i])
    {
      var i :| 0 <= i < |groups| && q in groups[i];
      assert groups[i] == ExpandTwitter(names[i]);
    }
    forall q, i | 0 <= i < |names| && q in ExpandTwitter(names[i])
      ensures q in Flatten(groups)
    {
      assert groups[i] == ExpandTwitter(names[i]);
    }
  }

  /** A query is in the list exactly when it is a pattern of some trimmed
      part. */
  lemma ExpansionsMembers(parts: seq<string>)
    ensures forall q :: q in Expansions(parts) <==>
      exists i :: 0 <= i < |parts| && q in ExpandTwitter(Text.Trim(parts[i]))
  {
    var names := Trimmed(parts);
    ExpandAllMembers(names);
    forall q | q in Expansions(parts)
      ensures exists i :: 0 <= i < |parts| && q in ExpandTwitter(Text.Trim(parts[i]))
    {
      var i :| 0 <= i < |names| && q in ExpandTwitter(names[i]);
    }
  }

  /** The steps of a download run, in the order they may run. */
  datatype Phase = SaveCdxResults | ResolveRedirects | DownloadItems

  /** The phases of a download run: with a query, the CDX results of its
      expansion are saved first; redirects are then resolved and items
      downloaded. */
  function DownloadPlan(withQuery: bool): (plan: seq<Phase>)
    ensures |plan| == if withQuery then 3 else 2
    ensures SaveCdxResults in plan <==> withQuery
    ensures withQuery ==> plan[0] == SaveCdxResults
    ensures plan[|plan| - 2..] == [ResolveRedirects, DownloadItems]
  {
    (if withQuery then [SaveCdxResults] else []) + [ResolveRedirects, DownloadItems]
  }
}
