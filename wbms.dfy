/**
 * The `wbms` command: its query expansion, which keeps each non-empty
 * trimmed part of a comma-separated query once, ignoring case, and the
 * order of the phases of its `download` subcommand.
 */
module Wbms {
  import opened Wrappers
  import Text
  import Commands

  /** The keys of the kept names: the `seen` set. */
  function Seen(kept: seq<string>, key: string -> string): set<string> {
    set x | x in kept :: key(x)
  }

  /** The names `expand_queries` keeps, in order: a name is kept when it
      is not empty and its key has not been seen. */
  function Kept(names: seq<string>, key: string -> string): (r: seq<string>)
    ensures |r| <= |names|
    ensures forall i :: 0 <= i < |r| ==> r[i] != [] && r[i] in names
    decreases |names|
  {
    if names == [] then []
    else
      var kept := Kept(names[..|names| - 1], key);
      var name := names[|names| - 1];
      if name != [] && key(name) !in Seen(kept, key) then kept + [name] else kept
  }

  /** Name `j` is the first non-empty name with its key. */
  predicate FirstOfItsKey(names: seq<string>, j: nat, key: string -> string)
    requires j < |names|
  {
    && names[j] != []
    && forall k :: 0 <= k < j && names[k] != [] ==> key(names[k]) != key(names[j])
  }

  /** Reference definition: the names that come first with their key, in
      order. */
  function FirstOfEachKey(names: seq<string>, key: string -> string): seq<string>
    decreases |names|
  {
    if names == [] then []
    else FirstOfEachKey(names[..|names| - 1], key) +
         (if FirstOfItsKey(names, |names| - 1, key) then [names[|names| - 1]] else [])
  }

  /** `c` is the key of a non-empty name. */
  predicate KeyOfSome(names: seq<string>, c: string, key: string -> string) {
    exists j :: 0 <= j < |names| && names[j] != [] && key(names[j]) == c
  }

  /** What the `seen` set holds after the names: the key of every
      non-empty name; and the kept names are exactly the first name of
      each key. */
  lemma {:induction false} KeptIsFirstOfEachKey(names: seq<string>, key: string -> string)
    ensures forall c :: c in Seen(Kept(names, key), key) <==> KeyOfSome(names, c, key)
    ensures Kept(names, key) == FirstOfEachKey(names, key)
    decreases |names|
  {
    if names != [] {
      var init := names[..|names| - 1];
      var last := |names| - 1;
      KeptIsFirstOfEachKey(init, key);
      var name := names[last];
      var kept := Kept(init, key);
      assert forall k :: 0 <= k < |init| ==> init[k] == names[k];
      assert FirstOfItsKey(names, last, key) <==> name != [] && key(name) !in Seen(kept, key) by {
        if name != [] && key(name) in Seen(kept, key) {
          assert KeyOfSome(init, key(name), key);
          var k :| 0 <= k < |init| && init[k] != [] && key(init[k]) == key(name);
          assert names[k] != [] && key(names[k]) == key(name);
        }
      }
      forall c
        ensures c in Seen(Kept(names, key), key) <==> KeyOfSome(names, c, key)
      {
        if KeyOfSome(names, c, key) {
          var j :| 0 <= j < |names| && names[j] != [] && key(names[j]) == c;
          if j < |init| {
            assert KeyOfSome(init, c, key);
          }
        }
        if c in Seen(Kept(names, key), key) && c !in Seen(kept, key) {
          assert c == key(name);
        }
      }
    }
  }

  /** The kept names are non-empty names, no two with the same key, and
      every non-empty name shares its key with a kept one. */
  lemma {:induction false} KeptDistinct(names: seq<string>, key: string -> string)
    ensures var kept := Kept(names, key);
      && (forall i :: 0 <= i < |kept| ==> kept[i] != [] && kept[i] in names)
      && (forall i, j :: 0 <= i < j < |kept| ==> key(kept[i]) != key(kept[j]))
      && (forall j :: 0 <= j < |names| && names[j] != [] ==>
            exists i :: 0 <= i < |kept| && key(kept[i]) == key(names[j]))
    decreases |names|
  {
    KeptIsFirstOfEachKey(names, key);
    if names != [] {
      var init := names[..|names| - 1];
      KeptDistinct(init, key);
      var kept := Kept(init, key);
      var name := names[|names| - 1];
      assert forall x :: x in init ==> x in names;
      if name != [] && key(name) !in Seen(kept, key) {
        var r := kept + [name];
        forall i, j | 0 <= i < j < |r|
          ensures key(r[i]) != key(r[j])
        {
          if j == |kept| {
            assert r[i] in kept;
          }
        }
      }
      var r := Kept(names, key);
      forall j | 0 <= j < |names| && names[j] != []
        ensures exists i :: 0 <= i < |r| && key(r[i]) == key(names[j])
      {
        assert KeyOfSome(names, key(names[j]), key);
        var x :| x in r && key(x) == key(names[j]);
      }
    }
  }

  /** The names of a query: its comma-separated parts, trimmed. */
  function Names(query: string): (names: seq<string>)
    ensures |names| == |Text.Split(query, ',')|
  {
    Commands.Trimmed(Text.Split(query, ','))
  }

  /** A query made only of whitespace and commas keeps no name. */
  lemma BlankKeepsNothing(query: string, key: string -> string)
    requires forall i :: 0 <= i < |query| ==> Text.IsWhitespace(query[i]) || query[i] == ','
    ensures Kept(Names(query), key) == []
  {
    var names := Names(query);
    forall j | 0 <= j < |names|
      ensures names[j] == []
    {
      BlankPart(query, j);
    }
    NothingKept(names, key);
  }

  /** Each part of such a query trims to nothing. */
  lemma BlankPart(query: string, j: nat)
    requires forall i :: 0 <= i < |query| ==> Text.IsWhitespace(query[i]) || query[i] == ','
    requires j < |Text.Split(query, ',')|
    ensures Text.Trim(Text.Split(query, ',')[j]) == []
  {
    var parts := Text.Split(query, ',');
    JoinHolds(parts, ',', j);
    forall c | c in parts[j]
      ensures Text.IsWhitespace(c)
    {
      assert c in query;
    }
    BlankTrim(parts[j]);
  }

  /** Empty names are never kept. */
  lemma {:induction false} NothingKept(names: seq<string>, key: string -> string)
    requires forall j :: 0 <= j < |names| ==> names[j] == []
    ensures Kept(names, key) == []
    decreases |names|
  {
    if names != [] {
      NothingKept(names[..|names| - 1], key);
    }
  }

  /** Every character of a part is a character of the joined text. */
  lemma {:induction false} JoinHolds(parts: seq<string>, sep: char, j: nat)
    requires j < |parts|
    ensures forall c :: c in parts[j] ==> c in Text.Join(parts, sep)
    decreases |parts|
  {
    if |parts| > 1 && j > 0 {
      JoinHolds(parts[1..], sep, j - 1);
    }
  }

  /** A part of whitespace trims to nothing. */
  lemma BlankTrim(s: string)
    requires forall c :: c in s ==> Text.IsWhitespace(c)
    ensures Text.Trim(s) == []
  {
    BlankTrimStart(s);
  }

  lemma {:induction false} BlankTrimStart(s: string)
    requires forall c :: c in s ==> Text.IsWhitespace(c)
    ensures Text.TrimStart(s) == []
    decreases |s|
  {
    if s != [] {
      assert s[0] in s;
      assert forall c :: c in s[1..] ==> c in s;
      BlankTrimStart(s[1..]);
    }
  }

  /** The output of `expand_queries` for the kept names. */
  function Expanded(kept: seq<string>, twitter: bool): seq<string> {
    if twitter then Commands.ExpandAll(kept) else kept
  }

  /** One more name: kept when it is not empty and its key is not in the
      `seen` set, and then its key is added to that set. */
  lemma KeptStep(names: seq<string>, i: nat, key: string -> string)
    requires i < |names|
    ensures var kept := Kept(names[..i], key);
      Kept(names[..i + 1], key) ==
        (if names[i] != [] && key(names[i]) !in Seen(kept, key) then kept + [names[i]] else kept)
  {
    assert names[..i + 1][..i] == names[..i];
  }

  /** A kept name adds its key to the `seen` set. */
  lemma SeenSnoc(kept: seq<string>, name: string, key: string -> string)
    ensures Seen(kept + [name], key) == Seen(kept, key) + {key(name)}
  {
    assert forall x :: x in kept + [name] <==> x in kept || x == name;
  }

  /** One more kept name: its output appended to the output so far. */
  lemma ExpandedStep(kept: seq<string>, name: string, twitter: bool)
    ensures Expanded(kept + [name], twitter) ==
      Expanded(kept, twitter) + (if twitter then Commands.ExpandTwitter(name) else [name])
  {
    if twitter {
      Commands.ExpandAllSnoc(kept, name);
    }
  }

  /** One name of the loop of `expand_queries`: a non-empty name whose
      lower-cased form is not in `seen` is kept, its form added to `seen`
      and its output appended. */
  method Admit(name: string, twitter: bool, seen: set<string>, result: seq<string>, ghost kept: seq<string>)
    returns (seen': set<string>, result': seq<string>, ghost kept': seq<string>)
    requires seen == Seen(kept, Text.Lowercase) && result == Expanded(kept, twitter)
    ensures kept' == if name != [] && Text.Lowercase(name) !in Seen(kept, Text.Lowercase) then kept + [name] else kept
    ensures seen' == Seen(kept', Text.Lowercase) && result' == Expanded(kept', twitter)
  {
    var cleaned := Text.Lowercase(name);
    seen', result', kept' := seen, result, kept;
    if name != [] && cleaned !in seen {
      SeenSnoc(kept, name, Text.Lowercase);
      ExpandedStep(kept, name, twitter);
      seen' := seen + {cleaned};
      if twitter {
        result' := result + Commands.ExpandTwitter(name);
      } else {
        result' := result + [name];
      }
      kept' := kept + [name];
    }
  }

  /** `expand_queries`: splits the query on commas and keeps each
      non-empty trimmed part whose lower-cased form is new, as itself or
      as its four Twitter patterns. */
  method ExpandQueries(query: string, twitter: bool) returns (result: seq<string>)
    ensures result == Expanded(Kept(Names(query), Text.Lowercase), twitter)
  {
    var parts := Text.Split(query, ',');
    ghost var names := Names(query);
    var seen: set<string> := {};
    result := [];
    ghost var kept: seq<string> := [];
    for i := 0 to |parts|
      invariant kept == Kept(names[..i], Text.Lowercase)
      invariant seen == Seen(kept, Text.Lowercase)
      invariant result == Expanded(kept, twitter)
    {
      var trimmed := Text.Trim(parts[i]);
      assert trimmed == names[i];
      KeptStep(names, i, Text.Lowercase);
      seen, result, kept := Admit(trimmed, twitter, seen, result, kept);
    }
    assert names[..|parts|] == names;
  }

  /** The output holds four queries per kept name in twitter mode and the
      kept names themselves otherwise, the patterns of name `i` at
      positions `4 * i` up to `4 * i + 4`. */
  lemma ExpandedLayout(kept: seq<string>, twitter: bool)
    ensures |Expanded(kept, twitter)| == (if twitter then 4 else 1) * |kept|
    ensures twitter ==> forall i :: 0 <= i < |kept| ==>
      Expanded(kept, twitter)[4 * i..4 * i + 4] == Commands.ExpandTwitter(kept[i])
    ensures !twitter ==> Expanded(kept, twitter) == kept
  {
    Commands.ExpandAllLayout(kept);
  }
}
