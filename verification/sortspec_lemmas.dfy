/** Properties of `get_sort`: the direction tables, the item grammar, blank
    skipping, and a rendering of key lists back to specification text that
    the parser inverts. */
module SortSpecLemmas {
  import opened Results
  import opened PyStrings
  import opened SortSpec

  /* ---------- Direction tables ---------- */

  /** The sort table is a strict sub-table of the index table; the index
      table adds exactly the four index-type words. */
  lemma {:induction false} SortTableInsideIndexTable()
    ensures SortNames.Keys < IndexNames.Keys
    ensures forall w :: w in SortNames ==> IndexNames[w] == SortNames[w]
    ensures IndexNames.Keys - SortNames.Keys == {"geo2d", "geosphere", "hashed", "text"}
  {
    assert "hashed" in IndexNames && "hashed" !in SortNames;
  }

  /* ---------- The item grammar ---------- */

  /** The table lookup of the lower-cased direction word `t`. */
  function LookupWord(f: string, t: string, forIndex: bool): Result<Key, SortError>
  {
    var w := Lower(t);
    if w in Names(forIndex) then Ok(Key(f, Names(forIndex)[w])) else Err(UnknownDirection(w))
  }

  /** An item with a space is decided by the first two pieces of its
      space-split after the double-space replacement. */
  lemma {:induction false} SpacedItem(item: string, forIndex: bool)
    requires ' ' in item
    ensures var parts := Split(ReplaceDoubleSpace(item), ' ');
      |parts| >= 2 && ParseItem(item, forIndex) == LookupWord(parts[0], parts[1], forIndex)
  {
    ReplaceKeepsSpace(item);
  }

  /** One space after a space-free field stays as it is. */
  lemma {:induction false} ReplaceOneSpaceRun(f: string, t: string)
    requires ' ' !in f && ' ' !in t
    ensures ReplaceDoubleSpace(f + " " + t) == f + [' '] + t
  {
    assert f + " " + t == f + (" " + t);
    ReplaceAfterSpaceFree(f, " " + t);
    ReplaceOneSpace(t);
    ReplaceSpaceFree(t);
  }

  /** Two spaces after a space-free field collapse to one. */
  lemma {:induction false} ReplaceTwoSpaceRun(f: string, t: string)
    requires ' ' !in f && ' ' !in t
    ensures ReplaceDoubleSpace(f + "  " + t) == f + [' '] + t
  {
    assert f + "  " + t == f + ("  " + t);
    ReplaceAfterSpaceFree(f, "  " + t);
    ReplaceTwoSpaces(t);
    ReplaceSpaceFree(t);
  }

  /** Three or more spaces after a space-free field leave at least two. */
  lemma {:induction false} ReplaceLongRun(f: string, n: nat, t: string)
    requires ' ' !in f
    requires n >= 3
    ensures exists z :: ReplaceDoubleSpace(f + Spaces(n) + t) == f + [' '] + ([' '] + z)
  {
    var x := Spaces(n) + t;
    var y := Spaces(n - 2) + t;
    assert f + Spaces(n) + t == f + x;
    assert ReplaceDoubleSpace(f + x) == f + ReplaceDoubleSpace(x) by {
      ReplaceAfterSpaceFree(f, x);
    }
    assert ReplaceDoubleSpace(x) == " " + ReplaceDoubleSpace(y) by {
      SpacesTail(n, t);
      ReplaceTwoSpaces(y);
    }
    var ry := ReplaceDoubleSpace(y);
    assert ry[0] == ' ' by {
      assert y[0] == ' ';
    }
    assert ry == [' '] + ry[1..];
    assert ReplaceDoubleSpace(f + Spaces(n) + t) == f + [' '] + ([' '] + ry[1..]);
  }

  /** The space-split of the replaced item after a short run: the field,
      then the word. */
  lemma {:induction false} SplitAfterShortRun(f: string, n: nat, t: string)
    requires ' ' !in f && ' ' !in t
    requires 1 <= n <= 2
    ensures var parts := Split(ReplaceDoubleSpace(f + Spaces(n) + t), ' ');
      |parts| >= 2 && parts[0] == f && parts[1] == t
  {
    assert ReplaceDoubleSpace(f + Spaces(n) + t) == f + [' '] + t by {
      if n == 1 {
        assert Spaces(1) == " ";
        ReplaceOneSpaceRun(f, t);
      } else {
        assert Spaces(2) == "  ";
        ReplaceTwoSpaceRun(f, t);
      }
    }
    SplitAtSep(f, t, ' ');
    SplitNoSep(t, ' ');
  }

  /** The space-split of the replaced item after a long run: the field, then
      an empty piece. */
  lemma {:induction false} SplitAfterLongRun(f: string, n: nat, t: string)
    requires ' ' !in f
    requires n >= 3
    ensures var parts := Split(ReplaceDoubleSpace(f + Spaces(n) + t), ' ');
      |parts| >= 2 && parts[0] == f && parts[1] == ""
  {
    ReplaceLongRun(f, n, t);
    var z :| ReplaceDoubleSpace(f + Spaces(n) + t) == f + [' '] + ([' '] + z);
    assert Split(f + [' '] + ([' '] + z), ' ') == [f] + Split([' '] + z, ' ') by {
      SplitAtSep(f, [' '] + z, ' ');
    }
    assert Split([' '] + z, ' ') == [""] + Split(z, ' ') by {
      assert [' '] + z == "" + [' '] + z;
      SplitAtSep("", z, ' ');
    }
  }

  /** One or two spaces between field and direction word parse; three or
      more leave an empty direction word behind, which is not in either
      table. */
  lemma {:induction false} SpacesBeforeDirection(f: string, n: nat, t: string, forIndex: bool)
    requires ' ' !in f && ' ' !in t
    requires n >= 1
    ensures ParseItem(f + Spaces(n) + t, forIndex) ==
      if n <= 2 then LookupWord(f, t, forIndex) else Err(UnknownDirection(""))
  {
    var item := f + Spaces(n) + t;
    assert item[|f|] == ' ';
    SpacedItem(item, forIndex);
    if n <= 2 {
      SplitAfterShortRun(f, n, t);
    } else {
      SplitAfterLongRun(f, n, t);
    }
    assert Lower("") == "";
  }

  /** One or two spaces after a space-free field collapse to one, and a
      space-free word after them is untouched. */
  lemma {:induction false} ReplaceShortRunTail(f: string, n: nat, t: string, tail: string)
    requires ' ' !in f && ' ' !in t && t != []
    requires 1 <= n <= 2
    ensures ReplaceDoubleSpace(f + Spaces(n) + t + tail) == f + [' '] + (t + ReplaceDoubleSpace(tail))
  {
    var x := t + tail;
    assert x[0] == t[0];
    var rx := ReplaceDoubleSpace(x);
    assert rx == t + ReplaceDoubleSpace(tail) by {
      ReplaceAfterSpaceFree(t, tail);
    }
    assert ReplaceDoubleSpace(Spaces(n) + x) == " " + rx by {
      if n == 1 {
        assert Spaces(1) == " ";
        ReplaceOneSpace(x);
      } else {
        assert Spaces(2) == "  ";
        ReplaceTwoSpaces(x);
      }
    }
    assert f + Spaces(n) + t + tail == f + (Spaces(n) + x);
    ReplaceAfterSpaceFree(f, Spaces(n) + x);
  }

  /** After one or two spaces, the word and then more text from its next
      space on: the split still yields the field and the word. */
  lemma {:induction false} SplitAfterShortRunTail(f: string, n: nat, t: string, tail: string)
    requires ' ' !in f && ' ' !in t && t != []
    requires 1 <= n <= 2
    requires tail != [] && tail[0] == ' '
    ensures var parts := Split(ReplaceDoubleSpace(f + Spaces(n) + t + tail), ' ');
      |parts| >= 2 && parts[0] == f && parts[1] == t
  {
    var rt := ReplaceDoubleSpace(tail);
    ReplaceShortRunTail(f, n, t, tail);
    assert rt == [' '] + rt[1..];
    assert f + [' '] + (t + rt) == f + [' '] + (t + [' '] + rt[1..]);
    SplitAtSep(f, t + [' '] + rt[1..], ' ');
    SplitAtSep(t, rt[1..], ' ');
  }

  /** Whatever follows the direction word from its next space on is
      ignored, after any run of spaces: one or two spaces parse the word,
      three or more raise on the empty word. */
  lemma {:induction false} DirectionWithTail(f: string, n: nat, t: string, tail: string, forIndex: bool)
    requires ' ' !in f && ' ' !in t && n >= 1
    requires tail == [] || (t != [] && tail[0] == ' ')
    ensures ParseItem(f + Spaces(n) + t + tail, forIndex) ==
      if n <= 2 && t != [] then LookupWord(f, t, forIndex) else Err(UnknownDirection(""))
  {
    if tail == [] {
      NoTail(f, n, t, forIndex);
    } else if n <= 2 {
      ShortRunWithTail(f, n, t, tail, forIndex);
    } else {
      LongRunWithTail(f, n, t, tail, forIndex);
    }
  }

  /** The case of `DirectionWithTail` with nothing after the word. */
  lemma {:induction false} NoTail(f: string, n: nat, t: string, forIndex: bool)
    requires ' ' !in f && ' ' !in t && n >= 1
    ensures ParseItem(f + Spaces(n) + t + [], forIndex) ==
      if n <= 2 && t != [] then LookupWord(f, t, forIndex) else Err(UnknownDirection(""))
  {
    assert f + Spaces(n) + t + [] == f + Spaces(n) + t;
    SpacesBeforeDirection(f, n, t, forIndex);
    assert Lower([]) == [];
  }

  /** The case of `DirectionWithTail` with one or two spaces and more text. */
  lemma {:induction false} ShortRunWithTail(f: string, n: nat, t: string, tail: string, forIndex: bool)
    requires ' ' !in f && ' ' !in t && t != [] && 1 <= n <= 2
    requires tail != [] && tail[0] == ' '
    ensures ParseItem(f + Spaces(n) + t + tail, forIndex) == LookupWord(f, t, forIndex)
  {
    var item := f + Spaces(n) + t + tail;
    assert item[|f|] == ' ';
    SpacedItem(item, forIndex);
    SplitAfterShortRunTail(f, n, t, tail);
  }

  /** Three or more spaces after the field raise on the empty word, whatever
      follows. */
  lemma {:induction false} LongRunWithTail(f: string, n: nat, t: string, tail: string, forIndex: bool)
    requires ' ' !in f && n >= 3
    ensures ParseItem(f + Spaces(n) + t + tail, forIndex) == Err(UnknownDirection(""))
  {
    var item := f + Spaces(n) + t + tail;
    assert item == f + Spaces(n) + (t + tail);
    assert item[|f|] == ' ';
    SpacedItem(item, forIndex);
    SplitAfterLongRun(f, n, t + tail);
    assert Lower("") == "";
  }

  /** Words after the direction word are ignored. */
  lemma {:induction false} ExtraWordsIgnored(f: string, t: string, rest: string, forIndex: bool)
    requires ' ' !in f && ' ' !in t && t != []
    ensures ParseItem(f + " " + t + " " + rest, forIndex) == LookupWord(f, t, forIndex)
  {
    var p := f + " " + t;
    var item := f + " " + t + " " + rest;
    var tail := ReplaceDoubleSpace(" " + rest);
    assert ReplaceDoubleSpace(item) == f + [' '] + (t + [' '] + tail[1..]) by {
      assert item == p + (" " + rest);
      assert NoDoubleSpace(p) by {
        assert forall i :: 0 <= i < |p| && i != |f| ==> p[i] != ' ';
      }
      ReplacePrefix(p, " " + rest);
      assert tail == [' '] + tail[1..];
    }
    assert item[|f|] == ' ';
    SpacedItem(item, forIndex);
    SplitAtSep(f, t + [' '] + tail[1..], ' ');
    SplitAtSep(t, tail[1..], ' ');
  }

  /** The direction word is looked up case-insensitively. */
  lemma {:induction false} DirectionCaseInsensitive(f: string, t1: string, t2: string, forIndex: bool)
    requires ' ' !in f && ' ' !in t1 && ' ' !in t2 && t1 != [] && t2 != []
    requires Lower(t1) == Lower(t2)
    ensures ParseItem(f + " " + t1, forIndex) == ParseItem(f + " " + t2, forIndex)
  {
    assert Spaces(1) == " ";
    SpacesBeforeDirection(f, 1, t1, forIndex);
    SpacesBeforeDirection(f, 1, t2, forIndex);
  }

  /** `hashed` is an index type, not a sort direction. */
  lemma {:induction false} HashedOnlyForIndexes(f: string)
    requires ' ' !in f
    ensures ParseItem(f + " hashed", false) == Err(UnknownDirection("hashed"))
    ensures ParseItem(f + " hashed", true) == Ok(Key(f, Hashed))
  {
    assert Lower("hashed") == "hashed";
    assert f + " hashed" == f + Spaces(1) + "hashed";
    SpacesBeforeDirection(f, 1, "hashed", false);
    SpacesBeforeDirection(f, 1, "hashed", true);
  }

  /** `DESC` and `desc` both mean descending. */
  lemma {:induction false} UpperCaseDirection(f: string)
    requires ' ' !in f
    ensures ParseItem(f + " DESC", false) == Ok(Key(f, Descending))
    ensures ParseItem(f + " desc", false) == Ok(Key(f, Descending))
  {
    assert Lower("DESC") == "desc";
    assert Lower("desc") == "desc";
    assert f + " DESC" == f + Spaces(1) + "DESC";
    assert f + " desc" == f + Spaces(1) + "desc";
    SpacesBeforeDirection(f, 1, "DESC", false);
    SpacesBeforeDirection(f, 1, "desc", false);
  }

  /* ---------- Blank skipping and order ---------- */

  /** Parses every entry, in order, stopping at the first failure: the
      reference behaviour of the item loop once blanks are gone. */
  function ParseAll(xs: seq<string>, forIndex: bool): Result<seq<Key>, SortError>
  {
    Traverse(xs, x => ParseItem(x, forIndex))
  }

  /** The item loop skips blank items and parses the rest in order. */
  lemma {:induction false} ParseItemsSkipsBlanks(items: seq<string>, forIndex: bool)
    ensures ParseItems(items, forIndex) == ParseAll(NonBlank(items), forIndex)
  {
    if |items| > 0 {
      ParseItemsSkipsBlanks(items[1..], forIndex);
      if Strip(items[0]) != "" {
        var xs := NonBlank(items);
        assert xs[0] == Strip(items[0]) && xs[1..] == NonBlank(items[1..]);
      }
    }
  }

  /** The group loop skips blank groups and handles the rest in order. */
  lemma {:induction false} ParseGroupsSkipsBlanks(groups: seq<string>, forIndex: bool)
    ensures ParseGroups(groups, forIndex) == ParseGroups(NonBlank(groups), forIndex)
  {
    if |groups| > 0 {
      ParseGroupsSkipsBlanks(groups[1..], forIndex);
      var g := Strip(groups[0]);
      if g != "" {
        var xs := NonBlank(groups);
        assert xs[0] == g && xs[1..] == NonBlank(groups[1..]);
        StripTrimmed(g);
      }
    }
  }

  /** The key lists of groups that yielded any keys, in order. */
  function DropEmpty(lists: seq<seq<Key>>): (r: seq<seq<Key>>)
    ensures |r| <= |lists|
    ensures forall i :: 0 <= i < |r| ==> |r[i]| > 0
  {
    if |lists| == 0 then []
    else if |lists[0]| > 0 then [lists[0]] + DropEmpty(lists[1..])
    else DropEmpty(lists[1..])
  }

  /** Parses every group's `,`-separated items, in order, stopping at the
      first failure; one key list per group, empty ones included. */
  function ParseEachGroup(groups: seq<string>, forIndex: bool): (r: Result<seq<seq<Key>>, SortError>)
    ensures r.Ok? ==> |r.value| == |groups|
  {
    if |groups| == 0 then Ok([])
    else
      var keys :- ParseItems(Split(groups[0], ','), forIndex);
      var rest :- ParseEachGroup(groups[1..], forIndex);
      Ok([keys] + rest)
  }

  /** The reference behaviour of the group loop: parse every stripped
      non-blank group in order, stopping at the first failure, then keep
      the groups that yielded keys. */
  function ParseGroupsRef(groups: seq<string>, forIndex: bool): Result<seq<seq<Key>>, SortError>
  {
    var lists :- ParseEachGroup(NonBlank(groups), forIndex);
    Ok(DropEmpty(lists))
  }

  /** One non-blank group in front: its keys, if any, come before those of
      the groups after it. */
  lemma {:induction false} ParseGroupsRefCons(groups: seq<string>, forIndex: bool)
    requires |groups| > 0 && Strip(groups[0]) != ""
    ensures var keys := ParseItems(Split(Strip(groups[0]), ','), forIndex);
      var rest := ParseGroupsRef(groups[1..], forIndex);
      ParseGroupsRef(groups, forIndex) ==
        if keys.Err? then Err(keys.error)
        else if rest.Err? then rest
        else if |keys.value| > 0 then Ok([keys.value] + rest.value)
        else rest
  {
    var xs := NonBlank(groups);
    assert xs[0] == Strip(groups[0]) && xs[1..] == NonBlank(groups[1..]);
    var keys := ParseItems(Split(Strip(groups[0]), ','), forIndex);
    var each := ParseEachGroup(xs[1..], forIndex);
    if keys.Ok? && each.Ok? {
      assert ([keys.value] + each.value)[1..] == each.value;
    }
  }

  /** The group loop keeps every non-blank group that yields keys, in the
      order the groups are written. */
  lemma {:induction false} ParseGroupsInOrder(groups: seq<string>, forIndex: bool)
    ensures ParseGroups(groups, forIndex) == ParseGroupsRef(groups, forIndex)
  {
    if |groups| > 0 {
      ParseGroupsInOrder(groups[1..], forIndex);
      if Strip(groups[0]) != "" {
        ParseGroupsRefCons(groups, forIndex);
      } else {
        assert NonBlank(groups) == NonBlank(groups[1..]);
      }
    }
  }

  /** A blank specification gives an empty list of key lists. */
  lemma {:induction false} BlankSpecIsEmpty(text: string, forIndex: bool)
    requires forall i :: 0 <= i < |text| ==> IsSpace(text[i])
    ensures GetSort(Spec(text), forIndex) == Ok(ListOfLists([]))
  {
    StripBlank(text);
    assert Strip(text) == "";
    assert Split("", ';') == [""];
    assert Strip("") == "";
    assert ParseGroups([""], forIndex) == Ok([]);
  }
}
