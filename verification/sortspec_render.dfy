/** Writing key lists back as specification text, and the round trip with
    `get_sort`: the parser recovers every well-formed key list from its
    rendering, and everything the parser produces is well-formed, so
    parsing a rendering of a parse changes nothing. */
module SortSpecRender {
  import opened Results
  import opened PyStrings
  import opened SortSpec
  import opened SortSpecLemmas

  /** The canonical (lower-case) table word for each direction. */
  function DirWord(d: Dir): (w: string)
  {
    match d
    case Ascending => "asc"
    case Descending => "desc"
    case Geo2D => "geo2d"
    case GeoSphere => "geosphere"
    case Hashed => "hashed"
    case Text => "text"
  }

  /** A field name the grammar can carry: non-empty, not starting with
      whitespace, and free of the three separators. */
  predicate FieldOk(f: string)
  {
    f != [] && !IsSpace(f[0]) && ' ' !in f && ',' !in f && ';' !in f
  }

  predicate KeyOk(k: Key, forIndex: bool)
  {
    FieldOk(k.field) && Allowed(k.dir, forIndex)
  }

  predicate KeysOk(g: seq<Key>, forIndex: bool)
  {
    forall i :: 0 <= i < |g| ==> KeyOk(g[i], forIndex)
  }

  predicate GroupsOk(gs: seq<seq<Key>>, forIndex: bool)
  {
    forall i :: 0 <= i < |gs| ==> |gs[i]| > 0 && KeysOk(gs[i], forIndex)
  }

  function RenderKey(k: Key): string
  {
    k.field + " " + DirWord(k.dir)
  }

  function RenderKeys(g: seq<Key>): (r: seq<string>)
    ensures |r| == |g| && forall i :: 0 <= i < |g| ==> r[i] == RenderKey(g[i])
  {
    seq(|g|, i requires 0 <= i < |g| => RenderKey(g[i]))
  }

  /** One group: `f1 d1,f2 d2,...`. */
  function RenderGroup(g: seq<Key>): string
  {
    Join(RenderKeys(g), ',')
  }

  function RenderGroups(gs: seq<seq<Key>>): (r: seq<string>)
    ensures |r| == |gs| && forall i :: 0 <= i < |gs| ==> r[i] == RenderGroup(gs[i])
  {
    seq(|gs|, i requires 0 <= i < |gs| => RenderGroup(gs[i]))
  }

  /** All groups: `group1;group2;...`. */
  function Render(gs: seq<seq<Key>>): string
  {
    Join(RenderGroups(gs), ';')
  }

  /** The key lists carried by a parse result. */
  function GroupsOf(v: SortValue): seq<seq<Key>>
  {
    match v
    case NoSort => []
    case OneList(keys) => [keys]
    case ListOfLists(lists) => lists
  }

  /* ---------- Rendering is parsed back ---------- */

  /** A string without upper-case ASCII letters is its own lower case. */
  lemma {:induction false} LowerOfLower(s: string)
    requires forall i :: 0 <= i < |s| ==> !('A' <= s[i] <= 'Z')
    ensures Lower(s) == s
  {
  }

  lemma {:induction false} DirWordShape(d: Dir)
    ensures var w := DirWord(d);
      && w != [] && ' ' !in w && ',' !in w && ';' !in w
      && !IsSpace(w[|w| - 1])
      && Lower(w) == w
  {
    var w := DirWord(d);
    assert forall i :: 0 <= i < |w| ==> 'a' <= w[i] <= 'z' || w[i] == '2';
    LowerOfLower(w);
  }

  /** Every direction a mode allows is in that mode's table under its word. */
  lemma {:induction false} DirWordLookup(d: Dir, forIndex: bool)
    requires Allowed(d, forIndex)
    ensures DirWord(d) in Names(forIndex) && Names(forIndex)[DirWord(d)] == d
  {
    if !forIndex {
      assert d == Ascending || d == Descending;
    }
  }

  lemma {:induction false} DirWordFacts(d: Dir, forIndex: bool)
    ensures var w := DirWord(d);
      && w != [] && ' ' !in w && ',' !in w && ';' !in w
      && !IsSpace(w[|w| - 1])
      && Lower(w) == w
      && (Allowed(d, forIndex) ==> w in Names(forIndex) && Names(forIndex)[w] == d)
  {
    DirWordShape(d);
    if Allowed(d, forIndex) {
      DirWordLookup(d, forIndex);
    }
  }

  lemma {:induction false} RenderedKey(k: Key, forIndex: bool)
    requires KeyOk(k, forIndex)
    ensures var s := RenderKey(k);
      && s != [] && Trimmed(s) && ',' !in s && ';' !in s
      && ParseItem(s, forIndex) == Ok(k)
  {
    var w := DirWord(k.dir);
    DirWordFacts(k.dir, forIndex);
    assert RenderKey(k) == k.field + Spaces(1) + w by {
      assert Spaces(1) == " ";
    }
    SpacesBeforeDirection(k.field, 1, w, forIndex);
  }

  lemma {:induction false} RenderedKeysParse(g: seq<Key>, forIndex: bool)
    requires KeysOk(g, forIndex)
    ensures ParseItems(RenderKeys(g), forIndex) == Ok(g)
  {
    if |g| > 0 {
      var items := RenderKeys(g);
      assert ParseItems(items[1..], forIndex) == Ok(g[1..]) by {
        assert items[1..] == RenderKeys(g[1..]);
        RenderedKeysParse(g[1..], forIndex);
      }
      assert Strip(items[0]) == items[0] != "" && ParseItem(items[0], forIndex) == Ok(g[0]) by {
        RenderedKey(g[0], forIndex);
        StripTrimmed(items[0]);
      }
      assert [g[0]] + g[1..] == g;
    }
  }

  lemma {:induction false} RenderedGroup(g: seq<Key>, forIndex: bool)
    requires |g| > 0 && KeysOk(g, forIndex)
    ensures var s := RenderGroup(g);
      && s != [] && Trimmed(s) && ';' !in s
      && Split(s, ',') == RenderKeys(g)
  {
    var items := RenderKeys(g);
    var s := Join(items, ',');
    forall i | 0 <= i < |items|
      ensures items[i] != [] && Trimmed(items[i]) && ',' !in items[i] && ';' !in items[i]
    {
      RenderedKey(g[i], forIndex);
    }
    assert s != [] && Trimmed(s) by {
      JoinEnds(items, ',');
      assert !IsSpace(items[0][0]) && !IsSpace(Last(Last(items)));
    }
    assert ';' !in s by {
      JoinChars(items, ',', ';');
    }
    assert Split(s, ',') == items by {
      SplitJoin(items, ',');
    }
  }

  lemma {:induction false} RenderedGroupsParse(gs: seq<seq<Key>>, forIndex: bool)
    requires GroupsOk(gs, forIndex)
    ensures ParseGroups(RenderGroups(gs), forIndex) == Ok(gs)
  {
    if |gs| > 0 {
      var groups := RenderGroups(gs);
      assert groups[1..] == RenderGroups(gs[1..]);
      RenderedGroupsParse(gs[1..], forIndex);
      RenderedGroup(gs[0], forIndex);
      StripTrimmed(groups[0]);
      RenderedKeysParse(gs[0], forIndex);
      assert [gs[0]] + gs[1..] == gs;
    }
  }

  /** The rendering of non-empty, well-formed key lists is already
      stripped and splits on `;` back into the rendered groups. */
  lemma {:induction false} RenderedText(gs: seq<seq<Key>>, forIndex: bool)
    requires |gs| > 0 && GroupsOk(gs, forIndex)
    ensures Strip(Render(gs)) == Render(gs)
    ensures Split(Render(gs), ';') == RenderGroups(gs)
  {
    var text := Render(gs);
    var groups := RenderGroups(gs);
    forall i | 0 <= i < |groups|
      ensures groups[i] != [] && Trimmed(groups[i]) && ';' !in groups[i]
    {
      RenderedGroup(gs[i], forIndex);
    }
    assert Strip(text) == text by {
      JoinEnds(groups, ';');
      assert !IsSpace(groups[0][0]) && !IsSpace(Last(Last(groups)));
      StripTrimmed(text);
    }
    assert Split(text, ';') == groups by {
      SplitJoin(groups, ';');
    }
  }

  /** Parsing the rendering of well-formed key lists gives them back, in the
      shape `get_sort` returns. */
  lemma {:induction false} ParseRender(gs: seq<seq<Key>>, forIndex: bool)
    requires GroupsOk(gs, forIndex)
    ensures GetSort(Spec(Render(gs)), forIndex) == Ok(Collapse(gs))
  {
    if |gs| == 0 {
      BlankSpecIsEmpty(Render(gs), forIndex);
    } else {
      RenderedText(gs, forIndex);
      RenderedGroupsParse(gs, forIndex);
    }
  }

  /* ---------- Parsing yields well-formed key lists ---------- */

  lemma {:induction false} ParsedItemsOk(items: seq<string>, forIndex: bool)
    requires forall i :: 0 <= i < |items| ==> ',' !in items[i] && ';' !in items[i]
    ensures ParseItems(items, forIndex).Ok? ==> KeysOk(ParseItems(items, forIndex).value, forIndex)
  {
    if |items| > 0 && ParseItems(items, forIndex).Ok? {
      ParsedItemsOk(items[1..], forIndex);
      var item := Strip(items[0]);
      if item != "" {
        StripChars(items[0], ',');
        StripChars(items[0], ';');
        var key := ParseItem(item, forIndex).value;
        var f := key.field;
        assert forall i :: 0 <= i < |f| ==> f[i] == item[i];
        assert f != [] by {
          assert item[0] != ' ';
        }
        assert KeyOk(key, forIndex);
      }
    }
  }

  lemma {:induction false} GroupsOkCons(g: seq<Key>, gs: seq<seq<Key>>, forIndex: bool)
    requires |g| > 0 && KeysOk(g, forIndex) && GroupsOk(gs, forIndex)
    ensures GroupsOk([g] + gs, forIndex)
  {
    assert forall i :: 1 <= i < |gs| + 1 ==> ([g] + gs)[i] == gs[i - 1];
  }

  lemma {:induction false} ParsedGroupsOk(groups: seq<string>, forIndex: bool)
    requires forall i :: 0 <= i < |groups| ==> ';' !in groups[i]
    ensures ParseGroups(groups, forIndex).Ok? ==> GroupsOk(ParseGroups(groups, forIndex).value, forIndex)
  {
    if |groups| > 0 && ParseGroups(groups, forIndex).Ok? {
      var g := Strip(groups[0]);
      var rest := ParseGroups(groups[1..], forIndex);
      assert rest.Ok? ==> GroupsOk(rest.value, forIndex) by {
        ParsedGroupsOk(groups[1..], forIndex);
      }
      if g != "" {
        var keys := ParseItems(Split(g, ','), forIndex);
        assert keys.Ok? ==> KeysOk(keys.value, forIndex) by {
          StripChars(groups[0], ';');
          SplitChars(g, ',', ';');
          ParsedItemsOk(Split(g, ','), forIndex);
        }
        if keys.Ok? && rest.Ok? && |keys.value| > 0 {
          GroupsOkCons(keys.value, rest.value, forIndex);
        }
      }
    }
  }

  /** Every key a specification string parses to is well-formed. */
  lemma {:induction false} ParsedSpecOk(text: string, forIndex: bool)
    requires GetSort(Spec(text), forIndex).Ok?
    ensures GroupsOk(GroupsOf(GetSort(Spec(text), forIndex).value), forIndex)
  {
    ParsedGroupsOk(Split(Strip(text), ';'), forIndex);
  }

  /** Rendering a parse and parsing it again changes nothing. */
  lemma {:induction false} ReparseIsStable(text: string, forIndex: bool)
    requires GetSort(Spec(text), forIndex).Ok?
    ensures GetSort(Spec(Render(GroupsOf(GetSort(Spec(text), forIndex).value))), forIndex)
         == GetSort(Spec(text), forIndex)
  {
    ParsedSpecOk(text, forIndex);
    ParseRender(GroupsOf(GetSort(Spec(text), forIndex).value), forIndex);
  }
}
