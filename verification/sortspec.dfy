/** The sort/index specification parser `get_sort` and its two direction
    tables, `SORT_NAMES` and `INDEX_NAMES`. A specification such as
    `"a desc, b; c"` becomes driver key lists: `;` separates index groups,
    `,` separates keys inside a group, and a space separates a field from
    its direction word. */
module SortSpec {
  import opened Results
  import opened PyStrings

  /** The driver's direction and index-type codes. */
  datatype Dir = Ascending | Descending | Geo2D | GeoSphere | Hashed | Text

  /** One `(field, direction)` pair of a key list. */
  datatype Key = Key(field: string, dir: Dir)

  /** What a caller hands `get_sort`: nothing, a specification string, or a
      key list it has already built. */
  datatype SortArg = NoArg | Spec(text: string) | Built(keys: seq<Key>)

  /** What `get_sort` hands back: `None`, one key list, or a list of key
      lists (one per `;`-group). */
  datatype SortValue = NoSort | OneList(keys: seq<Key>) | ListOfLists(lists: seq<seq<Key>>)

  datatype SortError =
    | UnknownDirection(token: string)   // KeyError from the table lookup
    | NotAString                        // a built list has no `strip()`

  /** `SORT_NAMES`: the direction words accepted for sorting. */
  const SortNames: map<string, Dir> :=
    map["asc" := Ascending, "ascending" := Ascending,
        "desc" := Descending, "descending" := Descending]

  /** `INDEX_NAMES`: the direction and index-type words accepted for indexes. */
  const IndexNames: map<string, Dir> :=
    map["asc" := Ascending, "ascending" := Ascending,
        "desc" := Descending, "descending" := Descending,
        "geo2d" := Geo2D, "geosphere" := GeoSphere,
        "hashed" := Hashed, "text" := Text]

  function Names(forIndex: bool): map<string, Dir>
  {
    if forIndex then IndexNames else SortNames
  }

  /** The directions a mode can produce. */
  predicate Allowed(d: Dir, forIndex: bool)
  {
    forIndex || d == Ascending || d == Descending
  }

  /** One stripped, non-blank item: `field dir` or a bare `field`. */
  function ParseItem(item: string, forIndex: bool): (r: Result<Key, SortError>)
    ensures ' ' !in item ==> r == Ok(Key(item, Ascending))
    ensures r.Ok? ==> |r.value.field| <= |item| && item[..|r.value.field|] == r.value.field
    ensures r.Ok? ==> ' ' !in r.value.field
    ensures r.Ok? && |r.value.field| < |item| ==> item[|r.value.field|] == ' '
    ensures r.Ok? ==> Allowed(r.value.dir, forIndex)
    ensures r.Err? ==> ' ' in item && r.error.UnknownDirection? && r.error.token !in Names(forIndex)
  {
    var names := Names(forIndex);
    if ' ' in item then
      ReplaceKeepsSpace(item);
      var parts := Split(ReplaceDoubleSpace(item), ' ');
      var field := parts[0];
      var token := Lower(parts[1]);
      FieldIsPrefix(item, field, parts);
      if token in names then Ok(Key(field, names[token]))
      else Err(UnknownDirection(token))
    else
      Ok(Key(item, names["asc"]))
  }

  /** The first piece of the space-split is the text before the first space
      of the original item: the replacement only touches spaces. */
  lemma {:induction false} FieldIsPrefix(item: string, field: string, parts: seq<string>)
    requires ' ' in item
    requires parts == Split(ReplaceDoubleSpace(item), ' ') && field == parts[0]
    ensures |field| < |item| && item[..|field|] == field && item[|field|] == ' '
  {
    var k := FirstSpace(item);
    var p, x := item[..k], item[k + 1..];
    SpaceSplitHead(p, x);
    assert p + " " + x == item by {
      assert item == item[..k] + [item[k]] + item[k + 1..];
    }
  }

  /** The text before the first space survives the replacement and the split. */
  lemma {:induction false} SpaceSplitHead(p: string, x: string)
    requires ' ' !in p
    ensures Split(ReplaceDoubleSpace(p + " " + x), ' ')[0] == p
  {
    var tail := ReplaceDoubleSpace(" " + x);
    assert ReplaceDoubleSpace(p + " " + x) == p + [' '] + tail[1..] by {
      assert p + " " + x == p + (" " + x);
      ReplaceAfterSpaceFree(p, " " + x);
      assert tail == [' '] + tail[1..];
    }
    SplitAtSep(p, tail[1..], ' ');
  }

  function FirstSpace(s: string): (k: nat)
    requires ' ' in s
    ensures k < |s| && s[k] == ' ' && ' ' !in s[..k]
  {
    if s[0] == ' ' then 0
    else
      assert ' ' in s[1..];
      var k := FirstSpace(s[1..]);
      assert s[..k + 1] == [s[0]] + s[1..][..k];
      k + 1
  }

  /** The inner loop of `get_sort`: one `,`-separated group, items stripped,
      blank items skipped, stopping at the first bad direction word. */
  function ParseItems(items: seq<string>, forIndex: bool): (r: Result<seq<Key>, SortError>)
    ensures r.Ok? ==> |r.value| <= |items|
    ensures r.Err? ==> r.error.UnknownDirection?
  {
    if |items| == 0 then Ok([])
    else
      var item := Strip(items[0]);
      if item == "" then ParseItems(items[1..], forIndex)
      else
        var key :- ParseItem(item, forIndex);
        var keys :- ParseItems(items[1..], forIndex);
        Ok([key] + keys)
  }

  /** The outer loop of `get_sort`: `;`-separated groups, each stripped and
      parsed; groups that yield no key are dropped. */
  function ParseGroups(groups: seq<string>, forIndex: bool): (r: Result<seq<seq<Key>>, SortError>)
    ensures r.Ok? ==> |r.value| <= |groups|
    ensures r.Ok? ==> forall g :: g in r.value ==> |g| > 0
    ensures r.Err? ==> r.error.UnknownDirection?
  {
    if |groups| == 0 then Ok([])
    else
      var group := Strip(groups[0]);
      if group == "" then ParseGroups(groups[1..], forIndex)
      else
        var keys :- ParseItems(Split(group, ','), forIndex);
        var rest :- ParseGroups(groups[1..], forIndex);
        if |keys| > 0 then Ok([keys] + rest) else Ok(rest)
  }

  /** A single key list is handed back on its own; any other number of
      lists, none included, as a list of lists. */
  function Collapse(groups: seq<seq<Key>>): SortValue
  {
    if |groups| == 1 then OneList(groups[0]) else ListOfLists(groups)
  }

  /** `get_sort(sort, for_index)`. */
  function GetSort(arg: SortArg, forIndex: bool): (r: Result<SortValue, SortError>)
    ensures arg == NoArg ==> r == Ok(NoSort)
    ensures arg.Built? && !forIndex ==> r == Ok(OneList(arg.keys))
    ensures arg.Built? && forIndex ==> r == Err(NotAString)
    ensures arg.Spec? && r.Ok? ==>
      (r.value.OneList? && |r.value.keys| > 0) ||
      (r.value.ListOfLists? && |r.value.lists| != 1 &&
       forall g :: g in r.value.lists ==> |g| > 0)
    ensures arg.Spec? && r.Err? ==> r.error.UnknownDirection?
  {
    match arg
    case NoArg => Ok(NoSort)
    case Built(keys) => if !forIndex then Ok(OneList(keys)) else Err(NotAString)
    case Spec(text) =>
      var parsed := ParseGroups(Split(Strip(text), ';'), forIndex);
      if parsed.Err? then Err(parsed.error) else Ok(Collapse(parsed.value))
  }
}
