/** The uniqueness filter builder `get_uniq_spec`: each `,`-separated field
    group contributes the sub-document of `doc` on the group's fields that
    `doc` has; empty sub-documents are dropped and the rest are combined
    as `{"$or": specs}`, or the answer is `None`. */
module UniqSpec {
  import opened Results
  import opened PyStrings
  import opened PyValues
  import opened ClassAttrs

  /** The fields of a group: its `,`-separated pieces, stripped, with blank
      pieces skipped. A direction word such as `"name desc"` stays part of
      the field name. */
  function GroupFields(group: string): seq<string>
  {
    NonBlank(Split(group, ','))
  }

  /** The sub-document of `doc` on one group's fields. */
  function GroupSpec(fields: seq<string>, doc: Doc): (spec: Doc)
    ensures forall k :: k in spec <==> k in fields && k in doc
    ensures forall k :: k in spec ==> spec[k] == doc[k]
  {
    if |fields| == 0 then map[]
    else
      var rest := GroupSpec(fields[1..], doc);
      assert forall k :: k in fields <==> k == fields[0] || k in fields[1..];
      if fields[0] in doc then rest[fields[0] := doc[fields[0]]] else rest
  }

  /** The spec each group would contribute, one per group. */
  function PerGroup(groups: seq<string>, doc: Doc): (specs: seq<Doc>)
    ensures |specs| == |groups|
  {
    seq(|groups|, i requires 0 <= i < |groups| => GroupSpec(GroupFields(groups[i]), doc))
  }

  /** The filter on group specs: the non-empty ones, in order. */
  function NonEmpty(specs: seq<Doc>): (r: seq<Doc>)
    ensures |r| <= |specs|
    ensures forall j :: 0 <= j < |r| ==> r[j] != map[]
  {
    if |specs| == 0 then []
    else if specs[0] != map[] then [specs[0]] + NonEmpty(specs[1..])
    else NonEmpty(specs[1..])
  }

  /** `get_uniq_spec(fields, doc)`: `Some(specs)` for `{"$or": specs}`,
      `None` for `None`. */
  function GetUniqSpec(groups: seq<string>, doc: Doc): (r: Option<seq<Doc>>)
    ensures r.Some? ==> |r.value| > 0 && forall j :: 0 <= j < |r.value| ==> r.value[j] != map[]
  {
    var specs := NonEmpty(PerGroup(groups, doc));
    if |specs| == 0 then None else Some(specs)
  }

  /* ---------- Which groups contribute, in which order ---------- */

  /** The positions, from `from` on, of the non-empty specs. */
  function Contributing(specs: seq<Doc>, from: nat): (idx: seq<int>)
    ensures forall j :: 0 <= j < |idx| ==> from <= idx[j] < |specs|
    decreases |specs| - from
  {
    if from >= |specs| then []
    else
      var rest := Contributing(specs, from + 1);
      if specs[from] != map[] then [from] + rest else rest
  }

  /** The contributing positions ascend. */
  lemma {:induction false} ContributingAscends(specs: seq<Doc>, from: nat)
    ensures forall j, l :: 0 <= j < l < |Contributing(specs, from)| ==>
      Contributing(specs, from)[j] < Contributing(specs, from)[l]
    decreases |specs| - from
  {
    if from < |specs| {
      ContributingAscends(specs, from + 1);
      var rest := Contributing(specs, from + 1);
      if specs[from] != map[] {
        var idx := [from] + rest;
        forall j, l | 0 <= j < l < |idx|
          ensures idx[j] < idx[l]
        {
          assert idx[l] == rest[l - 1];
          if j > 0 {
            assert idx[j] == rest[j - 1];
          }
        }
      }
    }
  }

  /** A position is contributing exactly when its spec is non-empty. */
  lemma {:induction false} ContributingMembers(specs: seq<Doc>, from: nat, i: int)
    requires from <= i < |specs|
    ensures i in Contributing(specs, from) <==> specs[i] != map[]
    decreases |specs| - from
  {
    var rest := Contributing(specs, from + 1);
    if i > from {
      ContributingMembers(specs, from + 1, i);
      assert i in [from] + rest <==> i in rest;
    } else {
      assert i !in rest;
    }
  }

  /** The filter keeps exactly the specs at the contributing positions, in
      their order. */
  lemma {:induction false} NonEmptyInOrder(specs: seq<Doc>, from: nat)
    requires from <= |specs|
    ensures var kept, idx := NonEmpty(specs[from..]), Contributing(specs, from);
      |kept| == |idx| && forall j :: 0 <= j < |idx| ==> kept[j] == specs[idx[j]]
    decreases |specs| - from
  {
    if from < |specs| {
      assert specs[from..][1..] == specs[from + 1..];
      NonEmptyInOrder(specs, from + 1);
    }
  }

  /** `None` exactly when no field of any group is a key of `doc`. */
  lemma {:induction false} NoneIffNoFieldPresent(groups: seq<string>, doc: Doc)
    ensures GetUniqSpec(groups, doc).None? <==>
      forall i, k :: 0 <= i < |groups| && k in GroupFields(groups[i]) ==> k !in doc
  {
    var specs := PerGroup(groups, doc);
    var idx := Contributing(specs, 0);
    assert specs[0..] == specs;
    NonEmptyInOrder(specs, 0);
    if GetUniqSpec(groups, doc).None? {
      forall i, k | 0 <= i < |groups| && k in GroupFields(groups[i])
        ensures k !in doc
      {
        ContributingMembers(specs, 0, i);
        assert k !in specs[i];
      }
    } else {
      var i := idx[0];
      assert specs[i] != map[] by {
        ContributingMembers(specs, 0, i);
      }
      var k :| k in specs[i];
      assert k in GroupFields(groups[i]) && k in doc;
    }
  }

  /** The specs of `{"$or": specs}` are the non-empty group specs, in group
      order. */
  lemma {:induction false} SpecsInGroupOrder(groups: seq<string>, doc: Doc)
    ensures var r, idx := GetUniqSpec(groups, doc), Contributing(PerGroup(groups, doc), 0);
      && (forall j, l :: 0 <= j < l < |idx| ==> idx[j] < idx[l])
      && (forall i :: 0 <= i < |groups| ==> (i in idx <==> GroupSpec(GroupFields(groups[i]), doc) != map[]))
      && (r.Some? ==> |r.value| == |idx| &&
                      forall j :: 0 <= j < |idx| ==> r.value[j] == GroupSpec(GroupFields(groups[idx[j]]), doc))
  {
    var specs := PerGroup(groups, doc);
    assert specs[0..] == specs;
    NonEmptyInOrder(specs, 0);
    ContributingAscends(specs, 0);
    forall i | 0 <= i < |groups|
      ensures i in Contributing(specs, 0) <==> GroupSpec(GroupFields(groups[i]), doc) != map[]
    {
      ContributingMembers(specs, 0, i);
    }
  }

  /** A group contributes exactly when some of its fields, not necessarily
      all, is a key of `doc`. */
  lemma {:induction false} GroupContributes(groups: seq<string>, doc: Doc, i: int)
    requires 0 <= i < |groups|
    ensures i in Contributing(PerGroup(groups, doc), 0) <==>
      exists k :: k in GroupFields(groups[i]) && k in doc
  {
    var spec := GroupSpec(GroupFields(groups[i]), doc);
    ContributingMembers(PerGroup(groups, doc), 0, i);
    if spec != map[] {
      var k :| k in spec;
      assert k in GroupFields(groups[i]) && k in doc;
    } else {
      assert forall k :: k in GroupFields(groups[i]) ==> k !in doc by {
        forall k | k in GroupFields(groups[i])
          ensures k !in doc
        {
          assert k !in spec;
        }
      }
    }
  }

  /** Example: the fields of the group `"a, b"` are `a` and `b`. */
  lemma {:induction false} FieldsOfAB()
    ensures GroupFields("a, b") == ["a", "b"]
  {
    assert Split("a, b", ',') == ["a", " b"] by {
      assert "a, b" == "a" + [','] + " b";
      SplitAtSep("a", " b", ',');
      SplitNoSep(" b", ',');
    }
    assert Strip("a") == "a" by {
      StripTrimmed("a");
    }
    assert Strip(" b") == "b" by {
      assert StripLeft(" b") == StripLeft("b");
      StripTrimmed("b");
    }
    assert NonBlank(["a", " b"]) == ["a"] + NonBlank([" b"]);
    assert NonBlank([" b"]) == ["b"] + NonBlank([]);
  }

  /** A trimmed group without commas is one field, taken verbatim: a
      direction word after the name stays part of it. */
  lemma {:induction false} SingleFieldGroup(g: string)
    requires g != [] && ',' !in g && Trimmed(g)
    ensures GroupFields(g) == [g]
  {
    SplitNoSep(g, ',');
    StripTrimmed(g);
    assert NonBlank([g]) == [g] + NonBlank([]);
  }

  /** A single-field group whose field `doc` lacks gives no spec. */
  lemma {:induction false} SingleFieldMissing(g: string, doc: Doc)
    requires g != [] && ',' !in g && Trimmed(g) && g !in doc
    ensures GetUniqSpec([g], doc) == None
  {
    SingleFieldGroup(g);
    assert GroupSpec([g], doc) == map[];
    assert PerGroup([g], doc) == [map[]];
    assert NonEmpty([map[]]) == NonEmpty([]);
  }

  /** Example: `"a desc"` names the field `a desc`, so a document with an
      `a` key gets no spec from it. */
  lemma {:induction false} DirectionWordNotStripped()
    ensures GetUniqSpec(["a desc"], map["a" := Int(1)]) == None
  {
    var g := "a desc";
    assert g == ['a', ' ', 'd', 'e', 's', 'c'];
    SingleFieldMissing(g, map["a" := Int(1)]);
  }

  /** One group with some field in `doc` gives exactly its spec. */
  lemma {:induction false} SingleGroupPresent(g: string, doc: Doc)
    requires GroupSpec(GroupFields(g), doc) != map[]
    ensures GetUniqSpec([g], doc) == Some([GroupSpec(GroupFields(g), doc)])
  {
    var spec := GroupSpec(GroupFields(g), doc);
    assert PerGroup([g], doc) == [spec];
    assert NonEmpty([spec]) == [spec] by {
      assert [spec][1..] == [];
      assert NonEmpty([spec]) == [spec] + NonEmpty([]);
    }
  }

  /** Example: a group with only some of its fields in `doc` still
      contributes, with just those fields. */
  lemma {:induction false} PartialGroupKept()
    ensures GetUniqSpec(["a, b"], map["a" := Int(1)]) == Some([map["a" := Int(1)]])
  {
    var doc := map["a" := Int(1)];
    var spec := GroupSpec(["a", "b"], doc);
    assert spec == doc by {
      assert spec.Keys == {"a"};
    }
    assert GroupSpec(GroupFields("a, b"), doc) == doc by {
      FieldsOfAB();
    }
    SingleGroupPresent("a, b", doc);
  }

  /* ---------- The class-level wrapper ---------- */

  const UniqueFields := "__unique_fields__"

  /** Why the class-level wrapper cannot build a spec. */
  datatype UniqError = NotStringList(owner: string)

  /** The strings of a list of values, if every value is a string. */
  function Strings(vs: seq<Value>): (r: Option<seq<string>>)
    ensures r.Some? ==> |r.value| == |vs| && forall i :: 0 <= i < |vs| ==> vs[i] == Str(r.value[i])
    ensures r.None? ==> exists i :: 0 <= i < |vs| && !vs[i].Str?
  {
    if |vs| == 0 then Some([])
    else if !vs[0].Str? then None
    else
      match Strings(vs[1..])
      case None =>
        var i :| 0 <= i < |vs| - 1 && !vs[1..][i].Str?;
        assert !vs[i + 1].Str?;
        None
      case Some(rest) => Some([vs[0].s] + rest)
  }

  /** `cls.get_uniq_spec(fields, doc)`: explicit groups when given,
      otherwise the class's own `__unique_fields__` (never a base class's),
      otherwise none at all. */
  function ClassUniqSpec(c: ClassDesc, groups: seq<string>, doc: Doc): (r: Result<Option<seq<Doc>>, UniqError>)
    ensures |groups| > 0 ==> r == Ok(GetUniqSpec(groups, doc))
    ensures |groups| == 0 && UniqueFields !in c.own ==> r == Ok(None)
    ensures |groups| == 0 && UniqueFields in c.own && c.own[UniqueFields].ListAttr? &&
            Strings(c.own[UniqueFields].items).Some? ==>
      r == Ok(GetUniqSpec(Strings(c.own[UniqueFields].items).value, doc))
    ensures r.Err? <==>
      (|groups| == 0 && UniqueFields in c.own &&
       (c.own[UniqueFields].DictAttr? || Strings(c.own[UniqueFields].items).None?))
  {
    if |groups| > 0 then Ok(GetUniqSpec(groups, doc))
    else if UniqueFields !in c.own then
      Ok(GetUniqSpec([], doc))
    else
      match c.own[UniqueFields]
      case DictAttr(_) => Err(NotStringList(c.name))
      case ListAttr(items) =>
        match Strings(items)
        case None => Err(NotStringList(c.name))
        case Some(declared) => Ok(GetUniqSpec(declared, doc))
  }
}
