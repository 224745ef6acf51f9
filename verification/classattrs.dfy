/** Class-level attributes looked up along the method resolution order:
    `_get_default`, `__getitem__`, `get_class_attr` and `get_all_defaults`.
    A class is described by the attributes in its own `__dict__`; the MRO
    is the sequence of class descriptors, most-derived first. */
module ClassAttrs {
  import opened Results
  import opened PyValues

  /** A class attribute the lookups can meet: a list or a dict. */
  datatype Attr = ListAttr(items: seq<Value>) | DictAttr(entries: Doc)

  /** One class of the MRO with the attributes of its own `__dict__`. */
  datatype ClassDesc = ClassDesc(name: string, own: map<string, Attr>)

  /** Why a merge along the MRO fails. */
  datatype AttrError =
    | NotADict(owner: string)       // a list attribute has no `items()`
    | NotAList(owner: string)       // a dict attribute met in list mode

  const DefaultValues := "__default_values__"

  /** The dict a class itself declares under `name`, or `{}`. */
  function OwnDict(c: ClassDesc, name: string): Doc
  {
    if name in c.own && c.own[name].DictAttr? then c.own[name].entries else map[]
  }

  /** The list a class itself declares under `name`, or `[]`. */
  function OwnList(c: ClassDesc, name: string): seq<Value>
  {
    if name in c.own && c.own[name].ListAttr? then c.own[name].items else []
  }

  /** No class of `cs` declares `name` as a list. */
  predicate NoListUnder(cs: seq<ClassDesc>, name: string)
  {
    forall i :: 0 <= i < |cs| ==> name in cs[i].own ==> cs[i].own[name].DictAttr?
  }

  /** No class of `cs` declares `name` as a dict. */
  predicate NoDictUnder(cs: seq<ClassDesc>, name: string)
  {
    forall i :: 0 <= i < |cs| ==> name in cs[i].own ==> cs[i].own[name].ListAttr?
  }

  /** Every class that declares `__default_values__` declares a dict. */
  predicate DefaultsAreDicts(mro: seq<ClassDesc>)
  {
    NoListUnder(mro, DefaultValues)
  }

  /** Some class of `cs` declares `key` in its own dict `name`. */
  predicate Declares(cs: seq<ClassDesc>, name: string, key: string)
  {
    exists i :: 0 <= i < |cs| && key in OwnDict(cs[i], name)
  }

  /** `cs[j]` is the first class of `cs` declaring `key` in its dict `name`. */
  predicate FirstOwner(cs: seq<ClassDesc>, name: string, key: string, j: int)
  {
    && 0 <= j < |cs|
    && key in OwnDict(cs[j], name)
    && forall i :: 0 <= i < j ==> key !in OwnDict(cs[i], name)
  }

  /* ---------- _get_default and __getitem__ ---------- */

  /** `_get_default(key)`: the default of the first class in the MRO whose
      own `__default_values__` has `key`, or `None`. */
  function GetDefault(mro: seq<ClassDesc>, key: string): (v: Value)
    requires DefaultsAreDicts(mro)
    ensures !Declares(mro, DefaultValues, key) ==> v == Nil
  {
    if |mro| == 0 then Nil
    else if key in OwnDict(mro[0], DefaultValues) then OwnDict(mro[0], DefaultValues)[key]
    else GetDefault(mro[1..], key)
  }

  /** The first declaring class decides the default, whatever its bases say. */
  lemma {:induction false} DefaultFromFirstOwner(mro: seq<ClassDesc>, key: string, j: int)
    requires DefaultsAreDicts(mro)
    requires FirstOwner(mro, DefaultValues, key, j)
    ensures GetDefault(mro, key) == OwnDict(mro[j], DefaultValues)[key]
    decreases j
  {
    if j > 0 {
      assert FirstOwner(mro[1..], DefaultValues, key, j - 1) by {
        assert forall i :: 0 <= i < j - 1 ==> mro[1..][i] == mro[i + 1];
      }
      DefaultFromFirstOwner(mro[1..], key, j - 1);
    }
  }

  /** A subclass declaring `key` shadows every base class; one that does not
      declare it inherits the bases' answer. */
  lemma {:induction false} SubclassShadows(c: ClassDesc, bases: seq<ClassDesc>, key: string)
    requires DefaultsAreDicts([c] + bases)
    ensures DefaultsAreDicts(bases)
    ensures key in OwnDict(c, DefaultValues) ==> GetDefault([c] + bases, key) == OwnDict(c, DefaultValues)[key]
    ensures key !in OwnDict(c, DefaultValues) ==> GetDefault([c] + bases, key) == GetDefault(bases, key)
  {
    var mro := [c] + bases;
    assert mro[1..] == bases;
    forall i | 0 <= i < |bases| && DefaultValues in bases[i].own
      ensures bases[i].own[DefaultValues].DictAttr?
    {
      assert bases[i] == mro[i + 1];
    }
  }

  /** `self[key]`: the instance's own value, else the class default. */
  function GetItem(inst: Doc, mro: seq<ClassDesc>, key: string): (v: Value)
    requires DefaultsAreDicts(mro)
    ensures key in inst ==> v == inst[key]
    ensures key !in inst && !Declares(mro, DefaultValues, key) ==> v == Nil
    ensures forall j :: key !in inst && FirstOwner(mro, DefaultValues, key, j) ==>
      v == OwnDict(mro[j], DefaultValues)[key]
  {
    if key in inst then inst[key]
    else
      var d := GetDefault(mro, key);
      assert forall j :: FirstOwner(mro, DefaultValues, key, j) ==> d == OwnDict(mro[j], DefaultValues)[key] by {
        forall j | FirstOwner(mro, DefaultValues, key, j)
          ensures d == OwnDict(mro[j], DefaultValues)[key]
        {
          DefaultFromFirstOwner(mro, key, j);
        }
      }
      d
  }

  /* ---------- get_class_attr ---------- */

  /** The classes `get_class_attr` consults: all of them, or with
      `include_parents=False` the first one only. */
  function Consulted(mro: seq<ClassDesc>, includeParents: bool): (cs: seq<ClassDesc>)
    ensures includeParents ==> cs == mro
    ensures !includeParents && |mro| > 0 ==> cs == [mro[0]]
    ensures |mro| == 0 ==> cs == []
  {
    if includeParents || |mro| == 0 then mro else mro[..1]
  }

  /** Dict mode: `data.setdefault(k, v)` for every entry of every declared
      dict, most-derived class first; a declared list raises. */
  function MergeDicts(cs: seq<ClassDesc>, name: string): (r: Result<Doc, AttrError>)
    ensures r.Ok? <==> NoListUnder(cs, name)
    ensures r.Err? ==> r.error.NotADict?
  {
    if |cs| == 0 then Ok(map[])
    else if name !in cs[0].own then
      var rest := MergeDicts(cs[1..], name);
      assert NoListUnder(cs, name) <==> NoListUnder(cs[1..], name) by {
        assert forall i :: 1 <= i < |cs| ==> cs[i] == cs[1..][i - 1];
      }
      rest
    else
      match cs[0].own[name]
      case ListAttr(_) => Err(NotADict(cs[0].name))
      case DictAttr(entries) =>
        var rest := MergeDicts(cs[1..], name);
        assert NoListUnder(cs, name) <==> NoListUnder(cs[1..], name) by {
          assert forall i :: 1 <= i < |cs| ==> cs[i] == cs[1..][i - 1];
        }
        if rest.Err? then rest else Ok(rest.value + entries)
  }

  /** The merged dict has exactly the keys some consulted class declares. */
  lemma {:induction false} MergedKeys(cs: seq<ClassDesc>, name: string, key: string)
    requires MergeDicts(cs, name).Ok?
    ensures key in MergeDicts(cs, name).value <==> Declares(cs, name, key)
  {
    if |cs| > 0 {
      MergedKeys(cs[1..], name, key);
      if Declares(cs[1..], name, key) {
        var i :| 0 <= i < |cs| - 1 && key in OwnDict(cs[1..][i], name);
        assert key in OwnDict(cs[i + 1], name);
      }
      if Declares(cs, name, key) && key !in OwnDict(cs[0], name) {
        var i :| 0 <= i < |cs| && key in OwnDict(cs[i], name);
        assert i > 0 && cs[1..][i - 1] == cs[i];
      }
    }
  }

  /** The most-derived declaring class's value wins. */
  lemma {:induction false} MergedValue(cs: seq<ClassDesc>, name: string, key: string, j: int)
    requires MergeDicts(cs, name).Ok?
    requires FirstOwner(cs, name, key, j)
    ensures key in MergeDicts(cs, name).value
    ensures MergeDicts(cs, name).value[key] == OwnDict(cs[j], name)[key]
    decreases j
  {
    if j > 0 {
      assert FirstOwner(cs[1..], name, key, j - 1) by {
        assert forall i :: 0 <= i < j - 1 ==> cs[1..][i] == cs[i + 1];
      }
      MergedValue(cs[1..], name, key, j - 1);
    }
  }

  /** List mode: the declared lists concatenated, most-derived class first;
      a declared dict is reported instead of contributing its keys. */
  function ConcatLists(cs: seq<ClassDesc>, name: string): (r: Result<seq<Value>, AttrError>)
    ensures r.Ok? <==> NoDictUnder(cs, name)
    ensures r.Err? ==> r.error.NotAList?
  {
    if |cs| == 0 then Ok([])
    else
      var rest := ConcatLists(cs[1..], name);
      assert NoDictUnder(cs, name) <==>
        (name in cs[0].own ==> cs[0].own[name].ListAttr?) && NoDictUnder(cs[1..], name) by {
        assert forall i :: 1 <= i < |cs| ==> cs[i] == cs[1..][i - 1];
      }
      if name in cs[0].own && cs[0].own[name].DictAttr? then Err(NotAList(cs[0].name))
      else if rest.Err? then rest
      else Ok(OwnList(cs[0], name) + rest.value)
  }

  /** Concatenation respects MRO order: the lists of an MRO prefix come
      before those of the rest. */
  lemma {:induction false} ConcatSplits(a: seq<ClassDesc>, b: seq<ClassDesc>, name: string)
    requires NoDictUnder(a + b, name)
    ensures ConcatLists(a, name).Ok? && ConcatLists(b, name).Ok?
    ensures ConcatLists(a + b, name).value == ConcatLists(a, name).value + ConcatLists(b, name).value
    decreases |a|
  {
    assert forall i :: 0 <= i < |a| ==> a[i] == (a + b)[i];
    assert forall i :: 0 <= i < |b| ==> b[i] == (a + b)[|a| + i];
    if |a| == 0 {
      assert a + b == b;
    } else {
      assert (a + b)[1..] == a[1..] + b;
      ConcatSplits(a[1..], b, name);
      var x, y := OwnList(a[0], name), ConcatLists(a[1..], name).value;
      assert x + (y + ConcatLists(b, name).value) == (x + y) + ConcatLists(b, name).value;
    }
  }

  /** A single class contributes exactly its own list. */
  lemma {:induction false} ConcatOne(c: ClassDesc, name: string)
    requires name in c.own ==> c.own[name].ListAttr?
    ensures ConcatLists([c], name) == Ok(OwnList(c, name))
  {
    assert [c][1..] == [];
    assert OwnList(c, name) + [] == OwnList(c, name);
  }

  /** A single class contributes exactly its own dict. */
  lemma {:induction false} MergeOne(c: ClassDesc, name: string)
    requires name in c.own ==> c.own[name].DictAttr?
    ensures MergeDicts([c], name) == Ok(OwnDict(c, name))
  {
    assert [c][1..] == [];
    assert map[] + OwnDict(c, name) == OwnDict(c, name);
  }

  /** `get_class_attr(name, include_parents, attr_type={})`: with parents,
      the merge along the whole MRO; without, the class's own dict. */
  function ClassAttrDict(mro: seq<ClassDesc>, name: string, includeParents: bool): (r: Result<Doc, AttrError>)
    ensures includeParents ==> (r.Ok? <==> NoListUnder(mro, name))
    ensures !includeParents ==> (r.Ok? <==> (|mro| > 0 && name in mro[0].own ==> mro[0].own[name].DictAttr?))
    ensures !includeParents && r.Ok? ==> r.value == if |mro| > 0 then OwnDict(mro[0], name) else map[]
  {
    var cs := Consulted(mro, includeParents);
    if |cs| == 1 && (name in cs[0].own ==> cs[0].own[name].DictAttr?) then
      MergeOne(cs[0], name);
      MergeDicts(cs, name)
    else
      MergeDicts(cs, name)
  }

  /** Dict mode reports, for a key some consulted class declares, the value
      of the most-derived declaring class; without parents, a key only a
      base class declares is absent. */
  lemma {:induction false} ClassAttrDictEntries(mro: seq<ClassDesc>, name: string, includeParents: bool,
                                                key: string, j: int)
    requires ClassAttrDict(mro, name, includeParents).Ok?
    requires FirstOwner(mro, name, key, j)
    ensures includeParents || j == 0 ==>
      (key in ClassAttrDict(mro, name, includeParents).value &&
       ClassAttrDict(mro, name, includeParents).value[key] == OwnDict(mro[j], name)[key])
    ensures !includeParents && j > 0 ==> key !in ClassAttrDict(mro, name, includeParents).value
  {
    if includeParents {
      MergedValue(mro, name, key, j);
    }
  }

  /** With parents, dict mode reports exactly the keys some class of the MRO
      declares. */
  lemma {:induction false} ClassAttrDictKeys(mro: seq<ClassDesc>, name: string, key: string)
    requires ClassAttrDict(mro, name, true).Ok?
    ensures key in ClassAttrDict(mro, name, true).value <==> Declares(mro, name, key)
  {
    MergedKeys(mro, name, key);
  }

  /** `get_class_attr(name, include_parents, attr_type="list")`: with
      parents, the lists along the whole MRO; without, the class's own. */
  function ClassAttrList(mro: seq<ClassDesc>, name: string, includeParents: bool): (r: Result<seq<Value>, AttrError>)
    ensures includeParents ==> (r.Ok? <==> NoDictUnder(mro, name))
    ensures includeParents && r.Ok? && |mro| > 0 ==>
      r.value == OwnList(mro[0], name) + ClassAttrList(mro[1..], name, true).value
    ensures !includeParents && |mro| > 0 && (name in mro[0].own ==> mro[0].own[name].ListAttr?) ==>
      r == Ok(OwnList(mro[0], name))
    ensures !includeParents && |mro| > 0 && name in mro[0].own && mro[0].own[name].DictAttr? ==>
      r == Err(NotAList(mro[0].name))
    ensures |mro| == 0 ==> r == Ok([])
  {
    var cs := Consulted(mro, includeParents);
    if |cs| == 1 && (name in cs[0].own ==> cs[0].own[name].ListAttr?) then
      ConcatOne(cs[0], name);
      ConcatLists(cs, name)
    else
      ConcatLists(cs, name)
  }

  /** With `include_parents=False` only the class itself matters. */
  lemma {:induction false} OnlyFirstClass(m1: seq<ClassDesc>, m2: seq<ClassDesc>, name: string)
    requires |m1| > 0 && |m2| > 0 && m1[0] == m2[0]
    ensures ClassAttrDict(m1, name, false) == ClassAttrDict(m2, name, false)
    ensures ClassAttrList(m1, name, false) == ClassAttrList(m2, name, false)
  {
    assert Consulted(m1, false) == [m1[0]] == Consulted(m2, false);
  }

  /** `get_all_defaults()`: dict mode over the whole MRO. */
  function GetAllDefaults(mro: seq<ClassDesc>): (r: Result<Doc, AttrError>)
    ensures r.Ok? <==> DefaultsAreDicts(mro)
  {
    ClassAttrDict(mro, DefaultValues, true)
  }

  /** `get_all_defaults()` and `_get_default` agree: every key of the
      merged defaults maps to what `_get_default` finds, and every other key
      has no default. */
  lemma {:induction false} AllDefaultsAgree(mro: seq<ClassDesc>, key: string)
    requires DefaultsAreDicts(mro)
    ensures key in GetAllDefaults(mro).value ==> GetAllDefaults(mro).value[key] == GetDefault(mro, key)
    ensures key !in GetAllDefaults(mro).value ==> GetDefault(mro, key) == Nil
    decreases |mro|
  {
    if |mro| > 0 {
      SubclassShadows(mro[0], mro[1..], key);
      assert [mro[0]] + mro[1..] == mro;
      AllDefaultsAgree(mro[1..], key);
    }
  }
}
