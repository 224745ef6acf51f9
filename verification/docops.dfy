/** The dict-shaping helpers of a model instance: `to_dict`, `get_fresh`
    and `clean_for_dirty`. An instance is its `__dict__` (a `Doc`) together
    with the MRO of its class. */
module DocOps {
  import opened Results
  import opened PyValues
  import opened ClassAttrs

  /* ---------- to_dict ---------- */

  /** The key filter at the end of `to_dict`: `onlys` when it is non-empty,
      otherwise `excludes`. */
  predicate Kept(k: string, excludes: seq<string>, onlys: seq<string>)
  {
    if |onlys| > 0 then k in onlys else k !in excludes
  }

  /** `to_dict(include_defaults, deep, extras, excludes, onlys)`: the
      instance's values, then the class defaults through `setdefault`, then
      `extras` through `update`, then the key filter. Only the defaults can
      fail, when some class declares them as a list. */
  function ToDict(inst: Doc, mro: seq<ClassDesc>, includeDefaults: bool,
                  extras: Doc, excludes: seq<string>, onlys: seq<string>): (r: Result<Doc, AttrError>)
    ensures r.Ok? <==> !includeDefaults || DefaultsAreDicts(mro)
  {
    var base :- if includeDefaults then GetAllDefaults(mro) else Ok(map[]);
    var d := base + inst + extras;
    Ok(map k | k in d && Kept(k, excludes, onlys) :: d[k])
  }

  /** Which value `to_dict` reports for each key, and which keys it keeps:
      `extras` beat the instance, the instance beats the defaults. */
  lemma {:induction false} ToDictEntries(inst: Doc, mro: seq<ClassDesc>, includeDefaults: bool,
                                         extras: Doc, excludes: seq<string>, onlys: seq<string>, k: string)
    requires !includeDefaults || DefaultsAreDicts(mro)
    ensures var r := ToDict(inst, mro, includeDefaults, extras, excludes, onlys).value;
      && (k in r <==> Kept(k, excludes, onlys) &&
                      (k in extras || k in inst || (includeDefaults && Declares(mro, DefaultValues, k))))
      && (k in r && k in extras ==> r[k] == extras[k])
      && (k in r && k !in extras && k in inst ==> r[k] == inst[k])
      && (k in r && k !in extras && k !in inst ==> r[k] == GetDefault(mro, k))
  {
    if includeDefaults {
      MergedKeys(mro, DefaultValues, k);
      AllDefaultsAgree(mro, k);
    }
  }

  /** A non-empty `onlys` makes `excludes` irrelevant. */
  lemma {:induction false} OnlysOverrideExcludes(inst: Doc, mro: seq<ClassDesc>, includeDefaults: bool,
                                                 extras: Doc, ex1: seq<string>, ex2: seq<string>, onlys: seq<string>)
    requires |onlys| > 0
    ensures ToDict(inst, mro, includeDefaults, extras, ex1, onlys) == ToDict(inst, mro, includeDefaults, extras, ex2, onlys)
  {
    var r1 := ToDict(inst, mro, includeDefaults, extras, ex1, onlys);
    var r2 := ToDict(inst, mro, includeDefaults, extras, ex2, onlys);
    if r1.Ok? {
      assert r1.value.Keys == r2.value.Keys;
    }
  }

  /** With defaults included, no extras and no filter, `to_dict()` agrees
      with `self[key]` on every key it reports, and every key it leaves out
      reads as `None`. */
  lemma {:induction false} ToDictMatchesGetItem(inst: Doc, mro: seq<ClassDesc>, k: string)
    requires DefaultsAreDicts(mro)
    ensures var r := ToDict(inst, mro, true, map[], [], []).value;
      && (k in r ==> r[k] == GetItem(inst, mro, k))
      && (k !in r ==> GetItem(inst, mro, k) == Nil)
  {
    ToDictEntries(inst, mro, true, map[], [], [], k);
  }

  /* ---------- get_fresh ---------- */

  /** `get_fresh(new, old)`: the entries of `new` whose key `old` lacks or
      whose value differs under Python's `!=`. */
  function GetFresh(newDoc: Doc, oldDoc: Doc): (r: Doc)
    ensures r.Keys <= newDoc.Keys
    ensures forall k :: k in r ==> r[k] == newDoc[k]
  {
    map k | k in newDoc && (k !in oldDoc || !Equals(newDoc[k], oldDoc[k])) :: newDoc[k]
  }

  /** Nothing is fresh against itself. */
  lemma {:induction false} FreshOfSelf(d: Doc)
    ensures GetFresh(d, d) == map[]
  {
    forall k | k in d
      ensures Equals(d[k], d[k])
    {
      EqualsReflexive(d[k]);
    }
  }

  /** Nothing is fresh exactly when every entry of `new` has an equal
      counterpart in `old`. */
  lemma {:induction false} NoFreshIff(newDoc: Doc, oldDoc: Doc)
    ensures GetFresh(newDoc, oldDoc) == map[] <==>
      forall k :: k in newDoc ==> k in oldDoc && Equals(newDoc[k], oldDoc[k])
  {
    if GetFresh(newDoc, oldDoc) == map[] {
      forall k | k in newDoc
        ensures k in oldDoc && Equals(newDoc[k], oldDoc[k])
      {
        assert k !in GetFresh(newDoc, oldDoc);
      }
    }
  }

  /** Writing the fresh entries over `old` gives a dict that equals `new`
      on every key of `new`. */
  lemma {:induction false} FreshUpdate(newDoc: Doc, oldDoc: Doc)
    ensures var merged := oldDoc + GetFresh(newDoc, oldDoc);
      forall k :: k in newDoc ==> k in merged && Equals(merged[k], newDoc[k])
  {
    var merged := oldDoc + GetFresh(newDoc, oldDoc);
    forall k | k in newDoc
      ensures k in merged && Equals(merged[k], newDoc[k])
    {
      if k in GetFresh(newDoc, oldDoc) {
        EqualsReflexive(newDoc[k]);
      } else {
        EqualsSymmetric(newDoc[k], oldDoc[k]);
      }
    }
  }

  /** The fresh entries are the least update that does so: any sub-dict `m`
      of `new` whose entries, written over `old`, make it equal to `new` on
      every key of `new` contains every fresh key. So a key whose value is
      unchanged is never fresh. */
  lemma {:induction false} FreshIsLeast(newDoc: Doc, oldDoc: Doc, m: Doc)
    requires m.Keys <= newDoc.Keys
    requires forall k :: k in m ==> m[k] == newDoc[k]
    requires forall k :: k in newDoc ==> k in oldDoc + m && Equals((oldDoc + m)[k], newDoc[k])
    ensures GetFresh(newDoc, oldDoc).Keys <= m.Keys
  {
    forall k | k in GetFresh(newDoc, oldDoc)
      ensures k in m
    {
      if k !in m {
        assert k in oldDoc && Equals(oldDoc[k], newDoc[k]) by {
          assert (oldDoc + m)[k] == oldDoc[k];
        }
        EqualsSymmetric(oldDoc[k], newDoc[k]);
        assert false;
      }
    }
  }

  /* ---------- clean_for_dirty ---------- */

  /** The entries of `doc` under the scanned keys whose value differs from
      the instance's value for the key, read as `None` when it has none. */
  function Dirty(inst: Doc, doc: Doc, scanned: set<string>): (r: Doc)
  {
    map k | k in scanned && k in doc && !Equals(Get(inst, k), doc[k]) :: doc[k]
  }

  /** Scanning one more key adds its entry exactly when it is dirty. */
  lemma {:induction false} DirtyAdd(inst: Doc, doc: Doc, scanned: set<string>, k: string)
    ensures Dirty(inst, doc, scanned + {k}) ==
      if k in doc && !Equals(Get(inst, k), doc[k]) then Dirty(inst, doc, scanned)[k := doc[k]]
      else Dirty(inst, doc, scanned)
  {
    var a := Dirty(inst, doc, scanned + {k});
    var b := if k in doc && !Equals(Get(inst, k), doc[k]) then Dirty(inst, doc, scanned)[k := doc[k]]
             else Dirty(inst, doc, scanned);
    assert a.Keys == b.Keys;
  }

  /** The keys listed in `keys`. */
  function KeySet(keys: seq<string>): set<string>
  {
    set k | k in keys
  }

  /** The scan of `clean_for_dirty` over an explicit key list. */
  method ScanKeys(inst: Doc, doc: Doc, keys: seq<string>) returns (r: Option<Doc>)
    ensures r.None? <==> "_id" in keys
    ensures r.Some? ==> r.value == Dirty(inst, doc, KeySet(keys))
  {
    var cleaned: Doc := map[];
    var i := 0;
    while i < |keys|
      invariant 0 <= i <= |keys|
      invariant "_id" !in keys[..i]
      invariant cleaned == Dirty(inst, doc, KeySet(keys[..i]))
    {
      var k := keys[i];
      if k == "_id" {
        return None;
      }
      DirtyAdd(inst, doc, KeySet(keys[..i]), k);
      if k in doc && !Equals(Get(inst, k), doc[k]) {
        cleaned := cleaned[k := doc[k]];
      }
      assert KeySet(keys[..i + 1]) == KeySet(keys[..i]) + {k} by {
        assert keys[..i + 1] == keys[..i] + [k];
      }
      i := i + 1;
    }
    assert keys[..i] == keys;
    return Some(cleaned);
  }

  /** The scan of `clean_for_dirty` over the keys of `doc`, in any order. */
  method ScanDoc(inst: Doc, doc: Doc) returns (r: Option<Doc>)
    ensures r.None? <==> "_id" in doc
    ensures r.Some? ==> r.value == Dirty(inst, doc, doc.Keys)
  {
    var cleaned: Doc := map[];
    var todo := doc.Keys;
    while todo != {}
      invariant todo <= doc.Keys
      invariant "_id" !in doc.Keys - todo
      invariant cleaned == Dirty(inst, doc, doc.Keys - todo)
      decreases |todo|
    {
      var k :| k in todo;
      if k == "_id" {
        return None;
      }
      DirtyAdd(inst, doc, doc.Keys - todo, k);
      if !Equals(Get(inst, k), doc[k]) {
        cleaned := cleaned[k := doc[k]];
      }
      assert doc.Keys - (todo - {k}) == (doc.Keys - todo) + {k};
      todo := todo - {k};
    }
    assert doc.Keys - todo == doc.Keys;
    return Some(cleaned);
  }

  /** `clean_for_dirty(doc, keys)`: scans `keys`, or the keys of `doc` when
      `keys` is empty, returns `None` as soon as `"_id"` is scanned, and
      otherwise collects the entries of `doc` that differ from the
      instance. The order of the scan does not change the outcome, so the
      keys of `doc` are taken as a set. */
  method CleanForDirty(inst: Doc, doc: Doc, keys: seq<string>) returns (r: Option<Doc>)
    ensures var scanned := if |keys| > 0 then KeySet(keys) else doc.Keys;
      && (r.None? <==> "_id" in scanned)
      && (r.Some? ==> r.value == Dirty(inst, doc, scanned))
  {
    if |keys| > 0 {
      r := ScanKeys(inst, doc, keys);
    } else {
      r := ScanDoc(inst, doc);
    }
  }

  /** Over all of `doc`, the dirty entries are the fresh entries of `doc`
      against the instance, except for keys the instance lacks whose value
      in `doc` is `None`: `get_fresh` keeps those, `clean_for_dirty` reads
      the missing value as `None` and drops them. */
  lemma {:induction false} DirtyVersusFresh(inst: Doc, doc: Doc, k: string)
    ensures k in Dirty(inst, doc, doc.Keys) <==>
      k in GetFresh(doc, inst) && !(k !in inst && doc[k] == Nil)
  {
    if k in doc && k !in inst {
      NilEqualsOnlyNil(doc[k]);
    }
    if k in doc && k in inst {
      if Equals(inst[k], doc[k]) {
        EqualsSymmetric(inst[k], doc[k]);
      }
      if Equals(doc[k], inst[k]) {
        EqualsSymmetric(doc[k], inst[k]);
      }
    }
  }
}
