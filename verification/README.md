# flaskmongorm core, modelled in Dafny

flaskmongorm is a thin object-document layer over MongoDB for Flask
applications. This project models the pure logic of its single module,
`flaskmongorm/__init__.py`:

- **`get_sort`** turns a sort or index specification such as
  `"a desc, b; c hashed"` into driver key lists. `;` separates groups,
  `,` separates keys inside a group, and a space separates a field from its
  direction word. The direction word is looked up in `SORT_NAMES`, or in
  `INDEX_NAMES` for indexes (modules `SortSpec`, `SortSpecLemmas`,
  `SortSpecRender`).
- **`get_uniq_spec`** builds the `{"$or": [...]}` uniqueness filter from
  `,`-separated field groups and a document. The class-level wrapper falls
  back to the class's own `__unique_fields__` (module `UniqSpec`).
- **Class attributes along the MRO**: `get_class_attr` in list and dict
  mode, `get_all_defaults`, `_get_default` and `__getitem__` (module
  `ClassAttrs`).
- **Instance dict helpers**: `to_dict`, `get_fresh` and `clean_for_dirty`
  (module `DocOps`).

The supporting modules give these operations their Python semantics:

- `Results` provides `Option`, and `Result` for an operation that raises.
- `PyStrings` provides `str.strip()` over Python's whitespace set,
  `str.split(sep)`, `sep.join`, ASCII `lower()` and the single-pass
  `replace("  ", " ")`.
- `PyValues` provides the document values, and Python's `==`, under which
  `True == 1`.

A Python exception escaping an operation becomes an `Err` value:

- the `KeyError` of an unknown direction word;
- the `AttributeError` of a pre-built key list handed to the index parser;
- a class attribute declared with the wrong container type.

A Python class is modelled by `ClassAttrs.ClassDesc`. It holds the class
name and the attributes the class itself declares, and an MRO is a sequence
of these. An instance is its `__dict__` (a `Doc`) together with its class's
MRO.

## Model

| member | source | states |
|---|---|---|
| SortSpecLemmas.SortTableInsideIndexTable | flaskmongorm/__init__.py:24-36 | Every sort word is an index word with the same meaning. The index table adds exactly `geo2d`, `geosphere`, `hashed` and `text`. |
| SortSpec.ParseItem | flaskmongorm/__init__.py:52-56 | A bare item is the field, ascending. Otherwise the field is the text before the item's first space. The direction is allowed in the mode. An error names the lower-cased word that is missing from the table. |
| SortSpec.FieldIsPrefix | flaskmongorm/__init__.py:53 | The first piece of the space-split is the part of the original item before its first space. |
| SortSpecLemmas.SpacesBeforeDirection | flaskmongorm/__init__.py:53-54 | One or two spaces between field and word parse as the word's direction. Three or more leave an empty word, which raises `KeyError`. |
| SortSpecLemmas.DirectionWithTail | flaskmongorm/__init__.py:53-54 | For any run of spaces after the field, and anything after the word from its next space on: one or two spaces parse the word and ignore the rest. Three or more spaces, or an empty word, raise `KeyError` on the empty word. |
| SortSpecLemmas.ExtraWordsIgnored | flaskmongorm/__init__.py:53 | Words after the direction word are ignored (`[:2]`). |
| SortSpecLemmas.DirectionCaseInsensitive | flaskmongorm/__init__.py:54 | Two direction words that lower-case alike give the same result. |
| SortSpecLemmas.HashedOnlyForIndexes | flaskmongorm/__init__.py:43-54 | `f hashed` fails for sorting and gives `(f, HASHED)` for indexes. |
| SortSpecLemmas.UpperCaseDirection | flaskmongorm/__init__.py:54 | `f DESC` and `f desc` both sort descending. |
| SortSpec.ParseItems | flaskmongorm/__init__.py:49-56 | A group yields at most one key per item. Its only failure is an unknown direction. |
| SortSpecLemmas.ParseItemsSkipsBlanks | flaskmongorm/__init__.py:49-56 | The item loop equals parsing the stripped non-blank items in order, stopping at the first failure. |
| Results.Traverse | flaskmongorm/__init__.py:49-56 | The in-order loop that stops at the first raise: it succeeds exactly when every element does, and then holds each element's result. A failure is the first failing element's. |
| SortSpec.ParseGroups | flaskmongorm/__init__.py:45-59 | Only groups that yield keys are kept, so every kept key list is non-empty. |
| SortSpecLemmas.ParseGroupsInOrder | flaskmongorm/__init__.py:45-59 | For any input, the group loop equals the reference behaviour. That behaviour parses the stripped non-blank groups in order, stops at the first failure, and keeps exactly the groups that yield keys, in the order they are written. |
| SortSpecLemmas.ParseGroupsSkipsBlanks | flaskmongorm/__init__.py:45-47 | Blank groups are skipped without effect. |
| SortSpec.GetSort | flaskmongorm/__init__.py:39-61 | Covers each kind of argument. `None` passes through. A pre-built list passes through for sorting and fails for indexes. A parsed spec is one non-empty list when there is one group, otherwise a list of non-empty lists. A parse error is always an unknown direction. |
| SortSpecLemmas.BlankSpecIsEmpty | flaskmongorm/__init__.py:45-61 | An all-whitespace spec gives an empty list. |
| SortSpecRender.RenderedText | flaskmongorm/__init__.py:45 | The canonical rendering of key lists is already stripped, and it splits on `;` back into its groups. |
| SortSpecRender.ParseRender | flaskmongorm/__init__.py:39-61 | Parsing the canonical rendering of well-formed key lists gives them back, in the collapsed shape. |
| SortSpecRender.ParsedSpecOk | flaskmongorm/__init__.py:45-59 | Every key list a spec parses to is well-formed. Each field is non-empty and free of spaces and separators, and each direction is allowed in the mode. |
| SortSpecRender.ReparseIsStable | flaskmongorm/__init__.py:39-61 | Rendering a successful parse and parsing again gives the same result. |
| PyStrings.Strip | flaskmongorm/__init__.py:45-51 | `strip()` leaves no leading or trailing whitespace and never lengthens. |
| PyStrings.StripBlank | flaskmongorm/__init__.py:46-51 | A stripped string is empty exactly when the original is all whitespace. |
| PyStrings.Split | flaskmongorm/__init__.py:45-53 | `split(sep)` gives at least one piece, and no piece contains the separator. There are two or more pieces exactly when the separator occurs. |
| PyStrings.JoinSplit | flaskmongorm/__init__.py:45-53 | Joining the pieces of a split gives back the string. |
| PyStrings.SplitJoin | flaskmongorm/__init__.py:45-53 | Splitting a join of separator-free pieces gives back the pieces. |
| PyStrings.ReplaceKeepsSpace | flaskmongorm/__init__.py:53 | `replace("  ", " ")` keeps a space exactly when there was one. |
| PyStrings.ReplaceSpaces | flaskmongorm/__init__.py:53 | A run of n spaces becomes a run of ceil(n/2) spaces. |
| UniqSpec.GroupSpec | flaskmongorm/__init__.py:67-70 | A group's spec has exactly the group's fields that the document has, with the document's values. |
| UniqSpec.NonEmpty | flaskmongorm/__init__.py:72-73 | Only non-empty specs are kept. |
| UniqSpec.GetUniqSpec | flaskmongorm/__init__.py:64-75 | The `$or` list is non-empty and every entry in it is non-empty. |
| UniqSpec.NoneIffNoFieldPresent | flaskmongorm/__init__.py:64-75 | The result is `None` exactly when no field of any group is a key of the document. |
| UniqSpec.SpecsInGroupOrder | flaskmongorm/__init__.py:65-75 | The `$or` entries are the non-empty group specs, in group order. A group contributes exactly when its spec is non-empty. |
| UniqSpec.ContributingAscends | flaskmongorm/__init__.py:66-73 | The contributing group positions ascend. |
| UniqSpec.ContributingMembers | flaskmongorm/__init__.py:72-73 | A group position contributes exactly when its spec is non-empty. |
| UniqSpec.NonEmptyInOrder | flaskmongorm/__init__.py:66-73 | The kept specs are those at the contributing positions, in order. |
| UniqSpec.GroupContributes | flaskmongorm/__init__.py:67-73 | A group contributes exactly when some of its fields, not necessarily all, is a key of the document. |
| UniqSpec.FieldsOfAB | flaskmongorm/__init__.py:68 | Example: the group `"a, b"` has the fields `a` and `b`, with whitespace stripped. |
| UniqSpec.SingleFieldGroup | flaskmongorm/__init__.py:68 | A trimmed group without commas is a single field, taken verbatim. |
| UniqSpec.DirectionWordNotStripped | flaskmongorm/__init__.py:68-69 | Example: `"a desc"` names the field `a desc`, so a document keyed `a` gives `None`. |
| UniqSpec.SingleGroupPresent | flaskmongorm/__init__.py:66-75 | One group that has some field in the document gives exactly its spec. |
| UniqSpec.PartialGroupKept | flaskmongorm/__init__.py:67-73 | Example: the group `"a, b"` with only `a` in the document still contributes `{a: ...}`. |
| UniqSpec.Strings | flaskmongorm/__init__.py:289 | A declared list is read as field groups exactly when every element is a string. |
| UniqSpec.ClassUniqSpec | flaskmongorm/__init__.py:287-291 | Explicit groups are used when given. Otherwise a list of strings declared as the class's own `__unique_fields__` is used as the groups, never a base class's. With none declared there is no filter. It fails exactly when no groups are given and the class's own declaration is a dict or holds a non-string. |
| ClassAttrs.GetDefault | flaskmongorm/__init__.py:141-146 | A key that no class in the MRO declares has the default `None`. |
| ClassAttrs.DefaultFromFirstOwner | flaskmongorm/__init__.py:142-144 | The first class in the MRO that declares the key decides its default. |
| ClassAttrs.SubclassShadows | flaskmongorm/__init__.py:142-146 | A declaring subclass shadows its bases. A non-declaring one inherits their answer. |
| ClassAttrs.GetItem | flaskmongorm/__init__.py:148-149 | The instance value wins. Otherwise the value is the first owner's default, or `None`. |
| ClassAttrs.Consulted | flaskmongorm/__init__.py:296-305 | With `include_parents` the whole MRO is consulted. Without it only the class itself is consulted. |
| ClassAttrs.ClassAttrDict | flaskmongorm/__init__.py:293-307 | Dict mode with parents succeeds exactly when no class in the MRO declares a list. Without parents it succeeds exactly when the class itself does not declare a list, and it gives the class's own dict. |
| ClassAttrs.ClassAttrDictEntries | flaskmongorm/__init__.py:296-305 | Every key the first declaring class holds maps to that class's value. Without parents, this holds only when that class is the class itself; a key only a base declares is absent. |
| ClassAttrs.ClassAttrDictKeys | flaskmongorm/__init__.py:296-302 | With parents, dict mode reports exactly the keys that some class in the MRO declares. |
| ClassAttrs.ClassAttrList | flaskmongorm/__init__.py:293-307 | List mode with parents succeeds exactly when no class in the MRO declares a dict. It gives the class's own list followed by the result for its bases. Without parents it gives the class's own list, or fails when the class declares a dict. |
| ClassAttrs.MergeDicts | flaskmongorm/__init__.py:293-307 | Dict mode succeeds exactly when no consulted class declares the attribute as a list. |
| ClassAttrs.MergedKeys | flaskmongorm/__init__.py:296-302 | The merged dict's keys are exactly those some consulted class declares. |
| ClassAttrs.MergedValue | flaskmongorm/__init__.py:301-302 | Through `setdefault`, the most-derived declaring class's value wins. |
| ClassAttrs.ConcatLists | flaskmongorm/__init__.py:293-307 | List mode succeeds exactly when no consulted class declares a dict. |
| ClassAttrs.ConcatSplits | flaskmongorm/__init__.py:296-299 | The lists concatenate in MRO order: the result for an MRO prefix comes before the result for the rest. |
| ClassAttrs.MergeOne | flaskmongorm/__init__.py:300-302 | A single class contributes exactly its own dict. |
| ClassAttrs.ConcatOne | flaskmongorm/__init__.py:297-299 | A single class contributes exactly its own list. |
| ClassAttrs.OnlyFirstClass | flaskmongorm/__init__.py:304-305 | With `include_parents=False`, two MROs that start with the same class give the same answer in both modes. |
| ClassAttrs.GetAllDefaults | flaskmongorm/__init__.py:137-139 | Merging the defaults succeeds exactly when every declared `__default_values__` is a dict. |
| ClassAttrs.AllDefaultsAgree | flaskmongorm/__init__.py:137-146 | `get_all_defaults()` agrees with `_get_default` on every key, and a key it lacks has no default. |
| DocOps.ToDict | flaskmongorm/__init__.py:110-127 | `to_dict` can fail only by including defaults that some class declares as a list. |
| DocOps.ToDictEntries | flaskmongorm/__init__.py:118-127 | A key is reported when the filter keeps it and it comes from `extras`, the instance or a default. `extras` beat the instance, and the instance beats the defaults. |
| DocOps.OnlysOverrideExcludes | flaskmongorm/__init__.py:124-127 | A non-empty `onlys` makes `excludes` irrelevant. |
| DocOps.ToDictMatchesGetItem | flaskmongorm/__init__.py:118-149 | `to_dict()` agrees with `self[key]` on every key it reports, and an unreported key reads as `None`. |
| DocOps.GetFresh | flaskmongorm/__init__.py:338-344 | The fresh entries are entries of the new dict, with the new dict's values. |
| DocOps.FreshOfSelf | flaskmongorm/__init__.py:338-344 | Nothing is fresh against itself. |
| DocOps.NoFreshIff | flaskmongorm/__init__.py:338-344 | Nothing is fresh exactly when every new entry has an equal old counterpart. |
| DocOps.FreshUpdate | flaskmongorm/__init__.py:338-344 | Writing the fresh entries over the old dict makes it equal to the new dict on the new dict's keys. |
| DocOps.FreshIsLeast | flaskmongorm/__init__.py:338-344 | The fresh entries are the least such update. Any sub-dict of the new dict whose entries, written over the old dict, make it equal to the new dict contains every fresh key. So an unchanged key is never fresh. |
| DocOps.DirtyAdd | flaskmongorm/__init__.py:333-334 | Scanning one more key adds its entry exactly when it differs from the instance. |
| DocOps.ScanKeys | flaskmongorm/__init__.py:326-336 | Over explicit keys, the scan returns `None` exactly when `_id` is among them. Otherwise it returns the differing entries under those keys. |
| DocOps.ScanDoc | flaskmongorm/__init__.py:326-336 | Over the keys of the document, the scan returns `None` exactly when the document has `_id`. Otherwise it returns its differing entries. |
| DocOps.CleanForDirty | flaskmongorm/__init__.py:326-336 | Scans `keys`, or the document's keys when `keys` is empty, with the outcome above. |
| DocOps.DirtyVersusFresh | flaskmongorm/__init__.py:326-344 | Over the whole document, the dirty keys are the fresh keys against the instance, except keys the instance lacks whose document value is `None`. |
| PyValues.EqualsReflexive | flaskmongorm/__init__.py:343 | Python `==` is reflexive on document values. |
| PyValues.EqualsSymmetric | flaskmongorm/__init__.py:343 | Python `==` is symmetric. |
| PyValues.EqualsTransitive | flaskmongorm/__init__.py:343 | Python `==` is transitive. |
| PyValues.NilEqualsOnlyNil | flaskmongorm/__init__.py:333 | `None` equals only `None`. |

## Left out

- Connection and driver plumbing is not modelled, because it is I/O against MongoDB: `init_app`, `get_client`, `get_db`, `get_collection`, `with_options`, `with_session` and transactions, and the CRUD wrappers with their error capture.
- `is_unique` is not modelled, because it queries the database. Only the filter it sends (`get_uniq_spec`) is modelled.
- The ObjectId helpers, the timezone helpers and `parse_indexes` are not modelled, because they call into the driver or the clock.
- `get_page_args` and `_parse_find_options` are not modelled, because they read the Flask request.
- Values are limited to `None`, booleans, integers, strings and lists. Floats, dates, ObjectIds and nested dicts are not modelled, and neither is the cross-type `==` they bring.
- The `deep` flag of `to_dict` has no counterpart, because model values are immutable and copying cannot alias.
- Dict insertion order is not modelled, because maps are unordered. The keys `to_dict` and `get_fresh` keep, and their values, are modelled, but not their order.
- `CleanForDirty` scans the document's keys as a set. Python scans them in insertion order, and the outcome is the same in either order.
- `Lower` lower-cases ASCII letters only. No other Unicode case mapping yields a word of either direction table.
- `get_sort` is modelled for `None`, a string and a pre-built key list. Python's behaviour for other argument types is not modelled.
- `ClassAttrs.ClassAttrList`: `get_class_attr` in list mode gives `Err(NotAList)` when a consulted class declares the attribute as a dict. Python instead extends the list with the dict's keys in insertion order, which maps cannot express.
- `ClassAttrs.ConcatLists`: the same difference, in the list-mode merge that `ClassAttrList` is built on.
- `ClassAttrs.GetDefault`: requires every declared `__default_values__` to be a dict. Python tests membership in a list-valued one, and raises `TypeError` only when the key is in the list.
- `ClassAttrs.GetItem`: same requirement as `GetDefault`. Python evaluates the default eagerly, even when the instance has the key.
- `UniqSpec.ClassUniqSpec`: a dict-valued `__unique_fields__`, or one holding non-strings, gives `Err`. Python iterates a dict's keys and fails on non-strings only when it splits them.
- `UniqSpec.GetUniqSpec`: the code keeps a group that has only some of its fields in the document (see `PartialGroupKept`). The model follows the code, not the intuition that every field of a group must be present.
