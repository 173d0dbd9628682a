# TDoTDat core, modelled in Dafny

TDoTDat is a data repository for gyrokinetic simulations. This project models
three pieces of it.

- **The OMAS-to-JSON-Schema converter** (`convert_omas.py`). It loads the flat
  OMAS gyrokinetics schema: a dict keyed by dotted names such as
  `gyrokinetics.wavevector[:].poloidal_turns`. Then, in order:
  - it deletes the `gyrokinetics` wrapper entry;
  - it prunes every key that contains a denylisted substring;
  - it forces the `data_type` of the poloidal-turns entry to `FLT_0D`;
  - it nests the entries with benedict key paths (`to_benedict`);
  - it turns every node into a JSON-Schema node (`convert_value`), stored at
    the node's JSON-Schema path (`dotted_name_to_nested_name`,
    `to_json_schema`).
- **The preview filter** `select_preview_file` (`tdotdat/records/views.py`). It
  sorts a record's files by key and picks the one to preview: the first file
  with a previewable extension, unless a later one is flagged `default`.
- **The equilibrium search box** (`EquilibriumSelection.js`). Its `initialState`
  and `reducer` form a small state machine over four action types.

Modules, one per file:

- `Json` (json.dfy): parsed JSON values, Python truthiness, the exceptions
  raised (`KeyError`, `TypeError`), and `Option`/`Result`.
- `Strings` (strings.dfy): the Python string operations the core uses. These
  are substring test, `split`, `join`, `replace("[:]", "")` (one left-to-right
  pass), `endswith`, ASCII `lower`, POSIX `os.path.splitext` and `<` on `str`.
- `Paths` (paths.dfy): the two name-to-path translations. The benedict key
  path erases markers. The JSON-Schema path turns `x[:]` into `x`, `items`.
- `Tree` (tree.dfy): benedict's key-path assignment on nested dicts.
  - On the values this code stores, it keeps an existing dict at each step
    and replaces anything else by a fresh `{}`.
  - `Build` folds such assignments in order.
  - `Lookup` follows a path.
- `OmasKeys` (omas_keys.dfy): the denylist, `drop_key`, the wrapper name and
  the fixed key.
- `OmasSchema` (omas_schema.dfy): what `prune`/`arbitrary_fixes` and
  `to_benedict` compute, as functions on values, with their properties.
- `SchemaDict` (schema_dict.dfy): the mutable dict `gk` as a class holding its
  insertion-ordered keys and its entries. Its methods are the in-place steps,
  each proved to compute the corresponding `OmasSchema` function.
- `Convert` (convert.dfy): `convert_value`, including the `[1-9]+D` array test.
- `JsonSchema` (json_schema.dfy): `to_json_schema`.
- `Preview` (preview.dfy): `select_preview_file`, with the previewable
  extensions as a parameter.
  - `sorted(..., key=itemgetter("key"))` is a stable insertion sort.
  - `Chosen` states declaratively which file is picked.
- `EquilibriumSelection` (equilibrium_selection.dfy): `initialState`,
  `reducer`, and runs of actions.

Exceptions are values. `None` (or `Err`) stands for "the Python or
JavaScript code raises". The model never requires them away: a missing
`data_type`, a missing fixed key and an unknown action type are all modelled
error paths.

Two behaviours of the code shape what the model states:

- `prune` raises `KeyError` when `gyrokinetics.wavevector[:].poloidal_turns`
  is absent, because `arbitrary_fixes` indexes that key unconditionally
  (`OmasSchema.PrunedKeepsOthers`, `SchemaDict.FlatSchema.ArbitraryFixes`).
  So prune is not total; it is idempotent once it succeeds
  (`OmasSchema.PruneIdempotent`).
- `convert_value` raises on a node without `data_type`, and `to_json_schema`
  converts every node it meets, including intermediate ones
  (`Convert.ConvertFails`). A schema holding only `gyrokinetics` and
  `gyrokinetics.flux_surface.q` therefore does not convert: its nested node
  `flux_surface` has no `data_type`. The same schema also lacks the
  poloidal-turns key, so it already fails in `prune`.

## Model

| member | source | states |
|---|---|---|
| Strings.ContainsIff | convert_omas.py:35 | `bad in key` holds exactly when `bad` occurs at some position of `key` |
| Strings.JoinSplit | convert_omas.py:78 | joining the pieces of `split(".")` with dots gives the name back |
| Strings.SplitConcat | convert_omas.py:78 | splitting `a + "." + b` gives the pieces of `a` followed by the pieces of `b` |
| Strings.SplitLength | convert_omas.py:78 | `split` yields one more piece than there are separators |
| Strings.StripMarkersLength | convert_omas.py:71 | `replace("[:]", "")` shortens the name by three characters per occurrence it removes |
| Strings.StripMarkersSinglePass | convert_omas.py:71 | `replace` makes a single pass: `"[[:]:]"` becomes `"[:]"`, which still holds a marker |
| Strings.Extension | tdotdat/records/views.py:44 | the extension is a suffix of the name without a dot or slash, and a non-empty one follows a dot |
| Strings.ExtensionOf | tdotdat/records/views.py:44 | for `stem + "." + e` with no dot or slash in `e`, the extension is `e` when the last component of `stem` has a character other than a dot, and empty otherwise |
| Strings.ExtensionNoDot | tdotdat/records/views.py:44 | a name without a dot has no extension |
| Strings.LowerLowercase | tdotdat/records/views.py:44 | `lower()` leaves no capital letter, changes no other character, and lowering twice is lowering once |
| Strings.LessTotal | tdotdat/records/views.py:43 | the key order used by `sorted` relates any two distinct keys |
| Paths.KeyPath | convert_omas.py:71 | the benedict path of a key has one component per dot of the marker-free key, plus one, and joining it with dots gives the marker-free key |
| Paths.NestedName | convert_omas.py:75-86 | the JSON-Schema path has at least one component per dotted segment, and no component holds a dot |
| Paths.NestedNameLength | convert_omas.py:75-86 | the JSON-Schema path has one component per dotted segment plus one `items` per array segment |
| Paths.NestedNameConcat | convert_omas.py:78-86 | segments translate independently: the path of `a.b` is the path of `a` followed by the path of `b` |
| Paths.NestedNamePlain | convert_omas.py:81-85 | a name without markers translates to its plain split |
| Paths.NestedNameSingle | convert_omas.py:75-86 | a name without dots or markers is a path of one component |
| Paths.NestedNameArray | convert_omas.py:82-83 | `x[:]` translates to `x`, `items` |
| Tree.SetPath | convert_omas.py:71 | after `d[path] = v` the top-level keys are the old ones plus the path's first component, and every other top-level entry is unchanged |
| Tree.LookupSetPath | convert_omas.py:95 | after `d[path] = v`, looking up `path` finds `v` |
| Tree.LookupSetPathOther | convert_omas.py:95 | `d[path] = v` leaves every path unrelated to `path` as it was |
| Tree.LookupSetPathBelow | convert_omas.py:71 | assigning below a dict found at `p` assigns the rest of the path inside that dict: the dict is extended, not replaced |
| Tree.BuildMerge | convert_omas.py:70-71 | a dict stored at a path and followed only by assignments unrelated to it or below it ends up with its own entries plus one key per assignment below it, its other entries unchanged |
| Tree.BuildLookup | convert_omas.py:70-71 | after a sequence of assignments, each value is found at its path unless a later path passes through it or stops on the way to it |
| OmasKeys.Dropped | convert_omas.py:34-35 | `drop_key` holds exactly when some denylisted entry occurs at some position of the key |
| OmasKeys.DroppedExtend | convert_omas.py:34-35 | a dropped key stays dropped whatever text is added before or after it |
| OmasKeys.FixKeyKept | convert_omas.py:13-50 | the entry that `arbitrary_fixes` overrides contains no denylisted substring, so prune never deletes it |
| OmasSchema.KeptKeys | convert_omas.py:34-38 | a key survives prune exactly when it is in the dict and contains no denylisted substring |
| OmasSchema.PrunedNoDenied | convert_omas.py:37-40 | after a successful prune no key contains a denylisted substring |
| OmasSchema.PrunedKeepsOthers | convert_omas.py:10-52 | prune succeeds exactly when the fixed key is present and holds a dict; otherwise it raises KeyError or TypeError. On success the keys are the non-denylisted keys, every other entry is unchanged, and the fixed entry's `data_type` is `FLT_0D` |
| OmasSchema.PruneIdempotent | convert_omas.py:10-52 | pruning a pruned dict again changes nothing |
| OmasSchema.BenedictFails | convert_omas.py:66-72 | `to_benedict` raises KeyError("gyrokinetics") exactly when no key's path starts with `gyrokinetics` |
| OmasSchema.BenedictPlaces | convert_omas.py:66-72 | an entry named `gyrokinetics.<rest>` is found at `<rest>` in the result unless a later key's path passes through it or stops on the way |
| OmasSchema.BenedictMerges | convert_omas.py:66-72 | an entry `gyrokinetics.<rest>` holding a dict, followed only by keys unrelated to it or below it, is found at `<rest>` with its own entries plus one key per later key below it |
| SchemaDict.FlatSchema.constructor | convert_omas.py:58-59 | the loaded dict holds the given distinct keys in order, with their entries |
| SchemaDict.FlatSchema.Delete | convert_omas.py:38 | `del gk[key]` raises KeyError when the key is absent; otherwise it removes that entry and keeps the order of the other keys |
| SchemaDict.FlatSchema.DropWrapper | convert_omas.py:61 | `del gk["gyrokinetics"]` removes the wrapper entry, or raises KeyError without it |
| SchemaDict.FlatSchema.ArbitraryFixes | convert_omas.py:43-52 | the in-place fix yields exactly the dict `OmasSchema.Fixed` describes, or raises with the dict unchanged |
| SchemaDict.FlatSchema.DeleteAll | convert_omas.py:37-38 | deleting the listed keys one by one removes exactly those entries and keeps the order of the rest |
| SchemaDict.FlatSchema.Prune | convert_omas.py:10-40 | in-place prune keeps the non-denylisted keys in order and yields the dict `OmasSchema.Pruned` describes; when the fix raises, the deletions stay done |
| SchemaDict.FlatSchema.ToBenedict | convert_omas.py:66-72 | the loop of assignments in key order yields `OmasSchema.Benedict`, whose properties `BenedictFails` and `BenedictPlaces` state |
| Convert.Prefix4 | convert_omas.py:123 | `code[:4]` is a prefix of the code of length min(4, len) |
| Convert.HasDimensionIffMatch | convert_omas.py:124 | the recursive array test holds exactly when `[1-9]+D` matches somewhere in the code |
| Convert.ConvertValue | convert_omas.py:100-149 | a conversion that does not raise starts from a node with a string code whose prefix is in `DATA_TYPES`, and yields a well-formed JSON-Schema node, recursively |
| Convert.ConvertFails | convert_omas.py:122-137 | conversion raises exactly when the node has no string `data_type`, its prefix is unknown, or it is a non-complex structure with a child that raises |
| Convert.ConvertType | convert_omas.py:122-140 | `type` is `array` exactly for array codes and the table's kind otherwise; an array's `items` carries the table's kind |
| Convert.ConvertShape | convert_omas.py:127-144 | an array has `items` and no top-level `properties`, and its items have `properties` exactly for objects; a non-array has no `items` and has `properties` exactly when it is an object |
| Convert.ConvertComplex | convert_omas.py:130-132 | a `CPX` node's properties are exactly `real` and `imag`, both numbers |
| Convert.ConvertChildren | convert_omas.py:133-137 | a non-complex structure has one property per non-metadata key, holding that child's conversion |
| Convert.ConvertDescription | convert_omas.py:146-147 | `description` is present exactly when `documentation` is present and truthy, and then equals it |
| Convert.ConvertFloatArray | convert_omas.py:123-140 | `FLT_1D` converts to an array of numbers |
| Convert.ConvertFloatScalar | convert_omas.py:122-127 | a node coded `FLT_0D`, as `arbitrary_fixes` leaves poloidal_turns, converts to a scalar number whatever else it holds |
| JsonSchema.ToJsonSchema | convert_omas.py:89-97 | the loop yields `JsonSchema.Schema`: the assignments performed in order, or an exception as soon as a node fails to convert |
| JsonSchema.SchemaPlaces | convert_omas.py:93-95 | each converted node is found at its key's nested name unless a later key's path passes through it or stops on the way |
| JsonSchema.SchemaMerges | convert_omas.py:89-97 | a converted node followed only by keys unrelated to it or below it is found at its nested name with its own fields plus one key per later key below it |
| JsonSchema.SchemaTopLevel | convert_omas.py:89-97 | for distinct keys without dots or markers, the result's keys are exactly the input keys and each maps to its node's conversion |
| Preview.SortByKey | tdotdat/records/views.py:43 | `sorted` by key yields an ascending permutation of the files |
| Preview.SortedAdjacent | tdotdat/records/views.py:43 | in the sorted files each key equals the one before it or follows it strictly, and not both |
| Preview.InsertSorted | tdotdat/records/views.py:43 | inserting a file into a sorted sequence keeps it sorted |
| Preview.SortedFlags | tdotdat/records/views.py:43-45 | sorting does not change whether some file is previewable |
| Preview.ChosenUnique | tdotdat/records/views.py:37-52 | the declarative choice picks at most one position |
| Preview.Scan | tdotdat/records/views.py:43-51 | the loop selects nothing exactly when no file is previewable. Otherwise it selects the chosen file: the first previewable file, or the last later one flagged `default` that the loop reaches before a file without `default` stops it |
| Preview.SelectPreviewFile | tdotdat/records/views.py:37-52 | the filter returns `None` exactly when `files` is `None`, some file lacks a `key`, or no file is previewable. Otherwise it returns a previewable input file that `Chosen` picks in the sorted order |
| EquilibriumSelection.Reducer | tdotdat/records/assets/semantic-ui/js/tdotdat_records/deposit/EquilibriumSelection.js:23-37 | the reducer returns a state exactly for the four known action types and throws otherwise |
| EquilibriumSelection.CleanQueryResets | tdotdat/records/assets/semantic-ui/js/tdotdat_records/deposit/EquilibriumSelection.js:15-26 | `CLEAN_QUERY` returns the initial state: not loading, no results, empty value, no token |
| EquilibriumSelection.StartSearchSets | tdotdat/records/assets/semantic-ui/js/tdotdat_records/deposit/EquilibriumSelection.js:27-28 | `START_SEARCH` sets loading, the query and the token, and keeps the results |
| EquilibriumSelection.FinishSearchSets | tdotdat/records/assets/semantic-ui/js/tdotdat_records/deposit/EquilibriumSelection.js:29-30 | `FINISH_SEARCH` clears loading and stores the results, keeping the value and the token |
| EquilibriumSelection.UpdateSelectionSets | tdotdat/records/assets/semantic-ui/js/tdotdat_records/deposit/EquilibriumSelection.js:31-32 | `UPDATE_SELECTION` changes the value and nothing else |
| EquilibriumSelection.ReducerIdempotent | tdotdat/records/assets/semantic-ui/js/tdotdat_records/deposit/EquilibriumSelection.js:23-37 | dispatching a known action twice has the effect of dispatching it once |
| EquilibriumSelection.RunThrows | tdotdat/records/assets/semantic-ui/js/tdotdat_records/deposit/EquilibriumSelection.js:34-35 | a sequence of dispatches throws exactly when one of its actions has an unknown type |
| EquilibriumSelection.RunValue | tdotdat/records/assets/semantic-ui/js/tdotdat_records/deposit/EquilibriumSelection.js:23-37 | the value after a run depends only on the starting value and the actions' queries, selections and cleans |
| EquilibriumSelection.RunResults | tdotdat/records/assets/semantic-ui/js/tdotdat_records/deposit/EquilibriumSelection.js:23-37 | the results after a run are those of the last finished search since the last clean, or the starting ones |
| EquilibriumSelection.RunConsistent | tdotdat/records/assets/semantic-ui/js/tdotdat_records/deposit/EquilibriumSelection.js:27-30 | when every started search carries a token, a loading state always holds a token |

## Left out

- File reading, JSON parsing, the command line, and the final `to_json(sort_keys=True)` round trip (`convert_omas_to_json_schema`, `__main__`) are I/O. The model starts from the parsed dict and stops at the nested result.
- Dict iteration order is kept where it matters: the keys of the flat schema, and the items passed to `to_json_schema`. Inside JSON values, objects are unordered maps, because the output is re-serialised with sorted keys.
- Floating-point numbers are not modelled. A number is an integer, used only for its truthiness.
- Convert.ConvertValue: models only that conversion raises, not whether it raises KeyError or TypeError. The children are an unordered map, so which failing child Python meets first is not modelled.
- Tree.SetPath: models benedict's assignment for string keys only. The model does not cover:
  - integer sub-keys, which create lists;
  - an existing list at a path prefix, which benedict keeps and where a string sub-key raises (this code never stores a list at a prefix);
  - custom key-path separators;
  - benedict's conversion of stored dicts into benedict instances;
  - keys with empty segments (`a..b`), which are treated as ordinary components.
- Strings.LowerLowercase: lowers ASCII letters only, not all of Unicode.
- Preview.SelectPreviewFile: models `default` as a boolean. Other truthy or falsy JSON values are not modelled.
- Preview.SortByKey: the insertion sort is stable, as Python's `sorted` is, but stability is not stated as a property.
- `current_previewer.previewable_extensions` is a parameter (a set of lower-case extensions), because it comes from the installed previewer configuration.
- EquilibriumSelection.Reducer: models the four fields of `initialState` and an action's `type`, `query`, `token`, `results` and `selection`. The empty-string `cancelToken` is `NoToken`, and a token is an opaque identifier. The search callback, axios requests, timers and rendering of the component are left out.
- The rest of `views.py` and the other components of the record UI are Flask, Invenio and React glue, not part of this model.
