# pydantic-compat, modelled in Dafny

pydantic-compat lets one model class run on both pydantic v1 and pydantic v2.
Most of the package is one-line delegation into pydantic. Underneath sit a few
translation rules, and this project models those rules and proves what they do:

- **Config-option renaming.** On v1, a v2-style `model_config` dict in a class
  body is turned into a v1 `Config` class. On v2, a v1-style `Config` class is
  turned into a `model_config` dict. Both directions rename the options the
  rename table lists, key by key, in sorted order.
- **The metaclass hooks** that rewrite the class namespace before pydantic sees it.
- **The mixin-order check**, a warning when the mixin is listed after
  `pydantic.BaseModel`.
- **`Field` keyword renaming** on v1: `min_length`, `max_length` and `frozen`
  become `min_items`, `max_items` and `allow_mutation`.
- **The validator decorators.** They map v2 arguments onto v1's `validator` and
  `root_validator` (two copies), and v1 arguments onto v2's deprecated
  validators.
- **The mapping adapters** `FieldInfoLike`, `FieldInfoMap` and `DictLike`. On v1
  they present `__fields__` and `__config__` through the v2 interface.

How Python is represented:

- A Python dict is an insertion-ordered list of pairs (`PyDict.Items`).
  `PyDict.ToMap` abstracts it into a Dafny `map`.
- A dict that the source changes in place is a `PyDict.DictObj` object. Its
  `SetItem`, `Pop`, `PopOr` and `SetDefault` are `d[k] = v`, `d.pop(k)`,
  `d.pop(k, default)` and `d.setdefault(k, v)`.
- `sorted()` is `StrOrder.Sorted`, which orders strings lexicographically by code
  point. `dir()` is `PyObjects.PyObject.Dir`.
- The rename table (`V2_RENAMED_CONFIG_KEYS`, old name to new name) is a
  parameter of every operation that uses it. Its contents are not part of this
  model.
- The round trips assume three things about the table:
  - it is injective;
  - no name is both a source and a target;
  - the config holds no name from the side it is being renamed into.
- Exceptions are the error half of a `Wrappers.Result`, or `Wrappers.None` where
  a lookup would raise.

The `_v1.py` file holds an older copy of `FieldInfoLike`, `FieldInfoMap` and
`DictLike`, identical to the one in `_v1/mixin.py`. The classes in `V1Mixin`
model both copies (`src/pydantic_compat/_v1.py:68-127` mirrors `src/pydantic_compat/_v1/mixin.py:125-184` line for line), and the table cites the newer one. `_v1_decorators.py` is an older
copy of the v1 decorators that differs in details. It is its own module,
`V1LegacyDecorators`, with lemmas comparing it to `V1Decorators`.

## Model

| member | source | states |
|---|---|---|
| Shared.OrderWarning | src/pydantic_compat/_shared.py:13 | The warning text is longer than the mixin's `__name__` and begins with it. |
| Shared.IndexOf | src/pydantic_compat/_shared.py:9-10 | `bases.index(c)` is the first position of `c`. It is absent (the ValueError) exactly when `c` is not in the bases. |
| Shared.CheckMixinOrder | src/pydantic_compat/_shared.py:5-15 | A warning is emitted iff both classes are direct bases and the base model occurs earlier than the mixin's first occurrence. Missing classes give no warning. The text is "<mixin name> should appear before pydantic.BaseModel". |
| Shared.MixinFirstNoWarning | tests/test_base_model.py:82-83 | Bases `(Mixin, BaseModel)` give no warning. |
| Shared.MixinAfterWarns | tests/test_base_model.py:74-80 | Bases `(BaseModel, PydanticCompatMixin)` give exactly the warning the test matches. |
| StrOrder.LessIrreflexive | src/pydantic_compat/_v1/mixin.py:49 | The string order `sorted` uses is irreflexive. |
| StrOrder.LessTransitive | src/pydantic_compat/_v1/mixin.py:49 | The string order is transitive. |
| StrOrder.LessTotal | src/pydantic_compat/_v1/mixin.py:49 | Of two distinct strings, one is less than the other. |
| StrOrder.LessAsymmetric | src/pydantic_compat/_v1/mixin.py:49 | The string order is asymmetric. |
| StrOrder.Insert | src/pydantic_compat/_v1/mixin.py:49 | Inserting into a strictly sorted list keeps it strictly sorted and adds exactly the new element. |
| StrOrder.Sorted | src/pydantic_compat/_v1/mixin.py:49 | `sorted(keys)` of a set is strictly increasing and holds exactly the given elements. |
| StrOrder.StrictlySortedUnique | src/pydantic_compat/_v2/mixin.py:40 | Two strictly sorted lists with the same elements are equal, so the rename order is determined by the set of keys. |
| PyDict.Keys | src/pydantic_compat/_v1/mixin.py:158-159 | Iterating a dict yields its keys in insertion order. |
| PyDict.Get | src/pydantic_compat/_v1/mixin.py:152-153 | `d[k]` fails exactly when `k` is not a key, and otherwise yields a value stored under `k`. |
| PyDict.GetAt | src/pydantic_compat/_v1/mixin.py:152-153 | In a well-formed dict, the value at each position is what `d[k]` returns for its key. |
| PyDict.ToMap | src/pydantic_compat/_v1/mixin.py:47-52 | The abstraction of a dict as a map has the dict's keys, and looking a key up agrees with `d[k]`. |
| PyDict.Set | src/pydantic_compat/_v1/mixin.py:50 | `d[k] = v` makes `d[k]` return `v` and changes no other key. The key order is unchanged when `k` was present, and `k` is appended when it was not. |
| PyDict.Remove | src/pydantic_compat/_v1/mixin.py:50 | `d.pop(k)` removes exactly `k`. Other keys keep their order and values. |
| PyDict.RemoveAbsent | src/pydantic_compat/_v2/mixin.py:113-119 | Removing an absent key leaves the dict unchanged. |
| PyDict.RemoveCons | src/pydantic_compat/_v2/mixin.py:113-119 | Removal works through the list of entries one entry at a time. |
| PyDict.ToMapSet | src/pydantic_compat/_v1/mixin.py:50 | Assignment is map update. |
| PyDict.ToMapRemove | src/pydantic_compat/_v1/mixin.py:50 | `pop` is removal of the key from the map. |
| PyDict.SetIsDict | src/pydantic_compat/_v1/mixin.py:50 | Assignment keeps the keys distinct. |
| PyDict.RemoveIsDict | src/pydantic_compat/_v1/mixin.py:50 | `pop` keeps the keys distinct and shrinks the dict by one exactly when the key was present. |
| PyDict.DictSize | src/pydantic_compat/_v1/mixin.py:161-162 | `len(d)` is the number of distinct keys. |
| PyDict.DictObj.SetItem | src/pydantic_compat/_v1/mixin.py:50 | The in-place assignment leaves the dict's contents equal to `Set`. |
| PyDict.DictObj.Pop | src/pydantic_compat/_v1/mixin.py:50 | `pop(k)` on a present key returns the stored value and leaves the dict equal to `Remove`. |
| PyDict.DictObj.PopOr | src/pydantic_compat/_v1/field.py:10 | `pop(k, default)` returns the stored value or the default, and removes `k`. |
| PyDict.DictObj.SetDefault | src/pydantic_compat/_v1/field.py:12 | `setdefault(k, v)` adds `k` only when it is absent, and returns the value now stored. |
| PyObjects.PyObject.GetAttr | src/pydantic_compat/_v1/mixin.py:174-175 | `getattr` succeeds iff the name is an own or inherited attribute, and own attributes come first. |
| PyObjects.PyObject.Dir | src/pydantic_compat/_v2/mixin.py:37 | `dir(obj)` is sorted and names every own and every inherited attribute once. |
| PyObjects.PyObject.SetAttr | src/pydantic_compat/_v1/mixin.py:177-178 | `setattr` assigns in the object's own `__dict__`. |
| ConfigRename.Values | src/pydantic_compat/_v1/mixin.py:44 | The list of the table's target names, position by position. |
| ConfigRename.Reverse | src/pydantic_compat/_v1/mixin.py:44 | `{v: k for k, v in table.items()}` is a well-formed dict whose keys are the table's targets. |
| ConfigRename.ReverseLastWins | src/pydantic_compat/_v1/mixin.py:44 | When several sources share a target, the reversed entry is the last of them, as in a dict comprehension. |
| ConfigRename.ReverseInverts | src/pydantic_compat/_v1/mixin.py:44 | For an injective table, `reverse[v] == k` for every entry `(k, v)`. |
| ConfigRename.ReverseSwaps | src/pydantic_compat/_v1/mixin.py:44 | For an injective table, the reversed table is the original with each pair swapped, in the same order. |
| ConfigRename.ReverseTable | src/pydantic_compat/_v1/mixin.py:44 | Reversing an injective table gives an injective table whose targets are the original sources. Disjointness of sources and targets is kept. |
| ConfigRename.Step | src/pydantic_compat/_v1/mixin.py:50 | `d[t[k]] = d.pop(k)` puts `k`'s value under `t[k]` and removes `k` (unless `t[k]` is `k`). Every other key reads as before, no other key appears, and the keys stay distinct. `d.pop(k)` would raise KeyError for an absent `k`; that case never arises, because `ConfigRename.RenameInPlace`'s loop invariant proves every key still to be visited is present when it is popped (the function's total no-op there is only a default). |
| ConfigRename.RenameAll | src/pydantic_compat/_v2/mixin.py:40-41 | Any run of rename steps adds no key that is neither in the config nor a target of the table. It keeps every key the table does not rename, and keeps the keys distinct. |
| ConfigRename.RenameKeys | src/pydantic_compat/_v1/mixin.py:48-50 | The whole loop of `_convert_config` over the sorted shared keys. Its keys are config keys or targets, every key outside the table's sources survives, and a well-formed config stays well formed. |
| ConfigRename.KeysIn | src/pydantic_compat/_v1/mixin.py:48 | The keys of the config that the table renames: `table.keys() & config.keys()`. |
| ConfigRename.RenameOrder | src/pydantic_compat/_v2/mixin.py:39-40 | `sorted(table.keys() & config.keys())` is strictly sorted and holds exactly the shared keys. |
| ConfigRename.RenameAllUnfold | src/pydantic_compat/_v2/mixin.py:40-41 | The renaming of a suffix of the order is one step followed by the rest. |
| ConfigRename.StepKeepsOthers | src/pydantic_compat/_v2/mixin.py:41 | A rename step never removes a key other than the one it renames. |
| ConfigRename.RenameInPlace | src/pydantic_compat/_v2/mixin.py:39-41 | The in-place loop `config[table[k]] = config.pop(k)` over the sorted shared keys leaves the dict equal to `RenameKeys`. |
| ConfigRename.StepToMap | src/pydantic_compat/_v2/mixin.py:41 | One rename step, seen as maps, moves the value of `k` to `table[k]`. |
| ConfigRename.RenameAllToMap | src/pydantic_compat/_v2/mixin.py:40-41 | The whole loop, seen as maps, is the fold of the map-level steps. |
| ConfigRename.RenameKeysDeterministic | src/pydantic_compat/_v1/mixin.py:49 | Configs with the same contents give renamed configs with the same contents, whatever the insertion order. |
| ConfigRename.RenameAllMapKeeps | src/pydantic_compat/_v2/mixin.py:43-46 | A key that is neither a source nor a target of the table keeps its presence and value through any sequence of steps. |
| ConfigRename.RenameKeysKeepsOthers | src/pydantic_compat/_v1/mixin.py:48-50 | After `_convert_config`, a key outside the table, as source or target, has the value it had before, and nothing is dropped. |
| ConfigRename.Moved | src/pydantic_compat/_v2/mixin.py:39-41 | The intended outcome, key by key:<br>- every present source's value is under its target;<br>- no source remains;<br>- other keys are kept;<br>- a target whose source is absent is kept. |
| ConfigRename.MovedOnStep | src/pydantic_compat/_v2/mixin.py:41 | One rename step extends the set of sources already moved. |
| ConfigRename.RenameAllMapMoves | src/pydantic_compat/_v2/mixin.py:40-41 | A loop over distinct sources moves exactly those sources. |
| ConfigRename.RenameKeysMoves | src/pydantic_compat/_v2/mixin.py:39-41 | For a table whose sources and targets are disjoint, `_convert_config`'s renaming has exactly the outcome `Moved`. |
| ConfigRename.MovedOnPresent | src/pydantic_compat/_v2/mixin.py:39 | Moving only the present sources is the same as moving all sources. |
| ConfigRename.TableInverse | src/pydantic_compat/_v1/mixin.py:44 | An injective table and its reverse are inverse maps, with disjoint key sets when sources and targets are disjoint. |
| ConfigRename.MovedRoundTrip | tests/test_base_model.py:86-120 | Moving forward and then back restores a map that holds no target names. |
| ConfigRename.RoundTripForwardThenBack | tests/test_base_model.py:86-120 | The v2 renaming followed by the v1 reverse renaming restores a config that uses only old names. |
| ConfigRename.RoundTripBackThenForward | tests/test_base_model.py:86-120 | The v1 reverse renaming followed by the v2 renaming restores a config that uses only new names. |
| V1Mixin.ConvertConfig | src/pydantic_compat/_v1/mixin.py:47-52 | The dict is renamed in place with the reversed table, and a new class `Config` carries the renamed contents as its attributes. |
| V1Mixin.MixinMetaNew | src/pydantic_compat/_v1/mixin.py:56-60 | A dict under `model_config` is popped, converted and stored as `Config`, after which `model_config` is gone and `Config` is the new class. Any other namespace is unchanged. |
| V1Mixin.ModelField.GetAttr | src/pydantic_compat/_v1/mixin.py:139-140 | The wrapped field's attributes: `outer_type_` is the field's outer type. Any other name is present iff the field holds it, with the value stored under that name. |
| V1Mixin.FieldInfoLike.GetAttr | src/pydantic_compat/_v1/mixin.py:131-140 | `annotation` is the field's `outer_type_` (the `Annotation` property). `frozen` is a bool that is True iff `allow_mutation` is False (the `Frozen` property). Any other name is the wrapped field's attribute. |
| V1Mixin.FieldInfoMap.Iter | src/pydantic_compat/_v1/mixin.py:158-159 | Iteration yields the names of `__fields__` one per entry and in that dict's order, and a name is yielded iff `k in m` holds. |
| V1Mixin.FieldInfoMap.GetItem | src/pydantic_compat/_v1/mixin.py:152-153 | `m[k]` fails (KeyError) exactly when `k` is not a field, and otherwise wraps that field. |
| V1Mixin.FieldInfoMap.Get | src/pydantic_compat/_v1/mixin.py:149-150 | `get(k, d)` returns `d` exactly when `k` is not in the wrapped dict, and otherwise `m[k]`. |
| V1Mixin.FieldInfoMap.Contains | src/pydantic_compat/_v1/mixin.py:143-153 | `k in m`, which goes through `m[k]`, holds iff `k` is a field. |
| V1Mixin.FieldInfoMap.Len | src/pydantic_compat/_v1/mixin.py:158-162 | `len(m)` is the number of names iteration yields. |
| V1Mixin.FieldInfoMap.SetItem | src/pydantic_compat/_v1/mixin.py:155-156 | `m[k] = v` writes `v` into the wrapped dict, after which `m[k]` wraps `v`, and every other key reads as before. |
| V1Mixin.FieldInfoMapLen | src/pydantic_compat/_v1/mixin.py:158-162 | On a well-formed `__fields__`, `len` counts the distinct fields, and membership is membership of the wrapped dict. |
| V1Mixin.DictLike.GetItem | src/pydantic_compat/_v1/mixin.py:174-175 | `d[k]` fails (AttributeError) exactly when the object has no attribute `k`, own or inherited. |
| V1Mixin.DictLike.Get | src/pydantic_compat/_v1/mixin.py:171-172 | `get(k, default)` returns the default for a missing attribute, and the attribute otherwise. |
| V1Mixin.DictLike.Iter | src/pydantic_compat/_v1/mixin.py:180-181 | Iteration yields exactly the names of the object's own `__dict__`, one per entry and in that dict's order (inherited names are not yielded), and `d[k]` resolves each of them. |
| V1Mixin.DictLike.Len | src/pydantic_compat/_v1/mixin.py:183-184 | `len(d)` is the number of names iteration yields, which is the size of `__dict__`. |
| V1Mixin.DictLikeLen | src/pydantic_compat/_v1/mixin.py:180-184 | On a well-formed `__dict__`, `len` counts the distinct names, and iteration yields exactly the names of `__dict__`. |
| V1Mixin.DictLike.SetItem | src/pydantic_compat/_v1/mixin.py:177-178 | `d[k] = v` is `setattr`, after which `d[k]` returns `v`, and every other name reads as before. |
| V1Mixin.ContainsAsWritten | src/pydantic_compat/_v1/mixin.py:165-175 | `k in d` as written is never False: it is True for an attribute that resolves, and an AttributeError otherwise. |
| V1Mixin.Contains | src/pydantic_compat/_v1/mixin.py:165-175 | `k in d` as intended is True iff `d[k]` resolves, and agrees with the as-written form wherever that form does not raise. |
| V2Mixin.PublicNames | src/pydantic_compat/_v2/mixin.py:37 | The filter keeps exactly the names not starting with `"__"` (the `V2Mixin.IsDunder` test), and keeps sorted order. |
| V2Mixin.AttrItems | src/pydantic_compat/_v2/mixin.py:37 | Collecting `(k, getattr(config, k))` over distinct names gives those keys in order, each holding its attribute. |
| V2Mixin.ConfigDictOf | src/pydantic_compat/_v2/mixin.py:37 | The collected dict is well formed and sorted. Its keys are exactly the own or inherited attribute names not starting with `"__"`, each holding what `getattr` returns. |
| V2Mixin.ConvertConfig | src/pydantic_compat/_v2/mixin.py:36-48 | A new dict, equal to the collected attributes renamed with the table. |
| V2Mixin.MixinMetaNew | src/pydantic_compat/_v2/mixin.py:52-55 | A class under `Config` is popped, converted and stored as `model_config`, after which `Config` is gone. Any other namespace is unchanged. |
| V2Rebuild.ModelRebuild | src/pydantic_compat/_v2/mixin.py:113-119 | `force` and `raise_errors` take their keyword or their defaults `False` and `True`. Every other keyword is forwarded in `_types_namespace`. |
| V2Rebuild.UpdateForwardRefsAsWritten | src/pydantic_compat/_v2/mixin.py:102-111 | As written, the rebuild is never forced. The namespace forwarded is `{"forc": force, "_types_namespace": localns}`, and a forced call differs from the intended one. |
| V2Rebuild.UpdateForwardRefs | src/pydantic_compat/_v2/mixin.py:102-111 | As intended, pydantic receives the caller's `force`, the caller's `raise_errors` and exactly the caller's namespace. |
| V1Field.SetDefault | src/pydantic_compat/_v1/field.py:12 | `setdefault` on a value: the key keeps its value if present and takes the new one otherwise. Other keys are untouched. |
| V1Field.MoveUnlessNone | src/pydantic_compat/_v1/field.py:10-15 | After a `pop` then a conditional `setdefault`:<br>- the old name is gone;<br>- the new name keeps its own value, or else takes the old name's value when that is not None;<br>- other keys are untouched. |
| V1Field.MoveFrozen | src/pydantic_compat/_v1/field.py:16-18 | `frozen` is gone. `allow_mutation` keeps its own value, or else is False exactly when `frozen is True`. Other keys are untouched. |
| V1Field.FieldKwargs | src/pydantic_compat/_v1/field.py:10-18 | The pop and setdefault sequence: `min_length`, `max_length` and `frozen` are gone afterwards, and every key other than the six renamed names passes through unchanged. |
| V1Field.FieldKwargsSpec | src/pydantic_compat/_v1/field.py:10-18 | At every key, the forwarded kwargs agree with the per-key rule `RenamedKwarg`:<br>- the v2 names are absent;<br>- a v1 name given by the caller wins;<br>- a None v2 value adds nothing;<br>- only `frozen is True` sets `allow_mutation`;<br>- other keys pass through. |
| V1Field.FieldKwargsPointwise | src/pydantic_compat/_v1/field.py:7-20 | The same rule, for all keys at once. |
| V1Field.FieldKwargsIsDict | src/pydantic_compat/_v1/field.py:10-18 | Well-formed kwargs stay well-formed. |
| V1Field.FieldKwargsDropsV2Names | src/pydantic_compat/_v1/field.py:10-16 | The forwarded kwargs never contain `min_length`, `max_length` or `frozen`. A key is added only for a v2 name the caller gave. |
| V1Field.Field | src/pydantic_compat/_v1/field.py:6-20 | An error of the cleaning step propagates unchanged. Otherwise the positional arguments and the renamed kwargs are passed to `pydantic.Field`. |
| ValidatorArgs.ContainsStr | src/pydantic_compat/_v1/decorators.py:34 | Python's `needle in hay` on strings holds iff `needle` occurs at some index of `hay`. |
| ValidatorArgs.Truth | src/pydantic_compat/_v1/decorators.py:36 | `bool(check_fields)` is True only for True, so None becomes False. |
| ValidatorArgs.WrapperIsNew | src/pydantic_compat/_v1/decorators.py:73-81 | The construct wrapper is a new function, never the one it wraps. |
| V1Decorators.FieldValidator | src/pydantic_compat/_v1/decorators.py:13-38 | The fields pass through, and `pre` is the substring test `mode in "before"`. `always` and `allow_reuse` are True, and `check_fields` is True only when given as True. |
| V1Decorators.FieldValidatorModes | src/pydantic_compat/_v1/decorators.py:16-34 | On the four modes the signature admits, `pre` holds iff `mode == "before"`. |
| V1Decorators.FieldValidatorSubstringModes | src/pydantic_compat/_v1/decorators.py:34 | Outside those modes the substring test also sets `pre`, for example for `""` and `"fore"`. |
| V1Decorators.Inner | src/pydantic_compat/_v1/decorators.py:67-86 | The function is wrapped iff `construct_object and not pre`, with a `classmethod` unwrapped first. Otherwise it is handed over as it is. `pre`, `allow_reuse` and `skip_on_failure` are forwarded unchanged. |
| V1Decorators.RootValidator | src/pydantic_compat/_v1/decorators.py:59-88 | Given a function, the result is the decorated validator; given none, it is the decorator carrying the options. |
| V1Decorators.BareAndFactoryAgree | src/pydantic_compat/_v1/decorators.py:88 | Applying the returned decorator to `f` (the helper `V1Decorators.Apply`, which calls a `Decorator` result on `f`) gives the same call as passing `f` directly. |
| V1Decorators.ModelValidator | src/pydantic_compat/_v1/decorators.py:42-56 | A decorator with `pre` iff mode is `"before"`, `construct_object` iff mode is `"after"`, and `allow_reuse`. |
| V1Decorators.ModelValidatorModes | src/pydantic_compat/_v1/decorators.py:54-56 | `"before"` sets `pre`. Only `"after"` wraps the function (once applied to it with `V1Decorators.Apply`). `"wrap"` forwards the function as it is with neither flag. |
| V1Decorators.CollectFields | src/pydantic_compat/_v1/decorators.py:81 | `{k: getattr(result, k) for k in fields}` raises iff some name does not resolve, and the name reported is the first such name: every name before it resolves. Otherwise it has exactly those keys, each holding its attribute, and is well formed. |
| V1Decorators.WrapperReturnsFields | tests/test_decorators.py:86-105 | For a model whose fields all resolve, the wrapper's dict has exactly the model's field names as keys. |
| V1LegacyDecorators.FieldValidator | src/pydantic_compat/_v1_decorators.py:18-42 | The same substring-based `pre` and `bool(check_fields)` with `allow_reuse`, but `always` is not passed. |
| V1LegacyDecorators.FieldValidatorCopiesAgree | src/pydantic_compat/_v1_decorators.py:36-42 | The two copies of `field_validator` differ only in `always`. |
| V1LegacyDecorators.ModelValidator | src/pydantic_compat/_v1_decorators.py:46-59 | pydantic's decorator with `pre` iff mode is `"before"`, and `allow_reuse`. |
| V1LegacyDecorators.ModelValidatorNeverWraps | src/pydantic_compat/_v1_decorators.py:58-59 | This copy never wraps. In mode `"after"` it therefore differs from the current copy, which does. |
| V1LegacyDecorators.Inner | src/pydantic_compat/_v1_decorators.py:70-83 | It wraps iff `construct_object and not pre`, with a wrapper that uses `result.dict()` and no `classmethod` unwrapping. The flags are forwarded unchanged. |
| V1LegacyDecorators.RootValidator | src/pydantic_compat/_v1_decorators.py:62-85 | Given a function, the result is the decorated validator; given none, it is the decorator. |
| V1LegacyDecorators.BareAndFactoryAgree | src/pydantic_compat/_v1_decorators.py:85 | Bare use and factory use give the same call. |
| V1LegacyDecorators.RootValidatorCopiesAgree | src/pydantic_compat/_v1_decorators.py:72-79 | The two copies agree when not wrapping. When wrapping a plain function, they differ only in the wrapper's conversion. |
| V2Decorators.Validator | src/pydantic_compat/_v2/decorators.py:20-26 | The field names and keyword arguments are forwarded unchanged. |
| V2Decorators.RootValidator | src/pydantic_compat/_v2/decorators.py:38-69 | ValueError with the exact message iff `construct_object`, whatever `pre` is. Otherwise `args`, `pre` and `allow_reuse` are forwarded, and `skip_on_failure` is True iff it was given as True, or was not given and `pre` is False. |
| V2Decorators.RootValidatorSkipCases | src/pydantic_compat/_v2/decorators.py:47-51 | An explicit False or True is kept, and None becomes `not pre`. |

## Left out

- Delegating mixin methods. This covers `model_dump`, `dict`, `schema`, `model_json_schema`, `parse_raw`, `construct`, the `model_fields` and `model_config` properties that build the adapters, and the v1 `model_rebuild`. They only forward to pydantic.
- `update_forward_refs` and `model_rebuild` on v2 are modelled only as far as their keyword binding goes (`V2Rebuild`). The rebuild itself is pydantic's. The copy of the same two methods in `_v2.py` has the same misspelling and is not modelled separately.
- pydantic itself is not modelled. That covers validation, coercion, `construct`, `pydantic.Field`, `pydantic.validator` and `root_validator`. Their calls are the values these operations return (`FieldCall`, `ValidatorCall`, `RootValidatorCall`).
- `V2_RENAMED_CONFIG_KEYS`, `_clean_field_kwargs` and `check_mixin_order` as imported by the mixins are not part of this model.
  - The rename table is a parameter.
  - The cleaner's outcome is the `cleaned` parameter of `V1Field.Field`. Its two errors (an old and a new name together, and `const`) are labels only.
- `warnings.warn`, `stacklevel` and the suppression of DeprecationWarning are left out. The warning is returned as an optional string.
- The Python-version branches, the property and descriptor patching of the metaclass (`__fields__`, `model_fields`), and the `classmethod`/`property` stacking are left out.
- The call into pydantic's own metaclass after the namespace is rewritten is left out.
- V1Mixin.ConvertConfig: `type("Config", (), d)` also adds `__module__`, `__dict__`, `__weakref__` and `__doc__`. The model's class carries only the config entries and inherits nothing.
- `REVERSE_CONFIG_NAME_MAP` is built once at import time. The model recomputes `Reverse(table)` on each call, which gives the same value.
- V1Mixin.FieldInfoMap.SetItem: `__setitem__` accepts any value. The model types it as a `ModelField`, because `m[k]` wraps whatever is stored.
- V1Mixin.ModelField.GetAttr: it covers plain-valued attributes. The nested `field_info` object is represented only by its `allow_mutation` flag.
- `FieldInfoLike.__getattr__` is reached only for names that are not the adapter's own. Its private `_model_field` attribute is not modelled.
- PyObjects.PyObject.GetAttr: lookup is own `__dict__`, then a flat list of inherited attributes. Descriptors, `__getattr__` hooks and the MRO of the bases are not modelled.
- The construct wrapper's call into user code (`cls.construct(**values)`, the user validator) is not modelled. Only its conversion of the returned model back into a dict is (`V1Decorators.CollectFields`). The legacy `result.dict()` is pydantic's and is recorded only as the `DictMethod` conversion.
- A wrapper called without positional arguments (`arg0, *rest = args` failing) is left out, since pydantic always passes the values.
- The truthiness test `if _func` treats every function object as true and `None` as false. User objects with their own `__bool__` are not modelled.
- Import-time version gates, the star-import shim and package metadata are left out.

## Findings

| source | as written | input that shows it | evidently intended | confidence | as-written member | corrected member |
|---|---|---|---|---|---|---|
| src/pydantic_compat/_v1/mixin.py:165-175 | `DictLike` inherits `__contains__` from `Mapping`, which calls `self[key]` and catches only KeyError. `__getitem__` is `getattr`, so a missing name raises AttributeError out of `key in d`. | `"missing" in DictLike(cls.__config__)` for a name the config does not have | `key in d` returns False for a missing name | not executed; high that it raises, medium that False was intended | V1Mixin.ContainsAsWritten | V1Mixin.Contains |
| src/pydantic_compat/_v2/mixin.py:109-111 | `update_forward_refs` calls `model_rebuild(forc=force, …, _types_namespace=localns)`. `forc` is not a parameter, so it lands in `**kwargs`, and the namespace handed to pydantic is nested one level too deep. | `Model.update_forward_refs(force=True, Foo=Foo)`: pydantic is called with `force=False` and `_types_namespace={"forc": True, "_types_namespace": {"Foo": Foo}}` | `force` reaches pydantic, and the namespace is `{"Foo": Foo}` | not executed; high | V2Rebuild.UpdateForwardRefsAsWritten | V2Rebuild.UpdateForwardRefs |
