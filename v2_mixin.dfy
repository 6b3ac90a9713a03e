/**
 * The mixin as it runs on pydantic v2: the metaclass hook that turns a v1-style
 * nested `Config` class into a v2 `model_config` dict.
 */
module V2Mixin {
  import opened Wrappers
  import opened StrOrder
  import opened PyDict
  import opened Values
  import opened PyObjects
  import opened ConfigRename

  /** `k.startswith("__")` */
  predicate IsDunder(k: string) {
    |k| >= 2 && k[..2] == "__"
  }

  /** The names of a list that do not start with `"__"`, in their order. */
  function PublicNames(names: seq<string>): (r: seq<string>)
    ensures forall k :: k in r <==> k in names && !IsDunder(k)
    ensures StrictlySorted(names) ==> StrictlySorted(r)
  {
    if names == [] then []
    else if IsDunder(names[0]) then PublicNames(names[1..])
    else
      var rest := PublicNames(names[1..]);
      assert StrictlySorted(names) ==> forall j :: 0 <= j < |rest| ==> Less(names[0], rest[j]) by {
        if StrictlySorted(names) {
          forall j | 0 <= j < |rest|
            ensures Less(names[0], rest[j])
          {
            assert rest[j] in names[1..];
            var i :| 0 <= i < |names[1..]| && names[1..][i] == rest[j];
            assert names[i + 1] == rest[j];
          }
        }
      }
      [names[0]] + rest
  }

  /** `[(k, getattr(config, k)) for k in names]`, for names that all resolve. */
  function AttrItems(config: PyObject, names: seq<string>): (d: Items<Value>)
    requires forall k :: k in names ==> config.GetAttr(k).Some?
    requires Distinct(names)
    reads config.dict
    ensures Keys(d) == names
    ensures forall k :: k in names ==> Get(d, k) == config.GetAttr(k)
  {
    if names == [] then []
    else
      assert Distinct(names[1..]) by {
        forall i, j | 0 <= i < j < |names[1..]|
          ensures names[1..][i] != names[1..][j]
        {
          assert names[1..][i] == names[i + 1] && names[1..][j] == names[j + 1];
        }
      }
      assert names[0] !in names[1..] by {
        forall i | 0 <= i < |names[1..]|
          ensures names[1..][i] != names[0]
        {
          assert names[1..][i] == names[i + 1];
        }
      }
      var rest := AttrItems(config, names[1..]);
      var d := [(names[0], config.GetAttr(names[0]).value)] + rest;
      assert d[1..] == rest;
      assert Keys(d) == [names[0]] + Keys(rest);
      d
  }

  /**
   * The first line of `_convert_config(config)`:
   * `{k: getattr(config, k) for k in dir(config) if not k.startswith("__")}`.
   * Its keys are exactly the attribute names, own or inherited, that do not
   * start with `"__"`, in sorted order, each holding the value `getattr` finds.
   */
  function ConfigDictOf(config: PyObject): (d: Items<Value>)
    reads config.dict
    ensures IsDict(d) && StrictlySorted(Keys(d))
    ensures forall k :: k in Keys(d) <==>
      (k in Keys(config.dict.items) || k in Keys(config.inherited)) && !IsDunder(k)
    ensures forall k :: k in Keys(d) ==> Get(d, k) == config.GetAttr(k)
  {
    var names := PublicNames(config.Dir());
    forall k
      ensures k in names <==> (k in Keys(config.dict.items) || k in Keys(config.inherited)) && !IsDunder(k)
    {
      assert k in config.Dir() <==> k in Elems(config.Dir());
      assert k in Keys(config.dict.items) <==> k in Elems(Keys(config.dict.items));
      assert k in Keys(config.inherited) <==> k in Elems(Keys(config.inherited));
    }
    assert Distinct(names) by {
      forall i, j | 0 <= i < j < |names|
        ensures names[i] != names[j]
      {
        StrictlySortedDistinct(names, i, j);
      }
    }
    AttrItems(config, names)
  }

  /**
   * `_convert_config(config)`: at every key of the collected dict that is an
   * old name in the rename table, in sorted order, the value moves to the new
   * name. The removal of unsupported keys is disabled in the source, so no key
   * is dropped.
   */
  method ConvertConfig(config: PyObject, table: Table) returns (configDict: DictObj<Value>)
    ensures fresh(configDict)
    ensures configDict.items == RenameKeys(ConfigDictOf(config), table)
  {
    configDict := new DictObj(ConfigDictOf(config));
    RenameInPlace(configDict, table);
  }

  /**
   * `_MixinMeta.__new__` up to the call into pydantic's own metaclass: a
   * `Config` entry that is a class is popped from the namespace and replaced
   * by the `model_config` dict converted from it; any other namespace is left
   * as it is. Returns the dict it built.
   */
  method MixinMetaNew(namespace: DictObj<NsEntry>, table: Table) returns (configDict: Option<DictObj<Value>>)
    modifies namespace
    ensures match PyDict.Get<NsEntry>(old(namespace.items), "Config")
      case Some(TypeEntry(c)) =>
        && configDict.Some? && fresh(configDict.value)
        && configDict.value.items == RenameKeys(ConfigDictOf(c), table)
        && namespace.items == Set(Remove(old(namespace.items), "Config"), "model_config", DictEntry(configDict.value))
      case _ =>
        configDict.None? && namespace.items == old(namespace.items)
    ensures configDict.Some? ==>
      && Get(namespace.items, "Config") == None
      && Get(namespace.items, "model_config") == Some(DictEntry(configDict.value))
  {
    if namespace.Contains("Config") && Get(namespace.items, "Config").value.TypeEntry? {
      var entry := namespace.Pop("Config");
      var d := ConvertConfig(entry.cls, table);
      namespace.SetItem("model_config", DictEntry(d));
      configDict := Some(d);
    } else {
      configDict := None;
    }
  }
}
