/**
 * The mixin as it runs on pydantic v1: the metaclass hook that turns a v2-style
 * `model_config` dict into a v1 `Config` class, and the read-only adapters that
 * present v1 `__fields__` and `__config__` through the v2 mapping interface.
 */
module V1Mixin {
  import opened Wrappers
  import opened PyDict
  import opened Values
  import opened PyObjects
  import opened ConfigRename

  /**
   * `_convert_config(config_dict)`: every key of the dict that is a v2 name of
   * a renamed option is moved, in sorted order, to its v1 name (through the
   * reversed table `{v: k for k, v in table.items()}`); the dict is changed in
   * place, and a new class named `Config` carries its contents as attributes.
   */
  method ConvertConfig(configDict: DictObj<Value>, table: Table) returns (config: PyObject)
    modifies configDict
    ensures configDict.items == RenameKeys(old(configDict.items), Reverse(table))
    ensures fresh(config) && fresh(config.dict)
    ensures config.name == "Config" && config.inherited == []
    ensures config.dict.items == configDict.items
  {
    RenameInPlace(configDict, Reverse(table));
    var attrs := new DictObj(configDict.items);
    config := new PyObject("Config", attrs, []);
  }

  /** The dict stored under `model_config` in a class namespace, when there is one. */
  function ConfigDictIn(namespace: DictObj<NsEntry>): set<object>
    reads namespace
  {
    match PyDict.Get<NsEntry>(namespace.items, "model_config")
    case Some(DictEntry(d)) => {d}
    case _ => {}
  }

  /**
   * `_MixinMeta.__new__` up to the call into pydantic's own metaclass: a
   * `model_config` entry that is a dict is popped from the namespace and
   * replaced by the `Config` class `_convert_config` builds from it; any other
   * namespace is left as it is. Returns the class it built.
   */
  method MixinMetaNew(namespace: DictObj<NsEntry>, table: Table) returns (config: Option<PyObject>)
    modifies namespace, ConfigDictIn(namespace)
    ensures match PyDict.Get<NsEntry>(old(namespace.items), "model_config")
      case Some(DictEntry(d)) =>
        && config.Some? && fresh(config.value) && fresh(config.value.dict)
        && config.value.name == "Config"
        && d.items == RenameKeys(old(d.items), Reverse(table))
        && config.value.dict.items == d.items
        && namespace.items == Set(Remove(old(namespace.items), "model_config"), "Config", TypeEntry(config.value))
      case _ =>
        config.None? && namespace.items == old(namespace.items)
    ensures config.Some? ==>
      && Get(namespace.items, "model_config") == None
      && Get(namespace.items, "Config") == Some(TypeEntry(config.value))
  {
    if namespace.Contains("model_config") && Get(namespace.items, "model_config").value.DictEntry? {
      var entry := namespace.Pop("model_config");
      var cls := ConvertConfig(entry.dict, table);
      namespace.SetItem("Config", TypeEntry(cls));
      config := Some(cls);
    } else {
      config := None;
    }
  }

  /** v1 `field_info`, as far as the adapter reads it. */
  datatype FieldInfo = FieldInfo(allowMutation: bool)

  /**
   * A v1 `ModelField`: its `outer_type_`, its `field_info`, and the rest of
   * its attributes.
   */
  datatype ModelField = ModelField(outerType: Value, fieldInfo: FieldInfo, attrs: Items<Value>)
  {
    /** `getattr(model_field, key)` for an attribute whose value is a plain value. */
    function GetAttr(key: string): (r: Option<Value>)
      ensures key == "outer_type_" ==> r == Some(outerType)
      ensures key != "outer_type_" ==> (r.Some? <==> key in Keys(attrs))
      ensures key != "outer_type_" ==> r == Get(attrs, key)
    {
      if key == "outer_type_" then Some(outerType) else Get(attrs, key)
    }
  }

  /** `FieldInfoLike`: a v1 `ModelField` seen as a v2 `FieldInfo`. */
  datatype FieldInfoLike = FieldInfoLike(modelField: ModelField)
  {
    /** the `annotation` property */
    function Annotation(): Value
    {
      modelField.outerType
    }

    /** the `frozen` property */
    function Frozen(): bool
    {
      !modelField.fieldInfo.allowMutation
    }

    /**
     * Attribute lookup on the adapter: its two properties, and for every
     * other name the wrapped field's attribute (`__getattr__`).
     */
    function GetAttr(key: string): (r: Option<Value>)
      ensures key == "annotation" ==> r == modelField.GetAttr("outer_type_")
      ensures key == "frozen" ==> (r == Some(BoolV(true)) <==> !modelField.fieldInfo.allowMutation)
      ensures key == "frozen" ==> r.Some? && r.value.BoolV?
      ensures key != "annotation" && key != "frozen" ==> r == modelField.GetAttr(key)
    {
      if key == "annotation" then Some(Annotation())
      else if key == "frozen" then Some(BoolV(Frozen()))
      else modelField.GetAttr(key)
    }
  }

  /** What `FieldInfoMap.get` returns: the wrapped field, or the caller's default. */
  datatype FieldLookup = Found(info: FieldInfoLike) | Fallback(default: Value)

  /** `FieldInfoMap`: v1 `__fields__` behind the v2 `model_fields` mapping. */
  class FieldInfoMap {
    const fields: DictObj<ModelField>

    constructor (fields: DictObj<ModelField>)
      ensures this.fields == fields
    {
      this.fields := fields;
    }

    /** `self[key]`; None stands for the KeyError of a missing field. */
    function GetItem(key: string): (r: Option<FieldInfoLike>)
      reads fields
      ensures r.Some? <==> key in Keys(fields.items)
      ensures r.Some? ==> PyDict.Get(fields.items, key) == Some(r.value.modelField)
    {
      match PyDict.Get(fields.items, key)
      case Some(f) => Some(FieldInfoLike(f))
      case None => None
    }

    /** `self.get(key, default)`: never raises; the default exactly when the field is missing. */
    function Get(key: string, default: Value): (r: FieldLookup)
      reads fields
      ensures r.Fallback? <==> GetItem(key).None?
      ensures r.Fallback? ==> r.default == default
      ensures r.Found? ==> GetItem(key) == Some(r.info)
    {
      if fields.Contains(key) then Found(GetItem(key).value) else Fallback(default)
    }

    /** `key in self`, which the mapping protocol answers through `self[key]`. */
    function Contains(key: string): (b: bool)
      reads fields
      ensures b <==> key in Keys(fields.items)
    {
      GetItem(key).Some?
    }

    /** `iter(self)`: the field names, in the order of the underlying dict. */
    function Iter(): (names: seq<string>)
      reads fields
      ensures |names| == |fields.items|
      ensures forall i :: 0 <= i < |names| ==> names[i] == fields.items[i].0
      ensures forall k :: k in names <==> Contains(k)
    {
      Keys(fields.items)
    }

    /** `len(self)`: the number of names iteration yields, which is the number of fields. */
    function Len(): (n: nat)
      reads fields
      ensures n == |Iter()|
    {
      |fields.items|
    }

    /** `self[key] = value`: writes through to the wrapped `__fields__` dict. */
    method SetItem(key: string, value: ModelField)
      modifies fields
      ensures fields.items == Set(old(fields.items), key, value)
      ensures GetItem(key) == Some(FieldInfoLike(value))
      ensures forall k :: k != key ==> GetItem(k) == old(GetItem(k))
    {
      fields.SetItem(key, value);
    }
  }

  /** On a well-formed `__fields__` dict, `len` counts the distinct field names. */
  lemma FieldInfoMapLen(m: FieldInfoMap)
    requires IsDict(m.fields.items)
    ensures m.Len() == |ToMap(m.fields.items)|
    ensures forall k :: m.Contains(k) <==> k in ToMap(m.fields.items)
  {
    DictSize(m.fields.items);
  }

  /** On a well-formed `__dict__`, `len` counts the distinct names iteration yields. */
  lemma DictLikeLen(d: DictLike)
    requires IsDict(d.obj.dict.items)
    ensures d.Len() == |ToMap(d.obj.dict.items)|
    ensures forall k :: k in d.Iter() <==> k in ToMap(d.obj.dict.items)
  {
    DictSize(d.obj.dict.items);
  }

  /** `DictLike`: an object (v1 `__config__`) behind the v2 `model_config` mapping. */
  class DictLike {
    const obj: PyObject

    constructor (obj: PyObject)
      ensures this.obj == obj
    {
      this.obj := obj;
    }

    /** `self[key]` is `getattr(obj, key)`; None stands for its AttributeError. */
    function GetItem(key: string): (r: Option<Value>)
      reads obj.dict
      ensures r.Some? <==> key in Keys(obj.dict.items) || key in Keys(obj.inherited)
    {
      obj.GetAttr(key)
    }

    /** `self.get(key, default)` is `getattr(obj, key, default)`. */
    function Get(key: string, default: Value): (r: Value)
      reads obj.dict
      ensures GetItem(key).None? ==> r == default
      ensures GetItem(key).Some? ==> r == GetItem(key).value
    {
      obj.GetAttr(key).GetOr(default)
    }

    /** `iter(self)`: only the names in the object's own `__dict__`. */
    function Iter(): (names: seq<string>)
      reads obj.dict
      ensures |names| == |obj.dict.items|
      ensures forall i :: 0 <= i < |names| ==> names[i] == obj.dict.items[i].0
      ensures forall k :: k in names ==> GetItem(k).Some?
    {
      Keys(obj.dict.items)
    }

    /** `len(self)`: the size of the object's own `__dict__`. */
    function Len(): (n: nat)
      reads obj.dict
      ensures n == |Iter()|
    {
      |obj.dict.items|
    }

    /** `self[key] = value` is `setattr(obj, key, value)`. */
    method SetItem(key: string, value: Value)
      modifies obj.dict
      ensures obj.dict.items == Set(old(obj.dict.items), key, value)
      ensures GetItem(key) == Some(value)
      ensures forall k :: k != key ==> GetItem(k) == old(GetItem(k))
    {
      obj.SetAttr(key, value);
    }
  }

  /** The error `key in DictLike(obj)` lets escape. */
  datatype ContainsError = AttributeError(name: string)

  /**
   * `key in DictLike(obj)` as written: the class inherits `__contains__` from
   * `Mapping`, which calls `self[key]` and turns only a KeyError into False;
   * `self[key]` raises AttributeError instead, so a missing key is an error and
   * the answer is never False.
   */
  function ContainsAsWritten(d: DictLike, key: string): (r: Result<bool, ContainsError>)
    reads d.obj.dict
    ensures r != Ok(false)
    ensures r == Ok(true) <==> d.GetItem(key).Some?
    ensures r.Err? <==> d.GetItem(key).None?
  {
    match d.GetItem(key)
    case Some(_) => Ok(true)
    case None => Err(AttributeError(key))
  }

  /** `key in DictLike(obj)` as the mapping protocol means it: True exactly when `self[key]` succeeds. */
  function Contains(d: DictLike, key: string): (b: bool)
    reads d.obj.dict
    ensures b <==> d.GetItem(key).Some?
    ensures b <==> ContainsAsWritten(d, key) == Ok(true)
  {
    d.GetItem(key).Some?
  }
}
