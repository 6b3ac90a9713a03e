/**
 * Objects with an attribute dictionary (classes such as a nested `Config`,
 * and instances), and the namespace of a class statement.
 */
module PyObjects {
  import opened Wrappers
  import opened StrOrder
  import opened PyDict
  import opened Values

  /**
   * An object reached by `getattr`: its own `__dict__`, then the attributes it
   * inherits (from its bases or its type), in lookup order. Descriptors and
   * `__getattr__` hooks are not part of this model.
   */
  class PyObject {
    const name: string
    const dict: DictObj<Value>
    const inherited: Items<Value>

    constructor (name: string, dict: DictObj<Value>, inherited: Items<Value>)
      ensures this.name == name && this.dict == dict && this.inherited == inherited
    {
      this.name := name;
      this.dict := dict;
      this.inherited := inherited;
    }

    /** `getattr(obj, key)`; None stands for the AttributeError raised when no attribute is found. */
    function GetAttr(key: string): (r: Option<Value>)
      reads dict
      ensures r.Some? <==> key in Keys(dict.items) || key in Keys(inherited)
      ensures key in Keys(dict.items) ==> r == Get(dict.items, key)
      ensures key !in Keys(dict.items) ==> r == Get(inherited, key)
    {
      match Get(dict.items, key)
      case Some(v) => Some(v)
      case None => Get(inherited, key)
    }

    /** `dir(obj)`: every attribute name, own or inherited, sorted and without repetition. */
    function Dir(): (names: seq<string>)
      reads dict
      ensures StrictlySorted(names)
      ensures Elems(names) == Elems(Keys(dict.items)) + Elems(Keys(inherited))
    {
      assert Elems(Keys(dict.items) + Keys(inherited)) == Elems(Keys(dict.items)) + Elems(Keys(inherited));
      Sorted(Keys(dict.items) + Keys(inherited))
    }

    /** `setattr(obj, key, value)`: writes the object's own `__dict__`. */
    method SetAttr(key: string, value: Value)
      modifies dict
      ensures dict.items == Set(old(dict.items), key, value)
    {
      dict.SetItem(key, value);
    }
  }

  /** A value in a class-statement namespace, told apart the way `isinstance` does it. */
  datatype NsEntry =
    | DictEntry(dict: DictObj<Value>)   // isinstance(x, dict)
    | TypeEntry(cls: PyObject)          // isinstance(x, type)
    | OtherEntry(value: Value)
}
