/**
 * `Field(*args, **kwargs)` on pydantic v1: after the shared cleaning step,
 * the v2 keyword names `min_length`, `max_length` and `frozen` are turned into
 * the v1 names `min_items`, `max_items` and `allow_mutation`.
 */
module V1Field {
  import opened Wrappers
  import opened PyDict
  import opened Values

  /**
   * The errors of the cleaning step `_clean_field_kwargs`, which is not part of
   * this model: an old and a new name given together, or the unsupported `const`.
   */
  datatype CleanError = CannotSpecifyBoth(oldName: string, newName: string) | ConstUnsupported

  /** The call `pydantic.Field(*args, **kwargs)` that `Field` ends with. */
  datatype FieldCall = FieldCall(args: seq<Value>, kwargs: Items<Value>)

  /** `d.setdefault(k, v)`, as a value */
  function SetDefault(d: Items<Value>, k: string, v: Value): (r: Items<Value>)
    ensures Get(r, k) == if k in Keys(d) then Get(d, k) else Some(v)
    ensures forall j :: j != k ==> Get(r, j) == Get(d, j)
  {
    if k in Keys(d) then d else Set(d, k, v)
  }

  /** `v = d.pop(from, None)`, then `d.setdefault(to, v)` when `v is not None` */
  function MoveUnlessNone(d: Items<Value>, from: string, to: string): (r: Items<Value>)
    requires from != to
    ensures Get(r, from) == None
    ensures Get(r, to) ==
      if to in Keys(d) then Get(d, to)
      else if Get(d, from).GetOr(NoneV) != NoneV then Get(d, from)
      else None
    ensures forall j :: j != from && j != to ==> Get(r, j) == Get(d, j)
  {
    var v := Get(d, from).GetOr(NoneV);
    var rest := Remove(d, from);
    if v != NoneV then SetDefault(rest, to, v) else rest
  }

  /**
   * What a cleaned keyword `k` holds afterwards, key by key: the three v2
   * names are gone; a v1 name keeps its own value when it was given, and
   * otherwise takes the v2 value (for `allow_mutation`: False exactly when
   * `frozen` is True); every other key is untouched.
   */
  function RenamedKwarg(kw: Items<Value>, k: string): Option<Value>
  {
    if k == "min_length" || k == "max_length" || k == "frozen" then None
    else if k == "min_items" then
      if k in Keys(kw) then Get(kw, k)
      else if Get(kw, "min_length").GetOr(NoneV) != NoneV then Get(kw, "min_length")
      else None
    else if k == "max_items" then
      if k in Keys(kw) then Get(kw, k)
      else if Get(kw, "max_length").GetOr(NoneV) != NoneV then Get(kw, "max_length")
      else None
    else if k == "allow_mutation" then
      if k in Keys(kw) then Get(kw, k)
      else if Get(kw, "frozen") == Some(BoolV(true)) then Some(BoolV(false))
      else None
    else Get(kw, k)
  }

  /** `frozen = d.pop("frozen", None)`, then `d.setdefault("allow_mutation", False)` when `frozen is True` */
  function MoveFrozen(d: Items<Value>): (r: Items<Value>)
    ensures Get(r, "frozen") == None
    ensures Get(r, "allow_mutation") ==
      if "allow_mutation" in Keys(d) then Get(d, "allow_mutation")
      else if Get(d, "frozen") == Some(BoolV(true)) then Some(BoolV(false))
      else None
    ensures forall j :: j != "frozen" && j != "allow_mutation" ==> Get(r, j) == Get(d, j)
  {
    var frozen := Get(d, "frozen").GetOr(NoneV);
    var rest := Remove(d, "frozen");
    assert Get(rest, "allow_mutation") == Get(d, "allow_mutation");
    assert "allow_mutation" in Keys(rest) <==> "allow_mutation" in Keys(d);
    assert frozen == BoolV(true) <==> Get(d, "frozen") == Some(BoolV(true));
    if frozen == BoolV(true) then SetDefault(rest, "allow_mutation", BoolV(false)) else rest
  }

  /** The kwargs `Field` passes to `pydantic.Field`, from the cleaned kwargs. */
  function FieldKwargs(kw: Items<Value>): (r: Items<Value>)
    ensures forall k :: k !in ["min_length", "min_items", "max_length", "max_items", "frozen", "allow_mutation"] ==>
      Get(r, k) == Get(kw, k)
    ensures Get(r, "min_length").None? && Get(r, "max_length").None? && Get(r, "frozen").None?
  {
    MoveFrozen(MoveUnlessNone(MoveUnlessNone(kw, "min_length", "min_items"), "max_length", "max_items"))
  }

  /** Key by key, `FieldKwargs` is `RenamedKwarg`. */
  lemma FieldKwargsSpec(kw: Items<Value>, k: string)
    ensures Get(FieldKwargs(kw), k) == RenamedKwarg(kw, k)
  {
    var a := MoveUnlessNone(kw, "min_length", "min_items");
    var b := MoveUnlessNone(a, "max_length", "max_items");
    assert Get(b, "frozen") == Get(kw, "frozen");
    assert Get(b, "allow_mutation") == Get(kw, "allow_mutation");
    assert Get(a, "max_length") == Get(kw, "max_length");
    assert Get(a, "max_items") == Get(kw, "max_items");
    if k == "min_items" {
    } else if k == "min_length" {
    } else if k == "max_items" {
    } else if k == "max_length" {
    } else if k == "frozen" {
    } else if k == "allow_mutation" {
    } else {
    }
  }

  /** All keys at once. */
  lemma FieldKwargsPointwise(kw: Items<Value>)
    ensures forall k :: Get(FieldKwargs(kw), k) == RenamedKwarg(kw, k)
  {
    forall k
      ensures Get(FieldKwargs(kw), k) == RenamedKwarg(kw, k)
    {
      FieldKwargsSpec(kw, k);
    }
  }

  /** Well-formed kwargs stay well-formed. */
  lemma FieldKwargsIsDict(kw: Items<Value>)
    requires IsDict(kw)
    ensures IsDict(FieldKwargs(kw))
  {
    RemoveIsDict(kw, "min_length");
    var a0 := Remove(kw, "min_length");
    SetIsDict(a0, "min_items", Get(kw, "min_length").GetOr(NoneV));
    var a := MoveUnlessNone(kw, "min_length", "min_items");
    RemoveIsDict(a, "max_length");
    var b0 := Remove(a, "max_length");
    SetIsDict(b0, "max_items", Get(a, "max_length").GetOr(NoneV));
    var b := MoveUnlessNone(a, "max_length", "max_items");
    RemoveIsDict(b, "frozen");
    SetIsDict(Remove(b, "frozen"), "allow_mutation", BoolV(false));
  }

  /** The v2 names never reach `pydantic.Field`, and nothing the caller did not mention is added. */
  lemma FieldKwargsDropsV2Names(kw: Items<Value>)
    ensures forall k :: k in Keys(FieldKwargs(kw)) ==> k != "min_length" && k != "max_length" && k != "frozen"
    ensures forall k :: k in Keys(FieldKwargs(kw)) ==>
      k in Keys(kw) || (k == "min_items" && "min_length" in Keys(kw))
      || (k == "max_items" && "max_length" in Keys(kw)) || (k == "allow_mutation" && "frozen" in Keys(kw))
  {
    forall k | k in Keys(FieldKwargs(kw))
      ensures k != "min_length" && k != "max_length" && k != "frozen"
      ensures k in Keys(kw) || (k == "min_items" && "min_length" in Keys(kw))
        || (k == "max_items" && "max_length" in Keys(kw)) || (k == "allow_mutation" && "frozen" in Keys(kw))
    {
      FieldKwargsSpec(kw, k);
      assert Get(FieldKwargs(kw), k).Some?;
    }
  }

  /**
   * `Field(*args, **kwargs)` up to the call into pydantic: an error of the
   * cleaning step propagates; otherwise the cleaned kwargs are renamed key by
   * key with `pop` and `setdefault`.
   */
  method Field(args: seq<Value>, cleaned: Result<Items<Value>, CleanError>) returns (r: Result<FieldCall, CleanError>)
    ensures cleaned.Err? ==> r == Err(cleaned.error)
    ensures cleaned.Ok? ==> r == Ok(FieldCall(args, FieldKwargs(cleaned.value)))
  {
    if cleaned.Err? {
      return Err(cleaned.error);
    }
    var kwargs := new DictObj(cleaned.value);
    var minLength := kwargs.PopOr("min_length", NoneV);
    if minLength != NoneV {
      var _ := kwargs.SetDefault("min_items", minLength);
    }
    var maxLength := kwargs.PopOr("max_length", NoneV);
    if maxLength != NoneV {
      var _ := kwargs.SetDefault("max_items", maxLength);
    }
    var frozen := kwargs.PopOr("frozen", NoneV);
    if frozen == BoolV(true) {
      var _ := kwargs.SetDefault("allow_mutation", BoolV(false));
    }
    r := Ok(FieldCall(args, kwargs.items));
  }
}
