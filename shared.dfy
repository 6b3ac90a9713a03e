/**
 * The mixin-order check run when a subclass of the compatibility mixin is
 * created (`_check_mixin_order`).
 */
module Shared {
  import opened Wrappers

  /** A class object: its identity and its `__name__`. */
  datatype ClassRef = ClassRef(id: nat, name: string)

  /** `bases.index(c)`: the first position of `c`; None stands for the ValueError raised when it is absent. */
  function IndexOf(bases: seq<ClassRef>, c: ClassRef): (r: Option<nat>)
    ensures r.None? <==> c !in bases
    ensures r.Some? ==> r.value < |bases| && bases[r.value] == c && c !in bases[..r.value]
  {
    if bases == [] then None
    else if bases[0] == c then Some(0)
    else
      assert bases == [bases[0]] + bases[1..];
      match IndexOf(bases[1..], c)
      case None => None
      case Some(i) =>
        assert bases[..i + 1] == [bases[0]] + bases[1..][..i];
        Some(i + 1)
  }

  /** The text of the warning. */
  function OrderWarning(mixin: ClassRef): (w: string)
    ensures |w| > |mixin.name|
    ensures forall i :: 0 <= i < |mixin.name| ==> w[i] == mixin.name[i]
  {
    mixin.name + " should appear before pydantic.BaseModel"
  }

  /**
   * `_check_mixin_order(cls, mixin, base_model)` where `bases` is `cls.__bases__`:
   * the warning it emits, if any. Only the direct bases are looked at, and a
   * class missing from them ends the check silently (the ValueError is suppressed).
   */
  function CheckMixinOrder(bases: seq<ClassRef>, mixin: ClassRef, baseModel: ClassRef): (warning: Option<string>)
    ensures warning.Some? ==> warning.value == OrderWarning(mixin)
    ensures warning.Some? <==>
      mixin in bases && exists j :: 0 <= j < |bases| && bases[j] == baseModel && mixin !in bases[..j + 1]
    ensures mixin !in bases || baseModel !in bases ==> warning.None?
  {
    match IndexOf(bases, mixin)
    case None => None
    case Some(mixinIndex) =>
      match IndexOf(bases, baseModel)
      case None => None
      case Some(baseModelIndex) =>
        if mixinIndex > baseModelIndex then
          assert bases[..baseModelIndex + 1] == bases[..mixinIndex][..baseModelIndex + 1];
          Some(OrderWarning(mixin))
        else
          assert forall j :: 0 <= j < |bases| && bases[j] == baseModel ==> baseModelIndex <= j;
          assert forall j :: 0 <= j < |bases| && bases[j] == baseModel ==> mixin in bases[..j + 1] by {
            forall j | 0 <= j < |bases| && bases[j] == baseModel ensures mixin in bases[..j + 1] {
              assert bases[..j + 1][mixinIndex] == mixin;
            }
          }
          None
  }

  /** Mixin listed before the model base: no warning. */
  lemma MixinFirstNoWarning(mixin: ClassRef, baseModel: ClassRef)
    requires mixin != baseModel
    ensures CheckMixinOrder([mixin, baseModel], mixin, baseModel) == None
  {
    assert IndexOf([mixin, baseModel], mixin) == Some(0);
  }

  /** Mixin listed after the model base: the warning the tests match. */
  lemma MixinAfterWarns(mixin: ClassRef, baseModel: ClassRef)
    requires mixin != baseModel
    requires mixin.name == "PydanticCompatMixin"
    ensures CheckMixinOrder([baseModel, mixin], mixin, baseModel)
         == Some("PydanticCompatMixin should appear before pydantic.BaseModel")
  {
    assert IndexOf([baseModel, mixin], mixin) == Some(1);
    assert IndexOf([baseModel, mixin], baseModel) == Some(0);
    assert CheckMixinOrder([baseModel, mixin], mixin, baseModel) == Some(OrderWarning(mixin));
    var tail := " should appear before pydantic.BaseModel";
    assert OrderWarning(mixin) == "PydanticCompatMixin" + tail;
    assert |"PydanticCompatMixin" + tail| == |"PydanticCompatMixin should appear before pydantic.BaseModel"|;
    forall i | 0 <= i < |"PydanticCompatMixin" + tail|
      ensures ("PydanticCompatMixin" + tail)[i] == "PydanticCompatMixin should appear before pydantic.BaseModel"[i]
    {
    }
    assert "PydanticCompatMixin" + tail == "PydanticCompatMixin should appear before pydantic.BaseModel";
  }
}
