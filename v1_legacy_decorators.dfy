/**
 * The older copy of the v1 validator adaptors: the same translation with
 * three differences. `field_validator` does not pass `always`,
 * `model_validator` calls pydantic's `root_validator` directly (so it never
 * wraps), and the construct wrapper converts its result with `result.dict()`
 * and does not unwrap a `classmethod`.
 */
module V1LegacyDecorators {
  import opened Wrappers
  import opened ValidatorArgs
  import V1Decorators

  /** `field_validator`: as the current copy, but `always` is left to pydantic's default. */
  function FieldValidator(field: string, fields: seq<string>, mode: string, checkFields: Option<bool>): (call: ValidatorCall)
    ensures call.fields == [field] + fields
    ensures call.pre <==> exists i :: OccursAt("before", mode, i)
    ensures call.always == None && call.allowReuse
    ensures call.checkFields <==> checkFields == Some(true)
  {
    ValidatorCall([field] + fields, ContainsStr("before", mode), None, Truth(checkFields), true)
  }

  /** The two copies translate `field_validator` alike except for `always`. */
  lemma FieldValidatorCopiesAgree(field: string, fields: seq<string>, mode: string, checkFields: Option<bool>)
    ensures FieldValidator(field, fields, mode, checkFields)
         == V1Decorators.FieldValidator(field, fields, mode, checkFields).(always := None)
  {
  }

  /** pydantic's own `root_validator(pre=…, allow_reuse=…)` decorator, not yet applied. */
  datatype PydanticRootDecorator = PydanticRootDecorator(pre: bool, allowReuse: bool)

  /** Applying pydantic's decorator: `skip_on_failure` keeps pydantic's default, False. */
  function ApplyPydantic(d: PydanticRootDecorator, f: Func): RootValidatorCall
  {
    RootValidatorCall(f, d.pre, d.allowReuse, false)
  }

  /** `model_validator(mode=…)`: `pydantic.root_validator(pre=mode == "before", allow_reuse=True)`. */
  function ModelValidator(mode: string): (d: PydanticRootDecorator)
    ensures d.pre <==> mode == "before"
    ensures d.allowReuse
  {
    PydanticRootDecorator(mode == "before", true)
  }

  /**
   * A function decorated with this copy's `model_validator` is handed over
   * unwrapped in every mode; the current copy wraps it in mode `"after"`.
   */
  lemma {:induction false} ModelValidatorNeverWraps(mode: string, f: Func)
    ensures ApplyPydantic(ModelValidator(mode), f).func == f
    ensures ApplyPydantic(ModelValidator(mode), f).pre <==> mode == "before"
    ensures mode == "after" ==>
      V1Decorators.Apply(V1Decorators.ModelValidator(mode), f).call.func != ApplyPydantic(ModelValidator(mode), f).func
  {
    if mode == "after" {
      V1Decorators.ModelValidatorModes(mode, f);
      var g := V1Decorators.Apply(V1Decorators.ModelValidator(mode), f).call.func;
      assert g == ConstructWrapper(if f.ClassMethodObj? then f.func else f, FieldAttrs);
      if !f.ClassMethodObj? {
        WrapperIsNew(f, FieldAttrs);
      }
    }
  }

  /** `_inner` applied to `f`: wraps when `construct_object and not pre`, without unwrapping a `classmethod`. */
  function Inner(f: Func, options: RootOptions): (call: RootValidatorCall)
    ensures options.constructObject && !options.pre ==> call.func == ConstructWrapper(f, DictMethod)
    ensures !(options.constructObject && !options.pre) ==> call.func == f
    ensures call.pre == options.pre && call.allowReuse == options.allowReuse
    ensures call.skipOnFailure == options.skipOnFailure
  {
    var func := if options.constructObject && !options.pre then ConstructWrapper(f, DictMethod) else f;
    RootValidatorCall(func, options.pre, options.allowReuse, options.skipOnFailure)
  }

  /** `root_validator(_func=None, *, …)`: decorated function or decorator. */
  function RootValidator(f: Option<Func>, options: RootOptions): (r: RootResult)
    ensures r.Decorated? <==> f.Some?
    ensures r.Decorated? ==> r.call == Inner(f.value, options)
    ensures r.Decorator? ==> r.options == options
  {
    match f
    case Some(g) => Decorated(Inner(g, options))
    case None => Decorator(options)
  }

  /** Calling what `root_validator` returned with a function. */
  function Apply(r: RootResult, f: Func): RootResult
  {
    match r
    case Decorator(options) => Decorated(Inner(f, options))
    case Decorated(_) => r
  }

  /** Bare use and factory use end in the same call. */
  lemma BareAndFactoryAgree(f: Func, options: RootOptions)
    ensures Apply(RootValidator(None, options), f) == RootValidator(Some(f), options)
  {
  }

  /**
   * The two copies of `root_validator` forward the same flags and decide
   * alike whether to wrap; on a function that is not a `classmethod` object
   * they differ only in how the wrapper converts its result.
   */
  lemma {:induction false} RootValidatorCopiesAgree(f: Func, options: RootOptions)
    ensures !f.ClassMethodObj? && options.constructObject && !options.pre ==>
      Inner(f, options).func == ConstructWrapper(f, DictMethod)
      && V1Decorators.Inner(f, options).func == ConstructWrapper(f, FieldAttrs)
    ensures !(options.constructObject && !options.pre) ==> Inner(f, options) == V1Decorators.Inner(f, options)
  {
    var wrap := options.constructObject && !options.pre;
    if wrap {
      assert Inner(f, options).func == ConstructWrapper(f, DictMethod);
      assert V1Decorators.Inner(f, options).func == ConstructWrapper(if f.ClassMethodObj? then f.func else f, FieldAttrs);
    } else {
      assert Inner(f, options).func == f && V1Decorators.Inner(f, options).func == f;
    }
  }
}
