/**
 * The v2-style validator decorators as they run on pydantic v1: each one
 * translates its arguments into a call of v1's `validator` or `root_validator`.
 */
module V1Decorators {
  import opened Wrappers
  import opened PyDict
  import opened Values
  import opened PyObjects
  import opened ValidatorArgs

  /**
   * `field_validator(_field, *fields, mode=…, check_fields=…)`: `pre` is the
   * substring test `mode in "before"` (the parentheses around `"before"` make
   * no tuple), `always` and `allow_reuse` are fixed to True, and
   * `check_fields` is `bool(check_fields)`.
   */
  function FieldValidator(field: string, fields: seq<string>, mode: string, checkFields: Option<bool>): (call: ValidatorCall)
    ensures call.fields == [field] + fields
    ensures call.pre <==> exists i :: OccursAt("before", mode, i)
    ensures call.always == Some(true) && call.allowReuse
    ensures call.checkFields <==> checkFields == Some(true)
  {
    ValidatorCall([field] + fields, ContainsStr("before", mode), Some(true), Truth(checkFields), true)
  }

  /** On the four modes the signature admits, `pre` holds exactly for `"before"`. */
  lemma FieldValidatorModes(field: string, fields: seq<string>, mode: string, checkFields: Option<bool>)
    requires mode in {"before", "after", "wrap", "plain"}
    ensures FieldValidator(field, fields, mode, checkFields).pre <==> mode == "before"
  {
    if mode != "before" {
      assert |mode| >= 4 && mode[0] in {'a', 'w', 'p'};
      forall i | 0 <= i <= |"before"| - |mode|
        ensures !OccursAt("before", mode, i)
      {
        assert i <= 2;
        assert "before"[i] in {'b', 'e', 'f'};
        assert "before"[i..i + |mode|][0] == "before"[i];
      }
    } else {
      assert OccursAt("before", mode, 0);
    }
  }

  /**
   * Outside those four, the substring test also sets `pre` for other strings,
   * such as the empty string and `"fore"`.
   */
  lemma {:induction false} FieldValidatorSubstringModes(field: string, fields: seq<string>)
    ensures FieldValidator(field, fields, "", None).pre
    ensures FieldValidator(field, fields, "fore", None).pre
  {
    assert OccursAt("before", "", 0);
    assert "before"[2..6] == "fore";
    assert OccursAt("before", "fore", 2);
  }

  /** The decorator `_inner` applied to `f`. */
  function Inner(f: Func, options: RootOptions): (call: RootValidatorCall)
    ensures options.constructObject && !options.pre ==>
      call.func == ConstructWrapper(if f.ClassMethodObj? then f.func else f, FieldAttrs)
    ensures !(options.constructObject && !options.pre) ==> call.func == f
    ensures call.pre == options.pre && call.allowReuse == options.allowReuse
    ensures call.skipOnFailure == options.skipOnFailure
  {
    var func :=
      if options.constructObject && !options.pre then
        var target := if f.ClassMethodObj? then f.func else f;
        ConstructWrapper(target, FieldAttrs)
      else f;
    RootValidatorCall(func, options.pre, options.allowReuse, options.skipOnFailure)
  }

  /**
   * `root_validator(_func=None, *, pre, allow_reuse, skip_on_failure,
   * construct_object)`: the decorated function when one is given, the
   * decorator otherwise.
   */
  function RootValidator(f: Option<Func>, options: RootOptions): (r: RootResult)
    ensures r.Decorated? <==> f.Some?
    ensures r.Decorated? ==> r.call == Inner(f.value, options)
    ensures r.Decorator? ==> r.options == options
  {
    match f
    case Some(g) => Decorated(Inner(g, options))
    case None => Decorator(options)
  }

  /** Calling what `root_validator` returned with a function; only a decorator can be called this way. */
  function Apply(r: RootResult, f: Func): RootResult
  {
    match r
    case Decorator(options) => Decorated(Inner(f, options))
    case Decorated(_) => r
  }

  /** Bare use `@root_validator` and factory use `@root_validator(...)` end in the same call. */
  lemma BareAndFactoryAgree(f: Func, options: RootOptions)
    ensures Apply(RootValidator(None, options), f) == RootValidator(Some(f), options)
    ensures RootValidator(Some(f), options).Decorated?
  {
  }

  /** The defaults of `root_validator`'s keyword arguments. */
  const DefaultRootOptions := RootOptions(pre := false, allowReuse := false, skipOnFailure := false, constructObject := false)

  /**
   * `model_validator(mode=…)`: a `root_validator` decorator with
   * `pre = mode == "before"`, `allow_reuse = True` and
   * `construct_object = mode == "after"`.
   */
  function ModelValidator(mode: string): (r: RootResult)
    ensures r.Decorator?
    ensures r.options.pre <==> mode == "before"
    ensures r.options.constructObject <==> mode == "after"
    ensures r.options.allowReuse && !r.options.skipOnFailure
  {
    RootValidator(None, DefaultRootOptions.(pre := mode == "before", allowReuse := true, constructObject := mode == "after"))
  }

  /**
   * What the three modes do to a function: `"before"` runs it before
   * validation, `"after"` wraps it to receive a model, and `"wrap"` does
   * neither.
   */
  lemma {:induction false} ModelValidatorModes(mode: string, f: Func)
    ensures Apply(ModelValidator(mode), f).Decorated?
    ensures Apply(ModelValidator(mode), f).call.pre <==> mode == "before"
    ensures mode == "after" ==> Apply(ModelValidator(mode), f).call.func.ConstructWrapper?
    ensures mode != "after" ==> Apply(ModelValidator(mode), f).call.func == f
    ensures mode == "wrap" ==> Apply(ModelValidator(mode), f).call == RootValidatorCall(f, false, true, false)
  {
    var options := ModelValidator(mode).options;
    assert Apply(ModelValidator(mode), f) == Decorated(Inner(f, options));
    assert mode == "after" ==> mode != "before";
  }

  /**
   * The body of the wrapper's last line,
   * `{k: getattr(result, k) for k in result.__fields__}`: the names are taken
   * in order into `acc`; the first name `getattr` cannot resolve raises
   * AttributeError (here: Err with that name).
   */
  function CollectFields(result: PyObject, names: seq<string>, acc: Items<Value>): (r: Result<Items<Value>, string>)
    reads result.dict
    ensures r.Err? <==> exists k :: k in names && result.GetAttr(k).None?
    ensures r.Err? ==> r.error in names && result.GetAttr(r.error).None?
    ensures r.Err? ==>
      exists i :: 0 <= i < |names| && names[i] == r.error && forall j :: 0 <= j < i ==> result.GetAttr(names[j]).Some?
    ensures r.Ok? ==> forall k :: k in Keys(r.value) <==> k in Keys(acc) || k in names
    ensures r.Ok? ==> forall k :: k in names ==> Get(r.value, k) == result.GetAttr(k)
    ensures r.Ok? ==> forall k :: k !in names ==> Get(r.value, k) == Get(acc, k)
    ensures r.Ok? && IsDict(acc) ==> IsDict(r.value)
    decreases |names|
  {
    if names == [] then Ok(acc)
    else
      match result.GetAttr(names[0])
      case None => Err(names[0])
      case Some(v) =>
        var next := Set(acc, names[0], v);
        assert IsDict(acc) ==> IsDict(next) by {
          if IsDict(acc) {
            SetIsDict(acc, names[0], v);
          }
        }
        var tail := names[1..];
        assert forall k :: k in names <==> k == names[0] || k in tail;
        var r := CollectFields(result, tail, next);
        assert r.Err? ==> exists i :: 0 <= i < |names| && names[i] == r.error &&
                                      forall j :: 0 <= j < i ==> result.GetAttr(names[j]).Some? by {
          if r.Err? {
            var i :| 0 <= i < |tail| && tail[i] == r.error && forall j :: 0 <= j < i ==> result.GetAttr(tail[j]).Some?;
            assert names[i + 1] == r.error;
            forall j | 0 <= j < i + 1 ensures result.GetAttr(names[j]).Some? {
              if j > 0 {
                assert names[j] == tail[j - 1];
              }
            }
          }
        }
        r
  }

  /**
   * For a model whose attributes all resolve, the dict the wrapper returns
   * has exactly the model's field names as keys, each holding its attribute.
   */
  lemma WrapperReturnsFields(result: PyObject, fieldNames: seq<string>)
    requires forall k :: k in fieldNames ==> result.GetAttr(k).Some?
    ensures CollectFields(result, fieldNames, []).Ok?
    ensures IsDict(CollectFields(result, fieldNames, []).value)
    ensures forall k :: k in Keys(CollectFields(result, fieldNames, []).value) <==> k in fieldNames
    ensures forall k :: k in fieldNames ==> Get(CollectFields(result, fieldNames, []).value, k) == result.GetAttr(k)
  {
    assert IsDict<Value>([]);
  }
}
