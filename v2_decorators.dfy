/**
 * The v1-style validator decorators as they run on pydantic v2: both forward
 * to pydantic's deprecated `class_validators` module, `root_validator` after
 * normalising its flags.
 */
module V2Decorators {
  import opened Wrappers
  import opened PyDict
  import opened Values

  /** The call `class_validators.validator(_field, *fields, **kwargs)`. */
  datatype ValidatorCall = ValidatorCall(fields: seq<string>, kwargs: Items<Value>)

  /** `validator(_field, *fields, **kwargs)`: the field names and keyword arguments pass through unchanged. */
  function Validator(field: string, fields: seq<string>, kwargs: Items<Value>): (call: ValidatorCall)
    ensures |call.fields| == |fields| + 1
    ensures call.fields[0] == field && call.fields[1..] == fields
    ensures call.kwargs == kwargs
  {
    ValidatorCall([field] + fields, kwargs)
  }

  /** The call `class_validators.root_validator(*_args, pre=…, skip_on_failure=…, allow_reuse=…)`. */
  datatype RootValidatorCall = RootValidatorCall(args: seq<string>, pre: bool, skipOnFailure: bool, allowReuse: bool)

  /** The ValueError `root_validator` raises. */
  datatype ValueError = ValueError(message: string)

  const ConstructObjectMessage: string :=
    "construct_object=True is not supported by pydantic-compat when running on pydantic v2. "
    + "Please use pydantic_compat.model_validator(mode='after') instead. (It works for both versions)."

  /**
   * `root_validator(*_args, pre=False, skip_on_failure=None, allow_reuse=False,
   * construct_object=False)`: rejects `construct_object`, and otherwise
   * forwards with `skip_on_failure` defaulted to True when `pre` is False and
   * the caller gave none.
   */
  function RootValidator(args: seq<string>, pre: bool, skipOnFailure: Option<bool>, allowReuse: bool, constructObject: bool)
    : (r: Result<RootValidatorCall, ValueError>)
    ensures r.Err? <==> constructObject
    ensures r.Err? ==> r.error == ValueError(ConstructObjectMessage)
    ensures r.Ok? ==> r.value.args == args && r.value.pre == pre && r.value.allowReuse == allowReuse
    ensures r.Ok? ==> (r.value.skipOnFailure <==> skipOnFailure == Some(true) || (skipOnFailure == None && !pre))
  {
    var skip := if !pre && skipOnFailure == None then Some(true) else skipOnFailure;
    if constructObject then
      Err(ValueError(ConstructObjectMessage))
    else
      Ok(RootValidatorCall(args, pre, skip.GetOr(false), allowReuse))
  }

  /** The three cases of `skip_on_failure`: an explicit value is kept, and None means `not pre`. */
  lemma {:induction false} RootValidatorSkipCases(args: seq<string>, pre: bool, allowReuse: bool)
    ensures RootValidator(args, pre, Some(false), allowReuse, false).value.skipOnFailure == false
    ensures RootValidator(args, pre, Some(true), allowReuse, false).value.skipOnFailure == true
    ensures RootValidator(args, pre, None, allowReuse, false).value.skipOnFailure == !pre
  {
  }
}
