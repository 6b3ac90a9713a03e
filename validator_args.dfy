/**
 * The vocabulary the validator adaptors share: Python's `in` on strings and
 * `bool()` on an optional flag, user functions as the decorators see them,
 * and the calls they make into pydantic v1's `validator` and `root_validator`.
 */
module ValidatorArgs {
  import opened Wrappers

  /** `needle` occurs in `hay` starting at index `i`. */
  predicate OccursAt(hay: string, needle: string, i: int) {
    0 <= i <= |hay| - |needle| && hay[i..i + |needle|] == needle
  }

  /** `needle in hay` for two strings: a substring test. */
  function ContainsStr(hay: string, needle: string): (b: bool)
    ensures b <==> exists i :: OccursAt(hay, needle, i)
    decreases |hay|
  {
    if |needle| > |hay| then false
    else if hay[..|needle|] == needle then assert OccursAt(hay, needle, 0); true
    else
      var b := ContainsStr(hay[1..], needle);
      assert b ==> exists i :: OccursAt(hay, needle, i) by {
        if b {
          var i :| OccursAt(hay[1..], needle, i);
          assert hay[i + 1..i + 1 + |needle|] == hay[1..][i..i + |needle|];
          assert OccursAt(hay, needle, i + 1);
        }
      }
      assert (exists i :: OccursAt(hay, needle, i)) ==> b by {
        if exists i :: OccursAt(hay, needle, i) {
          var i :| OccursAt(hay, needle, i);
          assert i != 0;
          assert hay[1..][i - 1..i - 1 + |needle|] == hay[i..i + |needle|];
          assert OccursAt(hay[1..], needle, i - 1);
        }
      }
      b
  }

  /** `bool(x)` for `x: bool | None`. */
  function Truth(x: Option<bool>): (b: bool)
    ensures b <==> x == Some(true)
  {
    x.GetOr(false)
  }

  /** How a construct wrapper turns the model its target returns back into a dict. */
  datatype Dump =
    | FieldAttrs     // `{k: getattr(result, k) for k in result.__fields__}`
    | DictMethod     // `result.dict()`

  /** A validator function as the decorators receive it and hand it on. */
  datatype Func =
    | UserFunc(id: nat)                           // the function the user wrote
    | ClassMethodObj(func: Func)                  // a `classmethod` object around a function
    | ConstructWrapper(target: Func, dump: Dump)  // the closure that builds a model before calling `target`

  /** A wrapper is never the function it wraps. */
  lemma {:induction false} WrapperIsNew(f: Func, dump: Dump)
    ensures ConstructWrapper(f, dump) != f
  {
    if f.ConstructWrapper? {
      WrapperIsNew(f.target, f.dump);
    }
  }

  /** The call `pydantic.validator(*fields, pre=…, always=…, check_fields=…, allow_reuse=…)`; None: not passed. */
  datatype ValidatorCall = ValidatorCall(fields: seq<string>, pre: bool, always: Option<bool>, checkFields: bool, allowReuse: bool)

  /** The keyword arguments of this package's v1 `root_validator`. */
  datatype RootOptions = RootOptions(pre: bool, allowReuse: bool, skipOnFailure: bool, constructObject: bool)

  /** The call `pydantic.root_validator(pre=…, allow_reuse=…, skip_on_failure=…)` applied to `func`. */
  datatype RootValidatorCall = RootValidatorCall(func: Func, pre: bool, allowReuse: bool, skipOnFailure: bool)

  /**
   * What `root_validator(_func, …)` returns: the decorated validator when a
   * function was given, and otherwise the decorator `_inner`, waiting for one.
   */
  datatype RootResult = Decorated(call: RootValidatorCall) | Decorator(options: RootOptions)
}
