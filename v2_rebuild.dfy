/**
 * How the v2 mixin's `update_forward_refs` and `model_rebuild` bind and
 * forward their keyword arguments to pydantic's own `model_rebuild`.
 */
module V2Rebuild {
  import opened Wrappers
  import opened PyDict
  import opened Values

  /** A keyword-argument value: a flag, a namespace dict, or any other value. */
  datatype Arg = FlagArg(b: bool) | NamespaceArg(ns: Items<Arg>) | ValueArg(v: Value)

  /** The keyword arguments the mixin's `model_rebuild` hands to pydantic's. */
  datatype RebuildCall = RebuildCall(force: Arg, raiseErrors: Arg, typesNamespace: Items<Arg>)

  /**
   * The mixin's `model_rebuild(force=False, raise_errors=True, **kwargs)`
   * called with the keyword arguments `kw`: the two named parameters take
   * their keyword or their default, and every other keyword ends up in the
   * dict forwarded as `_types_namespace`.
   */
  function ModelRebuild(kw: Items<Arg>): (call: RebuildCall)
    ensures "force" !in Keys(kw) ==> call.force == FlagArg(false)
    ensures "raise_errors" !in Keys(kw) ==> call.raiseErrors == FlagArg(true)
    ensures forall v :: Get(kw, "force") == Some(v) ==> call.force == v
    ensures forall v :: Get(kw, "raise_errors") == Some(v) ==> call.raiseErrors == v
    ensures forall k :: k != "force" && k != "raise_errors" ==> Get(call.typesNamespace, k) == Get(kw, k)
    ensures Get(call.typesNamespace, "force") == None && Get(call.typesNamespace, "raise_errors") == None
  {
    RebuildCall(
      Get(kw, "force").GetOr(FlagArg(false)),
      Get(kw, "raise_errors").GetOr(FlagArg(true)),
      Remove(Remove(kw, "force"), "raise_errors"))
  }

  /**
   * `update_forward_refs(force, raise_errors, **localns)` as written: it calls
   * `cls.model_rebuild(forc=force, raise_errors=raise_errors, _types_namespace=localns)`.
   * The misspelt `forc` is no parameter of `model_rebuild`, so it joins
   * `**kwargs`: the rebuild is never forced, and the namespace pydantic gets
   * is `{"forc": force, "_types_namespace": localns}` instead of `localns`.
   */
  function UpdateForwardRefsAsWritten(force: Arg, raiseErrors: Arg, localns: Items<Arg>): (call: RebuildCall)
    ensures call.force == FlagArg(false)
    ensures call.raiseErrors == raiseErrors
    ensures call.typesNamespace == [("forc", force), ("_types_namespace", NamespaceArg(localns))]
    ensures force != FlagArg(false) ==> call != UpdateForwardRefs(force, raiseErrors, [])
  {
    var tn := ("_types_namespace", NamespaceArg(localns));
    var re := ("raise_errors", raiseErrors);
    var fo := ("forc", force);
    var kw := [fo, re, tn];
    assert kw == [fo] + ([re] + [tn]);
    RemoveCons(tn, [], "force");
    RemoveCons(re, [tn], "force");
    RemoveCons(fo, [re] + [tn], "force");
    assert Remove(kw, "force") == kw;
    RemoveCons(tn, [], "raise_errors");
    RemoveCons(re, [tn], "raise_errors");
    RemoveCons(fo, [re] + [tn], "raise_errors");
    assert Remove(kw, "raise_errors") == [fo, tn];
    ModelRebuild(kw)
  }

  /**
   * `update_forward_refs` as evidently intended,
   * `cls.model_rebuild(force=force, raise_errors=raise_errors, **localns)`:
   * pydantic receives the caller's flags and exactly the caller's namespace.
   * Python binds the names `force` and `raise_errors` to the parameters, so
   * `localns` never holds them.
   */
  function UpdateForwardRefs(force: Arg, raiseErrors: Arg, localns: Items<Arg>): (call: RebuildCall)
    requires "force" !in Keys(localns) && "raise_errors" !in Keys(localns)
    ensures call == RebuildCall(force, raiseErrors, localns)
  {
    var kw := [("force", force), ("raise_errors", raiseErrors)] + localns;
    assert kw == [("force", force)] + ([("raise_errors", raiseErrors)] + localns);
    RemoveCons(("force", force), [("raise_errors", raiseErrors)] + localns, "force");
    RemoveCons(("raise_errors", raiseErrors), localns, "force");
    RemoveCons(("raise_errors", raiseErrors), localns, "raise_errors");
    RemoveAbsent(localns, "force");
    RemoveAbsent(localns, "raise_errors");
    ModelRebuild(kw)
  }
}
