/** `createDecorator` of src/ts/util/decorators.ts: the order in which the
    hooks run around a decorated call, and what the call returns or throws.

    A call is modelled by its trace of hook invocations and its outcome.
    What the wrapped function does is an input (`fnOutcome`), and so is
    what each hook does when it runs; a hook runs at most once per call.
    An asynchronous outcome is the promise's final settlement: the hooks
    that run when it settles are in the same trace, after `CallFn`. */
module Decorators {
  import opened Wrappers

  /** What a function call gives: a plain value or throw, or a promise that
      resolves or rejects. */
  datatype Outcome<+V, +E> =
    | SyncReturn(value: V)
    | SyncThrow(error: E)
    | AsyncResolve(value: V)
    | AsyncReject(error: E)
  {
    predicate IsAsync() {
      AsyncResolve? || AsyncReject?
    }
  }

  /** What a hook does when it runs: completes, throws, or returns a
      promise that rejects (which only the asynchronous path waits for). */
  datatype HookRun<+E> = Completes | Throws(error: E) | Rejects(error: E)

  /** The hooks given to `createDecorator`; `None` is an absent hook. */
  datatype Hooks<+E> = Hooks(onCalled: Option<HookRun<E>>, onReturned: Option<HookRun<E>>, onError: Option<HookRun<E>>)

  const NoHooks: Hooks<string> := Hooks(None, None, None)

  datatype Event<+V, +E> =
    | OnCalled(params: seq<V>, name: string)
    | CallFn(params: seq<V>)
    | OnReturned(result: V, params: seq<V>, name: string)
    | OnError(error: E, params: seq<V>, name: string)

  /** `fnName || fn.name`. */
  function HookName(fnName: string, fnDotName: string): (name: string)
    ensures fnName != "" ==> name == fnName
    ensures fnName == "" ==> name == fnDotName
  {
    if fnName != "" then fnName else fnDotName
  }

  /** A hook that is absent or completes leaves the call as it was. */
  predicate Transparent<E>(h: Option<HookRun<E>>) {
    h.None? || h.value.Completes?
  }

  /** A hook's effect on a settling promise: a throw or a rejection of its
      own becomes the promise's rejection. */
  function HookFailure<E>(h: Option<HookRun<E>>): Option<E> {
    match h
    case Some(Throws(e)) => Some(e)
    case Some(Rejects(e)) => Some(e)
    case _ => None
  }

  /** The `catch` block: `onError` runs with the error, and the error is
      thrown again, unless `onError` itself throws. */
  function CatchPath<V, E>(hooks: Hooks<E>, params: seq<V>, name: string, e: E)
    : (r: (seq<Event<V, E>>, Outcome<V, E>))
    ensures hooks.onError.Some? <==> r.0 == [OnError(e, params, name)]
    ensures hooks.onError.None? ==> r.0 == []
    ensures r.1.SyncThrow?
    ensures hooks.onError.None? || !hooks.onError.value.Throws? ==> r.1 == SyncThrow(e)
  {
    match hooks.onError
    case None => ([], SyncThrow(e))
    case Some(Throws(e2)) => ([OnError(e, params, name)], SyncThrow(e2))
    case Some(_) => ([OnError(e, params, name)], SyncThrow(e))
  }

  /** One call of `decorator(fn, fnName)(...params)`. */
  function Decorated<V, E>(hooks: Hooks<E>, fnName: string, fnDotName: string, params: seq<V>,
                           fnOutcome: Outcome<V, E>)
    : (r: (seq<Event<V, E>>, Outcome<V, E>))
    // `onCalled` runs first, with the params and the name
    ensures hooks.onCalled.Some? ==>
              |r.0| > 0 && r.0[0] == OnCalled(params, HookName(fnName, fnDotName))
    // a throwing `onCalled` stops the call before `fn` runs
    ensures hooks.onCalled.Some? && hooks.onCalled.value.Throws? ==>
              r == ([OnCalled(params, HookName(fnName, fnDotName))], SyncThrow(hooks.onCalled.value.error))
    // otherwise `fn` runs exactly once, right after `onCalled`
    ensures !(hooks.onCalled.Some? && hooks.onCalled.value.Throws?) ==>
              var k := if hooks.onCalled.Some? then 1 else 0;
              && k < |r.0| && r.0[k] == CallFn(params)
              && forall j :: 0 <= j < |r.0| && j != k ==> !r.0[j].CallFn?
    // a promise stays a promise
    ensures !(hooks.onCalled.Some? && hooks.onCalled.value.Throws?) ==> (r.1.IsAsync() <==> fnOutcome.IsAsync())
    // hooks that complete pass the result or the error through unchanged
    ensures Transparent(hooks.onCalled) && Transparent(hooks.onReturned) && Transparent(hooks.onError) ==>
              r.1 == fnOutcome
  {
    var name := HookName(fnName, fnDotName);
    var called: seq<Event<V, E>> := if hooks.onCalled.Some? then [OnCalled(params, name)] else [];
    if hooks.onCalled.Some? && hooks.onCalled.value.Throws? then
      (called, SyncThrow(hooks.onCalled.value.error))
    else
      var prefix := called + [CallFn(params)];
      var (rest, out) := AfterCall(hooks, params, name, fnOutcome);
      assert forall j :: 0 <= j < |rest| ==> !rest[j].CallFn?;
      assert forall j :: |prefix| <= j < |prefix + rest| ==> (prefix + rest)[j] == rest[j - |prefix|];
      (prefix + rest, out)
  }

  /** Everything after `fn` has been applied: the hooks that run on its
      result, and the decorated call's outcome. */
  function AfterCall<V, E>(hooks: Hooks<E>, params: seq<V>, name: string, fnOutcome: Outcome<V, E>)
    : (r: (seq<Event<V, E>>, Outcome<V, E>))
    ensures forall j :: 0 <= j < |r.0| ==> !r.0[j].CallFn?
    ensures r.1.IsAsync() <==> fnOutcome.IsAsync()
    ensures Transparent(hooks.onReturned) && Transparent(hooks.onError) ==> r.1 == fnOutcome
  {
    match fnOutcome
    case SyncThrow(e) => CatchPath(hooks, params, name, e)
    case SyncReturn(v) =>
      if hooks.onReturned.None? then ([], SyncReturn(v))
      else
        var returned := [OnReturned(v, params, name)];
        if hooks.onReturned.value.Throws? then
          // a throw from `onReturned` lands in the same `catch`
          var (errs, out) := CatchPath(hooks, params, name, hooks.onReturned.value.error);
          (returned + errs, out)
        else
          (returned, SyncReturn(v))
    case AsyncResolve(v) =>
      if hooks.onReturned.None? then ([], AsyncResolve(v))
      else
        var failure := HookFailure(hooks.onReturned);
        ([OnReturned(v, params, name)], if failure.Some? then AsyncReject(failure.value) else AsyncResolve(v))
    case AsyncReject(e) =>
      if hooks.onError.None? then ([], AsyncReject(e))
      else
        var failure := HookFailure(hooks.onError);
        ([OnError(e, params, name)], AsyncReject(failure.GetOr(e)))
  }

  // ---------------------------------------------------------------------
  // Properties

  /** Without hooks the decorated function behaves exactly as `fn`. */
  lemma NoHooksPassThrough<V>(fnName: string, fnDotName: string, params: seq<V>, fnOutcome: Outcome<V, string>)
    ensures Decorated(NoHooks, fnName, fnDotName, params, fnOutcome) == ([CallFn(params)], fnOutcome)
  {
    var rest := AfterCall(NoHooks, params, HookName(fnName, fnDotName), fnOutcome).0;
    assert rest == [];
    assert [] + [CallFn(params)] + rest == [CallFn(params)];
  }

  /** Synchronous success: `onReturned` sees the result after `fn`, and
      that same result is returned. */
  lemma SyncReturnOrder<V, E>(hooks: Hooks<E>, fnName: string, fnDotName: string, params: seq<V>, v: V)
    requires Transparent(hooks.onCalled) && hooks.onReturned == Some(Completes)
    ensures var name := HookName(fnName, fnDotName);
            var (trace, out) := Decorated(hooks, fnName, fnDotName, params, SyncReturn(v));
            && out == SyncReturn(v)
            && trace[|trace| - 1] == OnReturned(v, params, name)
            && trace[|trace| - 2] == CallFn(params)
  {
  }

  /** Synchronous throw: `onError` sees the error after `fn`, and the same
      error is thrown again. */
  lemma SyncThrowOrder<V, E>(hooks: Hooks<E>, fnName: string, fnDotName: string, params: seq<V>, e: E)
    requires Transparent(hooks.onCalled) && hooks.onError == Some(Completes)
    ensures var name := HookName(fnName, fnDotName);
            var (trace, out) := Decorated(hooks, fnName, fnDotName, params, SyncThrow(e));
            && out == SyncThrow(e)
            && trace[|trace| - 1] == OnError(e, params, name)
            && trace[|trace| - 2] == CallFn(params)
  {
  }

  /** On the synchronous path a throwing `onReturned` is reported to
      `onError`, which sees the hook's error; on the asynchronous path it
      only rejects the promise and `onError` never runs. */
  lemma ReturnedHookThrows<V, E>(hooks: Hooks<E>, fnName: string, fnDotName: string, params: seq<V>, v: V, e2: E)
    requires Transparent(hooks.onCalled) && hooks.onReturned == Some(Throws(e2)) && hooks.onError == Some(Completes)
    ensures var name := HookName(fnName, fnDotName);
            var (trace, out) := Decorated(hooks, fnName, fnDotName, params, SyncReturn(v));
            out == SyncThrow(e2) && trace[|trace| - 1] == OnError(e2, params, name)
    ensures var (trace, out) := Decorated(hooks, fnName, fnDotName, params, AsyncResolve(v));
            out == AsyncReject(e2) && forall j :: 0 <= j < |trace| ==> !trace[j].OnError?
  {
  }

  /** Asynchronous settlement: the resolved value comes back unchanged once
      `onReturned` has completed, and a rejection is passed on once
      `onError` has completed. */
  lemma AsyncOrder<V, E>(hooks: Hooks<E>, fnName: string, fnDotName: string, params: seq<V>, v: V, e: E)
    requires Transparent(hooks.onCalled) && hooks.onReturned == Some(Completes) && hooks.onError == Some(Completes)
    ensures var name := HookName(fnName, fnDotName);
            var (trace, out) := Decorated(hooks, fnName, fnDotName, params, AsyncResolve(v));
            out == AsyncResolve(v) && trace[|trace| - 1] == OnReturned(v, params, name)
    ensures var name := HookName(fnName, fnDotName);
            var (trace, out) := Decorated(hooks, fnName, fnDotName, params, AsyncReject(e));
            out == AsyncReject(e) && trace[|trace| - 1] == OnError(e, params, name)
  {
  }
}
