/**
 * Classification of a target observer's result (target.go): a clean return
 * or a cancellation of the observer's own context is success, anything else
 * stops the discoverer with a TargetObserverError naming the target.
 */
module TargetObserving {
  import opened Base
  import opened Types

  /**
   * `targetDiscovered(ctx, d, o, t)`: `observed` is what `o.TargetDiscovered(ctx, t)`
   * returned and `ctxErr` is `ctx.Err()` once it has returned.
   */
  function TargetDiscovered(ctxErr: Option<Error>, d: Ref, o: Ref, t: Target, observed: Option<Error>): (r: Option<Error>)
    ensures r.None? <==> observed.None? || (observed == Some(Canceled) && ctxErr == Some(Canceled))
    ensures r.Some? ==> r.value.TargetObserverError? && Unwrap(r.value) == observed
    ensures r.Some? ==> r.value.discoverer == d && r.value.observer == o && r.value.target == t
  {
    if observed.None? then None
    else if observed.value == Canceled && ctxErr == Some(Canceled) then None
    else Some(TargetObserverError(d, o, t, observed.value))
  }

  /**
   * `Error()` names the target and the cause: the target's name and the
   * cause's message can be read back from the text. `Unwrap()` returns the
   * cause, so `errors.Is(err, cause)` holds.
   */
  lemma ErrorNamesTargetAndCause(d: Ref, o: Ref, t: Target, cause: Error)
    requires '\'' !in t.name
    ensures ParseFailureText(Message(TargetObserverError(d, o, t, cause))) == Some((t.name, "target", Message(cause)))
    ensures Unwrap(TargetObserverError(d, o, t, cause)) == Some(cause) && Is(TargetObserverError(d, o, t, cause), cause)
  {
    assert Message(TargetObserverError(d, o, t, cause)) == FailureText(t.name, "target", Message(cause));
    KindsHaveNoColon();
    FailureTextRoundTrip(t.name, "target", Message(cause));
  }
}
