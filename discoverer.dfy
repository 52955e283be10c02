/**
 * Classification of a discover observer's result (discoverer.go): a clean return
 * or a cancellation of the observer's own context is success, anything else
 * stops the discoverer with a DiscoverObserverError naming the target.
 */
module DiscoverObserving {
  import opened Base
  import opened Types

  /**
   * `targetDiscovered(ctx, d, o, t)`: `observed` is what `o.TargetDiscovered(ctx, t)`
   * returned and `ctxErr` is `ctx.Err()` once it has returned.
   */
  function TargetDiscovered(ctxErr: Option<Error>, d: Ref, o: Ref, t: Target, observed: Option<Error>): (r: Option<Error>)
    ensures r.None? <==> observed.None? || (observed == Some(Canceled) && ctxErr == Some(Canceled))
    ensures r.Some? ==> r.value.DiscoverObserverError? && Unwrap(r.value) == observed
    ensures r.Some? ==> r.value.discoverer == d && r.value.observer == o && r.value.target == t
  {
    if observed.None? then None
    else if observed.value == Canceled && ctxErr == Some(Canceled) then None
    else Some(DiscoverObserverError(d, o, t, observed.value))
  }

  /**
   * `Error()` names the target and the cause: the target's name and the
   * cause's message can be read back from the text. `Unwrap()` returns the
   * cause, so `errors.Is(err, cause)` holds.
   */
  lemma ErrorNamesTargetAndCause(d: Ref, o: Ref, t: Target, cause: Error)
    requires '\'' !in t.name
    ensures ParseFailureText(Message(DiscoverObserverError(d, o, t, cause))) == Some((t.name, "target", Message(cause)))
    ensures Unwrap(DiscoverObserverError(d, o, t, cause)) == Some(cause) && Is(DiscoverObserverError(d, o, t, cause), cause)
  {
    assert Message(DiscoverObserverError(d, o, t, cause)) == FailureText(t.name, "target", Message(cause));
    KindsHaveNoColon();
    FailureTextRoundTrip(t.name, "target", Message(cause));
  }
}
