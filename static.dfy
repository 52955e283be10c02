/**
 * The static discoverer (static.go): discovers each pre-configured target in
 * order, deferring its undiscovery, then waits for the context to be done;
 * the deferred calls run last-in first-out as it returns the context's error.
 */
module Static {
  import opened Base
  import opened Types

  /** What the observer is told, and the moment the context is done. */
  datatype Event = Discovered(target: Target) | ContextDone | Undiscovered(target: Target)

  function Discoveries(targets: seq<Target>): (r: seq<Event>)
    ensures |r| == |targets| && forall i :: 0 <= i < |targets| ==> r[i] == Discovered(targets[i])
  {
    seq(|targets|, i requires 0 <= i < |targets| => Discovered(targets[i]))
  }

  function Undiscoveries(targets: seq<Target>): (r: seq<Event>)
    ensures |r| == |targets| && forall i :: 0 <= i < |targets| ==> r[i] == Undiscovered(targets[i])
  {
    seq(|targets|, i requires 0 <= i < |targets| => Undiscovered(targets[i]))
  }

  /** The trace `Discover` produces: discoveries in order, the wait, undiscoveries in reverse. */
  function Trace(targets: seq<Target>): seq<Event>
  {
    Discoveries(targets) + [ContextDone] + Undiscoveries(Reverse(targets))
  }

  /** Position by position: target i is discovered at i and undiscovered at 2n - i, around the wait at n. */
  lemma TraceShape(targets: seq<Target>)
    ensures |Trace(targets)| == 2 * |targets| + 1
    ensures Trace(targets)[|targets|] == ContextDone
    ensures forall i :: 0 <= i < |targets| ==> Trace(targets)[i] == Discovered(targets[i])
    ensures forall i :: 0 <= i < |targets| ==> Trace(targets)[2 * |targets| - i] == Undiscovered(targets[i])
  {
    var n := |targets|;
    var t := Trace(targets);
    forall i | 0 <= i < n
      ensures t[2 * n - i] == Undiscovered(targets[i])
    {
      assert t[2 * n - i] == Undiscoveries(Reverse(targets))[n - 1 - i];
    }
  }

  /**
   * `Discover`: `doneErr` is `ctx.Err()` once `ctx.Done()` is closed. The
   * deferred calls are kept on an explicit stack, most recent first.
   */
  method Discover(targets: seq<Target>, doneErr: Error) returns (events: seq<Event>, err: Option<Error>)
    ensures events == Trace(targets)
    ensures err == Some(doneErr)
  {
    events := [];
    var deferred: seq<Target> := [];
    var i := 0;
    while i < |targets|
      invariant 0 <= i <= |targets|
      invariant events == Discoveries(targets[..i])
      invariant deferred == Reverse(targets[..i])
    {
      assert Discoveries(targets[..i + 1]) == events + [Discovered(targets[i])];
      assert Reverse(targets[..i + 1]) == [targets[i]] + deferred;
      events := events + [Discovered(targets[i])];
      deferred := [targets[i]] + deferred;
      i := i + 1;
    }
    assert targets[..i] == targets;
    events := events + [ContextDone];
    err := Some(doneErr);
    ghost var head := events;
    var k := 0;
    while k < |deferred|
      invariant 0 <= k <= |deferred|
      invariant events == head + Undiscoveries(deferred[..k])
    {
      assert Undiscoveries(deferred[..k + 1]) == Undiscoveries(deferred[..k]) + [Undiscovered(deferred[k])];
      events := events + [Undiscovered(deferred[k])];
      k := k + 1;
    }
    assert deferred[..k] == deferred;
  }

  /** Nothing is undiscovered before the context is done. */
  lemma NoUndiscoveryBeforeDone(targets: seq<Target>, j: nat)
    requires j < |Trace(targets)| && Trace(targets)[j].Undiscovered?
    ensures j > |targets|
  {
    TraceShape(targets);
  }

  /**
   * Discoveries and undiscoveries nest: for targets at positions i < j, i is
   * discovered before j, and j is undiscovered before i.
   */
  lemma UndiscoveryNests(targets: seq<Target>, i: nat, j: nat)
    requires i < j < |targets|
    ensures Trace(targets)[i] == Discovered(targets[i]) && Trace(targets)[j] == Discovered(targets[j])
    ensures Trace(targets)[2 * |targets| - j] == Undiscovered(targets[j])
    ensures Trace(targets)[2 * |targets| - i] == Undiscovered(targets[i])
    ensures i < j < |targets| < 2 * |targets| - j < 2 * |targets| - i
  {
    TraceShape(targets);
  }

  /** Each distinct target is discovered once and undiscovered once. */
  lemma OnceEach(targets: seq<Target>, t: Target)
    requires Distinct(targets) && t in targets
    ensures Count(Trace(targets), Discovered(t)) == 1
    ensures Count(Trace(targets), Undiscovered(t)) == 1
  {
    TraceShape(targets);
    var k :| 0 <= k < |targets| && targets[k] == t;
    var tr := Trace(targets);
    DiscoveredOnlyAt(tr, targets, k);
    UndiscoveredOnlyAt(tr, targets, k);
    CountSingle(tr, Discovered(t), k);
    CountSingle(tr, Undiscovered(t), 2 * |targets| - k);
  }

  lemma DiscoveredOnlyAt(tr: seq<Event>, targets: seq<Target>, k: nat)
    requires Distinct(targets) && k < |targets|
    requires |tr| == 2 * |targets| + 1 && tr[|targets|] == ContextDone
    requires forall i :: 0 <= i < |targets| ==> tr[i] == Discovered(targets[i])
    requires forall i :: 0 <= i < |targets| ==> tr[2 * |targets| - i] == Undiscovered(targets[i])
    ensures forall j :: 0 <= j < |tr| && tr[j] == Discovered(targets[k]) ==> j == k
  {
    var n := |targets|;
    forall j | 0 <= j < |tr|
      ensures tr[j] == Discovered(targets[k]) ==> j == k
    {
      if j < n {
        assert tr[j] == Discovered(targets[j]);
      } else if j > n {
        assert tr[2 * n - (2 * n - j)] == Undiscovered(targets[2 * n - j]);
      }
    }
  }

  lemma UndiscoveredOnlyAt(tr: seq<Event>, targets: seq<Target>, k: nat)
    requires Distinct(targets) && k < |targets|
    requires |tr| == 2 * |targets| + 1 && tr[|targets|] == ContextDone
    requires forall i :: 0 <= i < |targets| ==> tr[i] == Discovered(targets[i])
    requires forall i :: 0 <= i < |targets| ==> tr[2 * |targets| - i] == Undiscovered(targets[i])
    ensures forall j :: 0 <= j < |tr| && tr[j] == Undiscovered(targets[k]) ==> j == 2 * |targets| - k
  {
    var n := |targets|;
    forall j | 0 <= j < |tr|
      ensures tr[j] == Undiscovered(targets[k]) ==> j == 2 * n - k
    {
      if j < n {
        assert tr[j] == Discovered(targets[j]);
      } else if j > n {
        assert tr[2 * n - (2 * n - j)] == Undiscovered(targets[2 * n - j]);
      }
    }
  }

  lemma {:induction false} CountSingle<T>(s: seq<T>, x: T, k: nat)
    requires k < |s| && s[k] == x
    requires forall j :: 0 <= j < |s| && s[j] == x ==> j == k
    ensures Count(s, x) == 1
  {
    if k == 0 {
      assert x !in s[1..] by {
        forall j | 0 <= j < |s[1..]|
          ensures s[1..][j] != x
        {
          assert s[1..][j] == s[j + 1];
        }
      }
    } else {
      assert s[0] != x;
      assert forall j :: 0 <= j < |s[1..]| && s[1..][j] == x ==> j == k - 1;
      CountSingle(s[1..], x, k - 1);
    }
  }
}
