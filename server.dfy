/**
 * The root package's availability server (server.go): the same design as
 * the `api` server, with the available applications kept as a set of
 * identity keys (`map[string]struct{}`) and responses carrying only the key.
 *
 * Its `update` rebuilds the clone with a loop whose condition is inverted:
 * as written, every effective change leaves exactly the changed key in the
 * map. `UpdatedAsWritten` and `Server.UpdateAsWritten` model that code, and
 * `Server.Available` and `Server.Unavailable` call it as the source does, as
 * do the changes other goroutines make while a watcher waits
 * (`Server.ApplyChanges`); `UpdatedIntended` and `Server.Update` model the
 * evident intent.
 */
module Discoverkit {
  import opened Base
  import opened Types
  import opened Broadcast
  import ApiServer

  /** The keys after an effective change, as the rebuild in `update` computes them. */
  function UpdatedAsWritten(prev: set<string>, key: string, available: bool): (r: set<string>)
    requires (key in prev) != available
    ensures r == {key}
  {
    (if available then {key} else {}) + (set k | k in prev && !available && k == key)
  }

  /** The keys after an effective change, copying every other key. */
  function UpdatedIntended(prev: set<string>, key: string, available: bool): (r: set<string>)
    ensures key in r <==> available
    ensures forall k :: k != key ==> (k in r <==> k in prev)
  {
    (if available then {key} else {}) + (set k | k in prev && k != key)
  }

  /** Making an application available, as written, forgets every other application. */
  lemma AvailableForgetsOthers()
    ensures UpdatedAsWritten({"a"}, "b", true) == {"b"}
    ensures UpdatedIntended({"a"}, "b", true) == {"a", "b"}
  {
    assert "a" != "b";
  }

  /** Making an application unavailable, as written, leaves it available. */
  lemma UnavailableKeepsApplication()
    ensures UpdatedAsWritten({"a"}, "a", false) == {"a"}
    ensures UpdatedIntended({"a"}, "a", false) == {}
  {
  }

  /** An update that is not a no-op, applied to a set of keys. */
  function Step(prev: set<string>, key: string, available: bool, asWritten: bool): (r: set<string>)
    ensures (key in prev) == available ==> r == prev
  {
    if (key in prev) == available then prev
    else if asWritten then UpdatedAsWritten(prev, key, available)
    else UpdatedIntended(prev, key, available)
  }

  /**
   * The "current state" scenario of the server's own tests: app1 and app2
   * become available, app1 unavailable, then app3 available. The tests
   * require app2 and app3; the code as written leaves only app3.
   */
  lemma CurrentStateScenario()
    ensures Step(Step(Step(Step({}, "app1", true, true), "app2", true, true), "app1", false, true), "app3", true, true) == {"app3"}
    ensures Step(Step(Step(Step({}, "app1", true, false), "app2", true, false), "app1", false, false), "app3", true, false) == {"app2", "app3"}
  {
    assert "app1" != "app2" && "app1" != "app3" && "app2" != "app3";
    assert Step({}, "app1", true, true) == {"app1"};
    assert Step({"app1"}, "app2", true, true) == {"app2"};
    assert Step({"app2"}, "app1", false, true) == {"app2"};
    assert Step({}, "app1", true, false) == {"app1"};
    assert Step({"app1"}, "app2", true, false) == {"app1", "app2"};
    assert Step({"app1", "app2"}, "app1", false, false) == {"app2"};
  }

  /** The intended update is undone by the opposite update. */
  lemma {:induction false} UpdateUndone(prev: set<string>, key: string, available: bool)
    requires (key in prev) != available
    ensures Step(Step(prev, key, available, false), key, !available, false) == prev
  {
    var mid := Step(prev, key, available, false);
    assert (key in mid) == available;
    var back := Step(mid, key, !available, false);
    assert forall k :: k in back <==> k in prev;
  }

  class Server {
    /** `configkit.Identity.Validate`. */
    const validate: Identity -> Option<Error>
    /** `s.available`: the keys of the available applications. */
    var available: map<string, ()>
    /** `s.changed`, with the channels made and closed so far. */
    var signal: Signal

    ghost predicate Valid()
      reads this
    {
      WellFormed(signal)
    }

    constructor (validate: Identity -> Option<Error>)
      ensures Valid()
      ensures this.validate == validate && available == map[] && signal == Quiet
    {
      this.validate := validate;
      available, signal := map[], Quiet;
    }

    /**
     * `Available`: marks the application available through `update` as
     * written, which leaves it the only available application.
     */
    method Available(app: Identity)
      requires validate(app).None? && Valid()
      modifies this
      ensures Valid()
      ensures app.key in old(available) ==> available == old(available) && signal == old(signal)
      ensures app.key !in old(available) ==>
        && available.Keys == UpdatedAsWritten(old(available).Keys, app.key, true)
        && available.Keys == {app.key}
        && signal == Notify(old(signal))
    {
      UpdateAsWritten(app, true);
    }

    /**
     * `Unavailable`: marks the application unavailable through `update` as
     * written, which leaves exactly that application available.
     */
    method Unavailable(app: Identity)
      requires validate(app).None? && Valid()
      modifies this
      ensures Valid()
      ensures app.key !in old(available) ==> available == old(available) && signal == old(signal)
      ensures app.key in old(available) ==>
        && available.Keys == UpdatedAsWritten(old(available).Keys, app.key, false)
        && available.Keys == {app.key}
        && signal == Notify(old(signal))
    {
      UpdateAsWritten(app, false);
    }

    /** `update` as written: the copy loop keeps only the changed key, and only when removing it. */
    method UpdateAsWritten(app: Identity, avail: bool)
      requires validate(app).None? && Valid()
      modifies this
      ensures Valid()
      ensures (app.key in old(available)) == avail ==> available == old(available) && signal == old(signal)
      ensures (app.key in old(available)) != avail ==>
        && available.Keys == UpdatedAsWritten(old(available).Keys, app.key, avail)
        && signal == Notify(old(signal))
    {
      if (app.key in available) == avail {
        return;
      }
      var next: map<string, ()> := map[];
      if avail {
        next := next[app.key := ()];
      }
      var pending := available.Keys;
      while pending != {}
        invariant pending <= available.Keys
        invariant forall k :: k in next <==> (avail && k == app.key) || (k in available && k !in pending && !avail && k == app.key)
        decreases pending
      {
        var k :| k in pending;
        if !avail && k == app.key {
          next := next[k := ()];
        }
        pending := pending - {k};
      }
      assert next.Keys == UpdatedAsWritten(available.Keys, app.key, avail);
      available := next;
      if signal.changed.Some? {
        signal := Notify(signal);
      }
    }

    /** `update` as evidently intended: the copy loop skips only the removed key. */
    method Update(app: Identity, avail: bool)
      requires validate(app).None? && Valid()
      modifies this
      ensures Valid()
      ensures (app.key in old(available)) == avail ==> available == old(available) && signal == old(signal)
      ensures (app.key in old(available)) != avail ==>
        && available.Keys == UpdatedIntended(old(available).Keys, app.key, avail)
        && signal == Notify(old(signal))
    {
      if (app.key in available) == avail {
        return;
      }
      var next: map<string, ()> := map[];
      if avail {
        next := next[app.key := ()];
      }
      var pending := available.Keys;
      while pending != {}
        invariant pending <= available.Keys
        invariant forall k :: k in next <==> (avail && k == app.key) || (k in available && k !in pending && k != app.key)
        decreases pending
      {
        var k :| k in pending;
        if k != app.key {
          next := next[k := ()];
        }
        pending := pending - {k};
      }
      assert next.Keys == UpdatedIntended(available.Keys, app.key, avail);
      available := next;
      if signal.changed.Some? {
        signal := Notify(signal);
      }
    }

    /** `snapshot` as written: `changed` is replaced only when it is not nil. */
    method SnapshotAsWritten() returns (snapshot: map<string, ()>, ch: Option<Chan>)
      requires Valid()
      modifies this
      ensures Valid()
      ensures available == old(available) && signal == CaptureAsWritten(old(signal))
      ensures snapshot == available && ch == signal.changed
    {
      if signal.changed.Some? {
        signal := Signal(Some(signal.made), signal.made + 1, signal.closed);
      }
      return available, signal.changed;
    }

    /** `snapshot` as evidently intended: a channel is made when `changed` is nil. */
    method Snapshot() returns (snapshot: map<string, ()>, ch: Option<Chan>)
      requires Valid()
      modifies this
      ensures Valid()
      ensures available == old(available) && signal == Broadcast.CaptureIntended(old(signal))
      ensures snapshot == available && ch == signal.changed && ch.Some? && ch.value !in signal.closed
    {
      if signal.changed.None? {
        signal := Signal(Some(signal.made), signal.made + 1, signal.closed);
      }
      return available, signal.changed;
    }

    /** The changes other goroutines make while a watcher waits, one `update` (as written) each. */
    method ApplyChanges(changes: seq<ApiServer.Change>)
      requires Valid()
      requires forall c :: c in changes ==> validate(c.app).None?
      modifies this
      ensures Valid()
      ensures old(signal).closed <= signal.closed
      ensures old(signal).changed.Some? && old(signal).changed.value !in signal.closed ==>
        available == old(available) && signal == old(signal)
    {
      var i := 0;
      while i < |changes|
        invariant 0 <= i <= |changes|
        invariant Valid()
        invariant old(signal).closed <= signal.closed
        invariant old(signal).changed.Some? && old(signal).changed.value !in signal.closed ==>
          available == old(available) && signal == old(signal)
      {
        UpdateAsWritten(changes[i].app, changes[i].available);
        i := i + 1;
      }
    }

    /**
     * `WatchApplications`, with the intended `snapshot`: a
     * watcher left waiting has been told exactly the available keys; one
     * that ended returns a send error or the context's error.
     */
    method WatchApplications(stream: Stream<()>, pauses: seq<ApiServer.Pause>) returns (outcome: ApiServer.Outcome)
      requires Valid()
      requires forall p, c :: p in pauses && c in p.changes ==> validate(c.app).None?
      requires stream.sent == []
      modifies this, stream
      ensures Valid()
      ensures outcome.Waiting? ==> Replay({}, stream.sent) == available.Keys
      ensures outcome.Ended? ==>
        || (exists n :: n in stream.failures && outcome.err == stream.failures[n])
        || (exists j :: 0 <= j < |pauses| && pauses[j].done == Some(outcome.err))
    {
      var prev: map<string, ()> := map[];
      var i := 0;
      while true
        invariant 0 <= i <= |pauses|
        invariant Valid()
        invariant Replay({}, stream.sent) == prev.Keys
        decreases |pauses| - i
      {
        var next, ch := Snapshot();
        ghost var sent0 := stream.sent;
        var err, added := Diff(stream, true, next, prev);
        if err.Some? {
          return ApiServer.Ended(err.value);
        }
        ghost var removed;
        err, removed := Diff(stream, false, prev, next);
        if err.Some? {
          return ApiServer.Ended(err.value);
        }
        assert stream.sent == sent0 + Batch(prev, next, added, removed);
        ReplayAppend({}, sent0, Batch(prev, next, added, removed));
        BatchReplay(prev, next, added, removed);
        ghost var i0 := i;
        var woken := false;
        while !woken
          invariant i0 <= i <= |pauses|
          invariant Valid()
          invariant Replay({}, stream.sent) == next.Keys
          invariant woken ==> i0 < i
          invariant !woken ==> available == next && signal.changed == ch && ch.Some? && ch.value !in signal.closed
          decreases |pauses| - i, !woken
        {
          if i == |pauses| {
            return ApiServer.Waiting;
          }
          ApplyChanges(pauses[i].changes);
          var closed := ch.value in signal.closed;
          var done := pauses[i].done;
          var wakeFirst := pauses[i].wakeFirst;
          i := i + 1;
          if closed && (done.None? || wakeFirst) {
            woken := true;
          } else if done.Some? {
            return ApiServer.Ended(done.value);
          }
        }
        prev := next;
      }
    }
  }
}
