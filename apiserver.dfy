/**
 * The availability server of the `api` package (api/server.go): a
 * copy-on-write map of the available applications keyed by identity key, a
 * broadcast channel closed on every effective change, and the `Watch` loop
 * that streams each watcher the difference between what it last saw and
 * what is available now.
 */
module ApiServer {
  import opened Base
  import opened Types
  import opened Broadcast

  /** A change of availability made by another goroutine while a watcher waits. */
  datatype Change = Change(app: Identity, available: bool)

  /**
   * What happens while a watcher waits in `select`: the changes other
   * goroutines make, then whether the stream's context is done. When the
   * captured channel is closed and the context is done, `wakeFirst` says
   * which case `select` picks.
   */
  datatype Pause = Pause(changes: seq<Change>, done: Option<Error>, wakeFirst: bool)

  /** How a watch ended: with an error, or still waiting when the pauses ran out. */
  datatype Outcome = Ended(err: Error) | Waiting

  class Server {
    /** `configkit.Identity.Validate`. */
    const validate: Identity -> Option<Error>
    /** `s.available`: the identity of each available application, by key. */
    var available: map<string, Identity>
    /** `s.changed`, with the channels made and closed so far. */
    var signal: Signal

    ghost predicate Valid()
      reads this
    {
      && WellFormed(signal)
      && (forall k :: k in available ==> available[k].key == k)
    }

    constructor (validate: Identity -> Option<Error>)
      ensures Valid()
      ensures this.validate == validate && available == map[] && signal == Quiet
    {
      this.validate := validate;
      available, signal := map[], Quiet;
    }

    /** `Available`: marks the application available. */
    method Available(app: Identity)
      requires validate(app).None? && Valid()
      modifies this
      ensures Valid()
      ensures app.key in old(available) ==> available == old(available) && signal == old(signal)
      ensures app.key !in old(available) ==> available == old(available)[app.key := app] && signal == Notify(old(signal))
    {
      Update(app, true);
    }

    /** `Unavailable`: marks the application unavailable. */
    method Unavailable(app: Identity)
      requires validate(app).None? && Valid()
      modifies this
      ensures Valid()
      ensures app.key !in old(available) ==> available == old(available) && signal == old(signal)
      ensures app.key in old(available) ==> available == old(available) - {app.key} && signal == Notify(old(signal))
    {
      Update(app, false);
    }

    /**
     * `update`: asking for the current state changes nothing; otherwise a
     * clone of the map with the application added (or removed) replaces it
     * and the watchers are notified. An invalid identity panics, so callers
     * must pass a valid one.
     */
    method Update(app: Identity, avail: bool)
      requires validate(app).None? && Valid()
      modifies this
      ensures Valid()
      ensures (app.key in old(available)) == avail ==> available == old(available) && signal == old(signal)
      ensures (app.key in old(available)) != avail ==>
        && signal == Notify(old(signal))
        && available == (if avail then old(available)[app.key := app] else old(available) - {app.key})
    {
      if (app.key in available) == avail {
        return;
      }
      var next: map<string, Identity> := map[];
      var pending := available.Keys;
      while pending != {}
        invariant pending <= available.Keys
        invariant forall k :: k in next <==> k in available && k !in pending
        invariant forall k :: k in next ==> next[k] == available[k]
        decreases pending
      {
        var k :| k in pending;
        next := next[k := available[k]];
        pending := pending - {k};
      }
      assert next.Keys == available.Keys;
      if avail {
        next := next[app.key := Identity(app.name, app.key)];
      } else {
        next := next - {app.key};
      }
      available := next;
      if signal.changed.Some? {
        signal := Notify(signal);
      }
    }

    /** `capture` as written: the map and `changed`, which is replaced only when it is not nil. */
    method Capture() returns (snapshot: map<string, Identity>, ch: Option<Chan>)
      requires Valid()
      modifies this
      ensures Valid()
      ensures available == old(available) && signal == CaptureAsWritten(old(signal))
      ensures snapshot == available && ch == signal.changed
    {
      if signal.changed.Some? {
        signal := Signal(Some(signal.made), signal.made + 1, signal.closed);
      }
      return available, signal.changed;
    }

    /** `capture` as evidently intended: a channel is made when `changed` is nil. */
    method CaptureIntended() returns (snapshot: map<string, Identity>, ch: Option<Chan>)
      requires Valid()
      modifies this
      ensures Valid()
      ensures available == old(available) && signal == Broadcast.CaptureIntended(old(signal))
      ensures snapshot == available && ch == signal.changed && ch.Some? && ch.value !in signal.closed
    {
      if signal.changed.None? {
        signal := Signal(Some(signal.made), signal.made + 1, signal.closed);
      }
      return available, signal.changed;
    }

    /** The changes other goroutines make while a watcher waits, one `update` each. */
    method ApplyChanges(changes: seq<Change>)
      requires Valid()
      requires forall c :: c in changes ==> validate(c.app).None?
      modifies this
      ensures Valid()
      ensures old(signal).closed <= signal.closed
      ensures old(signal).changed.Some? && old(signal).changed.value !in signal.closed ==>
        available == old(available) && signal == old(signal)
    {
      var i := 0;
      while i < |changes|
        invariant 0 <= i <= |changes|
        invariant Valid()
        invariant old(signal).closed <= signal.closed
        invariant old(signal).changed.Some? && old(signal).changed.value !in signal.closed ==>
          available == old(available) && signal == old(signal)
      {
        Update(changes[i].app, changes[i].available);
        i := i + 1;
      }
    }

    /**
     * `Watch`, with the intended `capture`: send the difference between the
     * previous and the current map, then wait for a change or for the
     * client to go away. A watcher left waiting has been told exactly the
     * keys that are available.
     */
    method Watch(stream: Stream<Identity>, pauses: seq<Pause>) returns (outcome: Outcome)
      requires Valid()
      requires forall p, c :: p in pauses && c in p.changes ==> validate(c.app).None?
      requires stream.sent == []
      modifies this, stream
      ensures Valid()
      ensures outcome.Waiting? ==> Replay({}, stream.sent) == available.Keys
      ensures outcome.Ended? ==>
        || (exists n :: n in stream.failures && outcome.err == stream.failures[n])
        || (exists j :: 0 <= j < |pauses| && pauses[j].done == Some(outcome.err))
    {
      var prev: map<string, Identity> := map[];
      var i := 0;
      while true
        invariant 0 <= i <= |pauses|
        invariant Valid()
        invariant Replay({}, stream.sent) == prev.Keys
        decreases |pauses| - i
      {
        var next, ch := CaptureIntended();
        ghost var sent0 := stream.sent;
        var err, added := Diff(stream, true, next, prev);
        if err.Some? {
          return Ended(err.value);
        }
        ghost var removed;
        err, removed := Diff(stream, false, prev, next);
        if err.Some? {
          return Ended(err.value);
        }
        assert stream.sent == sent0 + Batch(prev, next, added, removed);
        ReplayAppend({}, sent0, Batch(prev, next, added, removed));
        BatchReplay(prev, next, added, removed);
        ghost var i0 := i;
        var woken := false;
        while !woken
          invariant i0 <= i <= |pauses|
          invariant Valid()
          invariant Replay({}, stream.sent) == next.Keys
          invariant woken ==> i0 < i
          invariant !woken ==> available == next && signal.changed == ch && ch.Some? && ch.value !in signal.closed
          decreases |pauses| - i, !woken
        {
          if i == |pauses| {
            return Waiting;
          }
          ApplyChanges(pauses[i].changes);
          var closed := ch.value in signal.closed;
          var done := pauses[i].done;
          var wakeFirst := pauses[i].wakeFirst;
          i := i + 1;
          if closed && (done.None? || wakeFirst) {
            woken := true;
          } else if done.Some? {
            return Ended(done.value);
          }
        }
        prev := next;
      }
    }
  }
}
