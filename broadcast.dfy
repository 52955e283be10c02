/**
 * What the two availability servers (api/server.go and server.go) share: the
 * `changed` broadcast channel that wakes watchers, the watcher's response
 * stream, `diff`, and the client's view of a stream of responses.
 */
module Broadcast {
  import opened Base
  import opened Types

  /** A channel made by `make(chan struct{})`, numbered in the order they were made. */
  type Chan = nat

  /**
   * The state of the `changed` field: the current channel, if any (`None` is
   * a nil channel, on which a receive blocks forever), how many channels
   * were made, and which of them are closed.
   */
  datatype Signal = Signal(changed: Option<Chan>, made: nat, closed: set<Chan>)

  /** The zero value of a server: `changed` is nil. */
  const Quiet := Signal(None, 0, {})

  /** The current channel was made and is still open. */
  predicate WellFormed(s: Signal)
  {
    && (s.changed.Some? ==> s.changed.value < s.made && s.changed.value !in s.closed)
    && (forall c :: c in s.closed ==> c < s.made)
  }

  /** An effective update notifies watchers: the current channel, if any, is closed and forgotten. */
  function Notify(s: Signal): (r: Signal)
    ensures r.changed.None? && r.made == s.made
    ensures forall c :: c in r.closed <==> c in s.closed || Some(c) == s.changed
    ensures WellFormed(s) ==> WellFormed(r)
  {
    if s.changed.Some? then Signal(None, s.made, s.closed + {s.changed.value}) else s
  }

  /**
   * `capture` / `snapshot` as written: a new channel is made only when there
   * already is one, and the channel it replaces is dropped without being closed.
   */
  function CaptureAsWritten(s: Signal): (r: Signal)
    ensures s.changed.None? ==> r == s
    ensures s.changed.Some? ==> r.changed == Some(s.made) && r.made == s.made + 1 && r.closed == s.closed
    ensures WellFormed(s) && s.changed.Some? ==> r.changed != s.changed && s.changed.value !in r.closed
    ensures WellFormed(s) ==> WellFormed(r)
  {
    if s.changed.Some? then Signal(Some(s.made), s.made + 1, s.closed) else s
  }

  /** `capture` / `snapshot` as evidently intended: a channel is made when there is none. */
  function CaptureIntended(s: Signal): (r: Signal)
    ensures r.changed.Some? && r.closed == s.closed
    ensures s.changed.Some? ==> r == s
    ensures WellFormed(s) ==> WellFormed(r)
  {
    if s.changed.None? then Signal(Some(s.made), s.made + 1, s.closed) else s
  }

  /** What happens to the signal: a watcher captures, or an effective update is made. */
  datatype Op = Captured | Updated

  /** The signal after `ops`, with `capture` as written or as intended. */
  function Replayed(s: Signal, ops: seq<Op>, intended: bool): Signal
    decreases |ops|
  {
    if ops == [] then s
    else
      var s' := match ops[0]
        case Captured => if intended then CaptureIntended(s) else CaptureAsWritten(s)
        case Updated => Notify(s);
      Replayed(s', ops[1..], intended)
  }

  /**
   * As written, a server that starts with a nil `changed` keeps it nil
   * forever: every watcher waits on a nil channel and no channel is ever
   * closed, however many updates are made.
   */
  lemma {:induction false} AsWrittenNeverWakes(ops: seq<Op>)
    ensures Replayed(Quiet, ops, false) == Quiet
    decreases |ops|
  {
    if ops != [] {
      AsWrittenNeverWakes(ops[1..]);
    }
  }

  /** A two-step instance: a watcher captures, then an application becomes available; nothing is closed. */
  lemma ExistingWatcherMissesUpdate()
    ensures CaptureAsWritten(Quiet).changed == None
    ensures Replayed(Quiet, [Captured, Updated], false).closed == {}
  {
    AsWrittenNeverWakes([Captured, Updated]);
  }

  /**
   * With the intended `capture`, the channel a watcher captured is closed
   * exactly when an effective update has been made since.
   */
  lemma {:induction false} IntendedWakes(s: Signal, ops: seq<Op>)
    requires WellFormed(s) && s.changed.Some?
    ensures s.changed.value in Replayed(s, ops, true).closed <==> Updated in ops
    ensures WellFormed(Replayed(s, ops, true))
    ensures Updated !in ops ==> Replayed(s, ops, true).changed == s.changed
    decreases |ops|
  {
    if ops != [] {
      var c := s.changed.value;
      if ops[0] == Captured {
        IntendedWakes(s, ops[1..]);
        assert ops[0] !in [Updated];
      } else {
        ClosedStaysClosed(Notify(s), ops[1..], c);
      }
    }
  }

  /** Closed channels are never reopened. */
  lemma {:induction false} ClosedStaysClosed(s: Signal, ops: seq<Op>, c: Chan)
    requires WellFormed(s) && c in s.closed
    ensures c in Replayed(s, ops, true).closed && WellFormed(Replayed(s, ops, true))
    decreases |ops|
  {
    if ops != [] {
      var s' := if ops[0] == Captured then CaptureIntended(s) else Notify(s);
      ClosedStaysClosed(s', ops[1..], c);
    }
  }

  /**
   * A watch response: the application key, what the server holds for it
   * (the identity in api/server.go, nothing in server.go) and the flag.
   */
  datatype Response<V> = Response(key: string, value: V, available: bool)

  /** The watcher's gRPC stream: what it has sent, and which `Send` calls fail. */
  class Stream<V> {
    /** The responses delivered so far. */
    var sent: seq<Response<V>>
    /** The number of `Send` calls so far. */
    var calls: nat
    /** The error returned by each failing `Send` call, by call number. */
    const failures: map<nat, Error>

    constructor (failures: map<nat, Error>)
      ensures sent == [] && calls == 0 && this.failures == failures
    {
      sent, calls := [], 0;
      this.failures := failures;
    }

    /** `stream.Send(res)`: delivers the response unless this call fails. */
    method Send(r: Response<V>) returns (err: Option<Error>)
      modifies this
      ensures calls == old(calls) + 1
      ensures old(calls) in failures ==> err == Some(failures[old(calls)]) && sent == old(sent)
      ensures old(calls) !in failures ==> err.None? && sent == old(sent) + [r]
    {
      if calls in failures {
        err := Some(failures[calls]);
      } else {
        err := None;
        sent := sent + [r];
      }
      calls := calls + 1;
    }
  }

  /** The responses for the keys `order` of `m`, in that order, all with the flag. */
  function Responses<V>(order: seq<string>, m: map<string, V>, available: bool): (r: seq<Response<V>>)
    requires forall k :: k in order ==> k in m
    ensures |r| == |order|
  {
    if order == [] then []
    else Responses(order[..|order| - 1], m, available) + [Response(order[|order| - 1], m[order[|order| - 1]], available)]
  }

  /** The `i`th response is for the `i`th key. */
  lemma {:induction false} ResponsesAt<V>(order: seq<string>, m: map<string, V>, available: bool)
    requires forall k :: k in order ==> k in m
    ensures forall i :: 0 <= i < |order| ==> Responses(order, m, available)[i] == Response(order[i], m[order[i]], available)
    decreases |order|
  {
    if order != [] {
      ResponsesAt(order[..|order| - 1], m, available);
    }
  }

  /** `order` lists the keys of `lhs` missing from `rhs`, each once. */
  ghost predicate Enumerates<V>(order: seq<string>, lhs: map<string, V>, rhs: map<string, V>)
  {
    && Distinct(order)
    && (forall k :: k in order <==> k in lhs && k !in rhs)
  }

  /**
   * `diff`: one response, with the given flag, for each key of `lhs` that
   * `rhs` lacks, in map order; the first failing `Send` ends it.
   */
  method Diff<V>(stream: Stream<V>, available: bool, lhs: map<string, V>, rhs: map<string, V>)
      returns (err: Option<Error>, ghost order: seq<string>)
    modifies stream
    ensures Distinct(order) && (forall k :: k in order ==> k in lhs && k !in rhs)
    ensures stream.sent == old(stream.sent) + Responses(order, lhs, available)
    ensures err.None? ==> Enumerates(order, lhs, rhs) && stream.calls == old(stream.calls) + |order|
    ensures err.Some? ==> (stream.calls == old(stream.calls) + |order| + 1 &&
      old(stream.calls) + |order| in stream.failures && err == Some(stream.failures[old(stream.calls) + |order|]))
  {
    order := [];
    var pending := lhs.Keys;
    while pending != {}
      invariant pending <= lhs.Keys
      invariant Distinct(order) && (forall k :: k in order ==> k in lhs && k !in rhs && k !in pending)
      invariant forall k :: k in lhs && k !in rhs ==> k in pending || k in order
      invariant stream.calls == old(stream.calls) + |order|
      invariant stream.sent == old(stream.sent) + Responses(order, lhs, available)
      decreases pending
    {
      var k :| k in pending;
      pending := pending - {k};
      if k in rhs {
        continue;
      }
      err := stream.Send(Response(k, lhs[k], available));
      if err.Some? {
        return;
      }
      assert (order + [k])[..|order|] == order;
      assert Responses(order + [k], lhs, available) == Responses(order, lhs, available) + [Response(k, lhs[k], available)];
      DistinctSnoc(order, k);
      order := order + [k];
    }
    return None, order;
  }

  /** The client's view after applying responses: available adds the key, unavailable deletes it. */
  function Replay<V>(view: set<string>, rs: seq<Response<V>>): set<string>
    decreases |rs|
  {
    if rs == [] then view
    else Replay(if rs[0].available then view + {rs[0].key} else view - {rs[0].key}, rs[1..])
  }

  lemma {:induction false} ReplayAppend<V>(view: set<string>, a: seq<Response<V>>, b: seq<Response<V>>)
    ensures Replay(view, a + b) == Replay(Replay(view, a), b)
    decreases |a|
  {
    if a == [] {
      assert a + b == b;
    } else {
      assert (a + b)[1..] == a[1..] + b;
      ReplayAppend(if a[0].available then view + {a[0].key} else view - {a[0].key}, a[1..], b);
    }
  }

  /** Replaying one flag's responses adds, or removes, exactly their keys. */
  lemma {:induction false} ReplayResponses<V>(view: set<string>, order: seq<string>, m: map<string, V>, available: bool)
    requires forall k :: k in order ==> k in m
    ensures available ==> Replay(view, Responses(order, m, available)) == view + (set k | k in order)
    ensures !available ==> Replay(view, Responses(order, m, available)) == view - (set k | k in order)
    decreases |order|
  {
    if order != [] {
      var n := |order| - 1;
      ReplayResponses(view, order[..n], m, available);
      ReplayAppend(view, Responses(order[..n], m, available), [Response(order[n], m[order[n]], available)]);
      assert (set k | k in order) == (set k | k in order[..n]) + {order[n]} by {
        assert order == order[..n] + [order[n]];
      }
    }
  }

  /** The responses of one round of the watch loop: `diff(next, prev)` then `diff(prev, next)`. */
  function Batch<V>(prev: map<string, V>, next: map<string, V>, added: seq<string>, removed: seq<string>): (r: seq<Response<V>>)
    requires forall k :: k in added ==> k in next
    requires forall k :: k in removed ==> k in prev
    ensures |r| == |added| + |removed|
  {
    Responses(added, next, true) + Responses(removed, prev, false)
  }

  /**
   * A complete batch (`diff(next, prev)` then `diff(prev, next)`) brings a
   * client that holds the keys of `prev` to exactly the keys of `next`.
   */
  lemma BatchReplay<V>(prev: map<string, V>, next: map<string, V>, added: seq<string>, removed: seq<string>)
    requires Enumerates(added, next, prev) && Enumerates(removed, prev, next)
    ensures Replay(prev.Keys, Batch(prev, next, added, removed)) == next.Keys
  {
    ReplayAppend(prev.Keys, Responses(added, next, true), Responses(removed, prev, false));
    ReplayResponses(prev.Keys, added, next, true);
    ReplayResponses(prev.Keys + (set k | k in added), removed, prev, false);
  }

  /** Within one batch no key is announced both available and unavailable. */
  lemma BatchKeysDisjoint<V>(prev: map<string, V>, next: map<string, V>, added: seq<string>, removed: seq<string>)
    requires Enumerates(added, next, prev) && Enumerates(removed, prev, next)
    ensures forall i, j :: 0 <= i < |added| && 0 <= j < |removed| ==> added[i] != removed[j]
    ensures forall i, j ::
      (0 <= i < |added| + |removed| && 0 <= j < |added| + |removed| &&
       Batch(prev, next, added, removed)[i].key == Batch(prev, next, added, removed)[j].key) ==>
      Batch(prev, next, added, removed)[i].available == Batch(prev, next, added, removed)[j].available
  {
    var batch := Batch(prev, next, added, removed);
    ResponsesAt(added, next, true);
    ResponsesAt(removed, prev, false);
    forall i | 0 <= i < |batch| ensures batch[i].available <==> batch[i].key !in prev {
      if i < |added| {
        assert batch[i].key == added[i];
      } else {
        assert batch[i].key == removed[i - |added|];
      }
    }
  }

  /** A new watcher's first batch (against a nil `prev`) announces every available key, all as available. */
  lemma FirstBatchAnnouncesAll<V>(next: map<string, V>, added: seq<string>, removed: seq<string>)
    requires Enumerates(added, next, map[]) && Enumerates(removed, map[], next)
    ensures removed == []
    ensures (set k | k in added) == next.Keys
    ensures forall r :: r in Batch(map[], next, added, removed) ==> r.available && r.key in next
  {
    NoMembersEmpty(removed);
    ResponsesAt(added, next, true);
    assert Batch(map[], next, added, removed) == Responses(added, next, true);
  }
}
