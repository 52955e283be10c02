/**
 * Application discovery over one connection (application.go): the per-message
 * state machine that keeps one cancelable observer per available application,
 * the classification of an application observer's result, and the retry
 * ladder around each watch attempt.
 */
module Applications {
  import opened Base
  import opened Types

  // ---------------------------------------------------------------------------
  // applicationDiscovered and ApplicationObserverError

  /**
   * `applicationDiscovered(ctx, d, o, a)`: `observed` is what
   * `o.ApplicationDiscovered(ctx, a)` returned, `ctxErr` is `ctx.Err()` then.
   */
  function ApplicationDiscovered(ctxErr: Option<Error>, d: Ref, o: Ref, a: Application, observed: Option<Error>): (r: Option<Error>)
    ensures r.None? <==> observed.None? || (observed == Some(Canceled) && ctxErr == Some(Canceled))
    ensures r.Some? ==> r.value.ApplicationObserverError? && Unwrap(r.value) == observed
    ensures r.Some? ==> r.value.discoverer == d && r.value.observer == o && r.value.application == a
  {
    if observed.None? then None
    else if observed.value == Canceled && ctxErr == Some(Canceled) then None
    else Some(ApplicationObserverError(d, o, a, observed.value))
  }

  /**
   * `Error()` renders "failure observing '<name>/<key>' application: <cause>";
   * the identity and the cause's message can be read back from it, and
   * `Unwrap()` returns the cause, so `errors.Is(err, cause)` holds.
   */
  lemma ErrorNamesApplicationAndCause(d: Ref, o: Ref, a: Application, cause: Error)
    requires '\'' !in a.identity.name && '\'' !in a.identity.key
    ensures ParseFailureText(Message(ApplicationObserverError(d, o, a, cause)))
         == Some((a.identity.name + "/" + a.identity.key, "application", Message(cause)))
    ensures Unwrap(ApplicationObserverError(d, o, a, cause)) == Some(cause) && Is(ApplicationObserverError(d, o, a, cause), cause)
  {
    var subject := IdentityText(a.identity);
    assert '\'' !in subject by {
      assert subject == a.identity.name + "/" + a.identity.key;
    }
    var m := Message(ApplicationObserverError(d, o, a, cause));
    assert m == FailureText(subject, "application", Message(cause));
    KindsHaveNoColon();
    FailureTextRoundTrip(subject, "application", Message(cause));
  }

  // ---------------------------------------------------------------------------
  // recv: the message state machine over `known`

  /** One result of `stream.Recv()`. */
  datatype Received =
    | Response(name: string, key: string, available: bool)
    | Failure(err: Error)

  /** A cancel function, numbered in the order the contexts were created. */
  type Handle = nat

  /** What one `recv` call does besides updating `known`. */
  datatype Event =
    | Logged(conn: Connection, err: Error)       // d.LogError(c, err)
    | Cancelled(handle: Handle)                  // cancel() of an application context
    | Launched(handle: Handle, app: Application) // g.Go(applicationDiscovered(appCtx, ..., app))

  /** Whether `recv` is still reading or has returned, and with what. */
  datatype Exit = Reading | Returned(err: Option<Error>)

  /**
   * The fixed inputs of one `recv` call: the connection, the identity
   * validation of `configkit.NewIdentity` (None when the name and key are
   * valid) and whether `LogError` is set.
   */
  datatype Session = Session(conn: Connection, validate: (string, string) -> Option<Error>, logging: bool)

  /** The state of one `recv` call. */
  datatype Reader = Reader(known: map<Identity, Handle>, next: Handle, events: seq<Event>, exit: Exit)

  const Start: Reader := Reader(map[], 0, [], Reading)

  const StreamReadFailure: string := "unable to read from stream"
  const InvalidIdentity: string := "invalid application identity"

  /**
   * What `recv` returns for a receive error: nil when the server does not
   * implement the API, the error wrapped otherwise.
   */
  function ReceiveError(e: Error): (r: Option<Error>)
    ensures r.None? <==> e.Status? && e.code == Unimplemented
    ensures r.Some? ==> Unwrap(r.value) == Some(e) && Message(r.value) == "unable to read from stream: " + Message(e)
  {
    if e.Status? && e.code == Unimplemented then None else Some(Wrapped(StreamReadFailure, e))
  }

  /** One iteration of the `recv` loop. */
  function Step(s: Session, r: Reader, m: Received): Reader
    requires r.exit == Reading
  {
    match m
    case Failure(e) => r.(exit := Returned(ReceiveError(e)))
    case Response(name, key, available) =>
      match s.validate(name, key)
      case Some(e) =>
        if s.logging then r.(events := r.events + [Logged(s.conn, Wrapped(InvalidIdentity, e))]) else r
      case None =>
        var id := Identity(name, key);
        if available == (id in r.known) then r
        else if !available then r.(known := r.known - {id}, events := r.events + [Cancelled(r.known[id])])
        else r.(known := r.known[id := r.next], next := r.next + 1,
                events := r.events + [Launched(r.next, Application(id, s.conn))])
  }

  /** `recv` fed the messages `msgs`, from state `r`, until it returns. */
  function Run(s: Session, r: Reader, msgs: seq<Received>): Reader
    decreases |msgs|
  {
    if msgs == [] || r.exit != Reading then r else Run(s, Step(s, r, msgs[0]), msgs[1..])
  }

  /**
   * `recv`: reads the stream until a receive error. A stream that runs out of
   * messages leaves it `Reading`, blocked in `stream.Recv()`.
   */
  method Recv(s: Session, stream: seq<Received>) returns (exit: Exit, known: map<Identity, Handle>, events: seq<Event>)
    ensures exit == Run(s, Start, stream).exit
    ensures known == Run(s, Start, stream).known
    ensures events == Run(s, Start, stream).events
  {
    known, events := map[], [];
    var next: Handle := 0;
    var i := 0;
    while i < |stream|
      invariant 0 <= i <= |stream|
      invariant Run(s, Start, stream) == Run(s, Reader(known, next, events, Reading), stream[i..])
    {
      assert stream[i..][1..] == stream[i + 1..];
      match stream[i]
      case Failure(e) =>
        if e.Status? && e.code == Unimplemented {
          return Returned(None), known, events;
        }
        return Returned(Some(Wrapped(StreamReadFailure, e))), known, events;
      case Response(name, key, available) =>
        var invalid := s.validate(name, key);
        if invalid.Some? {
          if s.logging {
            events := events + [Logged(s.conn, Wrapped(InvalidIdentity, invalid.value))];
          }
        } else {
          var id := Identity(name, key);
          var isKnown := id in known;
          if available == isKnown {
            // a re-announcement: nothing changes
          } else if !available {
            events := events + [Cancelled(known[id])];
            known := known - {id};
          } else {
            known := known[id := next];
            events := events + [Launched(next, Application(id, s.conn))];
            next := next + 1;
          }
        }
      i := i + 1;
    }
    exit := Reading;
  }

  // Single-message properties.

  /**
   * A response whose identity fails validation changes nothing but the log:
   * it is logged, prefixed "invalid application identity: ", when `LogError` is set.
   */
  lemma InvalidIdentityIsDropped(s: Session, r: Reader, name: string, key: string, available: bool)
    requires r.exit == Reading && s.validate(name, key).Some?
    ensures var r' := Step(s, r, Response(name, key, available));
      && r'.known == r.known && r'.next == r.next && r'.exit == Reading
      && r'.events == r.events + (if s.logging then [Logged(s.conn, Wrapped(InvalidIdentity, s.validate(name, key).value))] else [])
      && Message(Wrapped(InvalidIdentity, s.validate(name, key).value))
         == "invalid application identity: " + Message(s.validate(name, key).value)
  {
  }

  /** A response that repeats the identity's current availability is a no-op. */
  lemma ReannouncementIsNoOp(s: Session, r: Reader, name: string, key: string, available: bool)
    requires r.exit == Reading && s.validate(name, key).None?
    requires available == (Identity(name, key) in r.known)
    ensures Step(s, r, Response(name, key, available)) == r
  {
  }

  /** "Unavailable" for a known identity cancels exactly its handle and forgets it. */
  lemma UnavailableCancelsItsHandle(s: Session, r: Reader, name: string, key: string)
    requires r.exit == Reading && s.validate(name, key).None?
    requires Identity(name, key) in r.known
    ensures var r' := Step(s, r, Response(name, key, false));
      && r'.known == r.known - {Identity(name, key)}
      && r'.events == r.events + [Cancelled(r.known[Identity(name, key)])]
      && r'.exit == Reading
  {
  }

  /**
   * "Available" for an unknown identity records a handle no identity holds
   * yet and launches exactly one observer for `Application{id, c}`.
   */
  lemma AvailableLaunchesOneObserver(s: Session, r: Reader, name: string, key: string)
    requires r.exit == Reading && s.validate(name, key).None?
    requires Identity(name, key) !in r.known
    requires Coherent(s, r)
    ensures var r' := Step(s, r, Response(name, key, true));
      && r'.known == r.known[Identity(name, key) := r.next]
      && r.next !in r.known.Values
      && r'.events == r.events + [Launched(r.next, Application(Identity(name, key), s.conn))]
      && r'.exit == Reading
  {
  }

  /** Receive errors: Unimplemented ends `recv` with nil, anything else is wrapped. */
  lemma ReceiveErrorEndsReading(s: Session, r: Reader, e: Error)
    requires r.exit == Reading
    ensures var r' := Step(s, r, Failure(e));
      && r'.known == r.known && r'.next == r.next && r'.events == r.events
      && r'.exit == Returned(if e.Status? && e.code == Unimplemented then None
                              else Some(Wrapped("unable to read from stream", e)))
  {
  }

  // Whole-stream properties.

  /** The handles whose observer has been launched and not cancelled. */
  ghost function Live(events: seq<Event>): set<Handle>
  {
    set e | e in events && e.Launched? && Cancelled(e.handle) !in events :: e.handle
  }

  /** The handles of every observer launched so far. */
  ghost function LaunchedHandles(events: seq<Event>): set<Handle>
  {
    set e | e in events && e.Launched? :: e.handle
  }

  /** No two events of the same kind in `events` name the same handle. */
  ghost predicate HandlesDistinct(events: seq<Event>)
  {
    && (forall i, j :: 0 <= i < j < |events| && events[i].Cancelled? && events[j].Cancelled? ==>
          events[i].handle != events[j].handle)
    && (forall i, j :: 0 <= i < j < |events| && events[i].Launched? && events[j].Launched? ==>
          events[i].handle != events[j].handle)
  }

  /** Every handle handed out so far is below `next`. */
  ghost predicate Bounded(known: map<Identity, Handle>, next: Handle, events: seq<Event>)
  {
    && (forall id :: id in known ==> known[id] < next)
    && (forall e :: e in events && (e.Launched? || e.Cancelled?) ==> e.handle < next)
  }

  /** Each known identity has a launched, uncancelled observer on the connection. */
  ghost predicate KnownLive(conn: Connection, known: map<Identity, Handle>, events: seq<Event>)
  {
    forall id :: id in known ==>
      Launched(known[id], Application(id, conn)) in events && Cancelled(known[id]) !in events
  }

  /** Each launched, uncancelled observer belongs to a known identity holding its handle. */
  ghost predicate LiveKnown(known: map<Identity, Handle>, events: seq<Event>)
  {
    forall e :: e in events && e.Launched? && Cancelled(e.handle) !in events ==>
      e.app.identity in known && known[e.app.identity] == e.handle
  }

  /** Only launched handles are cancelled. */
  ghost predicate CancelsLaunched(events: seq<Event>)
  {
    forall e :: e in events && e.Cancelled? ==> e.handle in LaunchedHandles(events)
  }

  /** The bookkeeping invariant that every step of `recv` keeps. */
  ghost predicate Coherent(s: Session, r: Reader)
  {
    && Bounded(r.known, r.next, r.events)
    && KnownLive(s.conn, r.known, r.events)
    && LiveKnown(r.known, r.events)
    && CancelsLaunched(r.events)
    && HandlesDistinct(r.events)
  }

  lemma StartCoherent(s: Session)
    ensures Coherent(s, Start)
  {
  }

  /** Two known identities hold different handles. */
  lemma KnownInjective(conn: Connection, known: map<Identity, Handle>, events: seq<Event>, x: Identity, y: Identity)
    requires KnownLive(conn, known, events) && HandlesDistinct(events)
    requires x in known && y in known && x != y
    ensures known[x] != known[y]
  {
    var ex, ey := Launched(known[x], Application(x, conn)), Launched(known[y], Application(y, conn));
    var i :| 0 <= i < |events| && events[i] == ex;
    var j :| 0 <= j < |events| && events[j] == ey;
    assert i != j;
  }

  lemma CancelCoherent(s: Session, r: Reader, id: Identity)
    requires r.exit == Reading && Coherent(s, r) && id in r.known
    ensures Coherent(s, r.(known := r.known - {id}, events := r.events + [Cancelled(r.known[id])]))
  {
    var k, ev := r.known, r.events;
    CancelKnownLive(s.conn, k, ev, id);
    CancelLiveKnown(k, ev, id);
    CancelCancelsLaunched(s.conn, k, ev, id);
    CancelDistinct(s.conn, k, ev, id);
  }

  lemma CancelKnownLive(conn: Connection, k: map<Identity, Handle>, ev: seq<Event>, id: Identity)
    requires KnownLive(conn, k, ev) && HandlesDistinct(ev) && id in k
    ensures KnownLive(conn, k - {id}, ev + [Cancelled(k[id])])
  {
    forall x | x in k - {id}
      ensures k[x] != k[id]
    {
      KnownInjective(conn, k, ev, x, id);
    }
  }

  lemma CancelLiveKnown(k: map<Identity, Handle>, ev: seq<Event>, id: Identity)
    requires LiveKnown(k, ev) && id in k
    ensures LiveKnown(k - {id}, ev + [Cancelled(k[id])])
  {
    var ev' := ev + [Cancelled(k[id])];
    forall f | f in ev' && f.Launched? && Cancelled(f.handle) !in ev'
      ensures f.app.identity in k - {id} && k[f.app.identity] == f.handle
    {
      assert f in ev;
    }
  }

  lemma CancelCancelsLaunched(conn: Connection, k: map<Identity, Handle>, ev: seq<Event>, id: Identity)
    requires CancelsLaunched(ev) && KnownLive(conn, k, ev) && id in k
    ensures CancelsLaunched(ev + [Cancelled(k[id])])
  {
    var ev' := ev + [Cancelled(k[id])];
    assert Launched(k[id], Application(id, conn)) in ev';
    forall f | f in ev' && f.Cancelled?
      ensures f.handle in LaunchedHandles(ev')
    {
      if f in ev {
        var g :| g in ev && g.Launched? && g.handle == f.handle;
        assert g in ev';
      }
    }
  }

  lemma CancelDistinct(conn: Connection, k: map<Identity, Handle>, ev: seq<Event>, id: Identity)
    requires HandlesDistinct(ev) && KnownLive(conn, k, ev) && id in k
    ensures HandlesDistinct(ev + [Cancelled(k[id])])
  {
    forall i | 0 <= i < |ev| && ev[i].Cancelled?
      ensures ev[i].handle != k[id]
    {
      assert ev[i] in ev;
    }
  }

  lemma LaunchCoherent(s: Session, r: Reader, id: Identity)
    requires r.exit == Reading && Coherent(s, r) && id !in r.known
    ensures Coherent(s, r.(known := r.known[id := r.next], next := r.next + 1,
                           events := r.events + [Launched(r.next, Application(id, s.conn))]))
  {
    var k, n, ev := r.known, r.next, r.events;
    LaunchKnownLive(s.conn, k, n, ev, id);
    LaunchLiveKnown(s.conn, k, n, ev, id);
    LaunchCancelsLaunched(s.conn, n, ev, id);
    LaunchDistinct(s.conn, k, n, ev, id);
  }

  lemma LaunchKnownLive(conn: Connection, k: map<Identity, Handle>, n: Handle, ev: seq<Event>, id: Identity)
    requires KnownLive(conn, k, ev) && Bounded(k, n, ev) && id !in k
    ensures KnownLive(conn, k[id := n], ev + [Launched(n, Application(id, conn))])
  {
    var ev' := ev + [Launched(n, Application(id, conn))];
    assert Cancelled(n) !in ev;
    forall x | x in k
      ensures Launched(k[x], Application(x, conn)) in ev' && Cancelled(k[x]) !in ev'
    {
    }
  }

  lemma LaunchLiveKnown(conn: Connection, k: map<Identity, Handle>, n: Handle, ev: seq<Event>, id: Identity)
    requires LiveKnown(k, ev) && id !in k
    ensures LiveKnown(k[id := n], ev + [Launched(n, Application(id, conn))])
  {
    var e := Launched(n, Application(id, conn));
    var ev' := ev + [e];
    forall f | f in ev' && f.Launched? && Cancelled(f.handle) !in ev'
      ensures f.app.identity in k[id := n] && k[id := n][f.app.identity] == f.handle
    {
      if f != e {
        assert f in ev;
      }
    }
  }

  lemma LaunchCancelsLaunched(conn: Connection, n: Handle, ev: seq<Event>, id: Identity)
    requires CancelsLaunched(ev)
    ensures CancelsLaunched(ev + [Launched(n, Application(id, conn))])
  {
    var ev' := ev + [Launched(n, Application(id, conn))];
    forall f | f in ev' && f.Cancelled?
      ensures f.handle in LaunchedHandles(ev')
    {
      var g :| g in ev && g.Launched? && g.handle == f.handle;
      assert g in ev';
    }
  }

  lemma LaunchDistinct(conn: Connection, k: map<Identity, Handle>, n: Handle, ev: seq<Event>, id: Identity)
    requires HandlesDistinct(ev) && Bounded(k, n, ev)
    ensures HandlesDistinct(ev + [Launched(n, Application(id, conn))])
  {
    forall i | 0 <= i < |ev| && ev[i].Launched?
      ensures ev[i].handle != n
    {
      assert ev[i] in ev;
    }
  }

  lemma StepCoherent(s: Session, r: Reader, m: Received)
    requires r.exit == Reading && Coherent(s, r)
    ensures Coherent(s, Step(s, r, m))
  {
    if m.Response? && s.validate(m.name, m.key).None? {
      var id := Identity(m.name, m.key);
      if m.available != (id in r.known) {
        if !m.available {
          CancelCoherent(s, r, id);
        } else {
          LaunchCoherent(s, r, id);
        }
      }
    }
  }

  lemma {:induction false} RunCoherent(s: Session, r: Reader, msgs: seq<Received>)
    requires Coherent(s, r)
    ensures Coherent(s, Run(s, r, msgs))
    decreases |msgs|
  {
    if msgs != [] && r.exit == Reading {
      StepCoherent(s, r, msgs[0]);
      RunCoherent(s, Step(s, r, msgs[0]), msgs[1..]);
    }
  }

  /** Every cancellation is preceded by the launch of the observer it cancels. */
  ghost predicate CancelsAfterLaunch(events: seq<Event>)
  {
    forall j :: 0 <= j < |events| && events[j].Cancelled? ==>
      exists i :: 0 <= i < j && events[i].Launched? && events[i].handle == events[j].handle
  }

  lemma CancelsAfterLaunchSnoc(events: seq<Event>, x: Event)
    requires CancelsAfterLaunch(events)
    requires x.Cancelled? ==> exists i :: 0 <= i < |events| && events[i].Launched? && events[i].handle == x.handle
    ensures CancelsAfterLaunch(events + [x])
  {
    var ev := events + [x];
    forall j | 0 <= j < |ev| && ev[j].Cancelled?
      ensures exists i :: 0 <= i < j && ev[i].Launched? && ev[i].handle == ev[j].handle
    {
      if j < |events| {
        var i :| 0 <= i < j && events[i].Launched? && events[i].handle == events[j].handle;
        assert ev[i] == events[i];
      } else {
        var i :| 0 <= i < |events| && events[i].Launched? && events[i].handle == x.handle;
        assert ev[i] == events[i];
      }
    }
  }

  /** A step of `recv` cancels only handles whose launch is already in the log. */
  lemma StepCancelsAfterLaunch(s: Session, r: Reader, m: Received)
    requires r.exit == Reading && Coherent(s, r) && CancelsAfterLaunch(r.events)
    ensures CancelsAfterLaunch(Step(s, r, m).events)
  {
    if m.Response? {
      var id := Identity(m.name, m.key);
      match s.validate(m.name, m.key)
      case Some(e) =>
        if s.logging {
          CancelsAfterLaunchSnoc(r.events, Logged(s.conn, Wrapped(InvalidIdentity, e)));
        }
      case None =>
        if m.available != (id in r.known) {
          if !m.available {
            var x := Launched(r.known[id], Application(id, s.conn));
            assert x in r.events;
            var i :| 0 <= i < |r.events| && r.events[i] == x;
            CancelsAfterLaunchSnoc(r.events, Cancelled(r.known[id]));
          } else {
            CancelsAfterLaunchSnoc(r.events, Launched(r.next, Application(id, s.conn)));
          }
        }
    }
  }

  lemma {:induction false} RunCancelsAfterLaunch(s: Session, r: Reader, msgs: seq<Received>)
    requires Coherent(s, r) && CancelsAfterLaunch(r.events)
    ensures CancelsAfterLaunch(Run(s, r, msgs).events)
    decreases |msgs|
  {
    if msgs != [] && r.exit == Reading {
      StepCancelsAfterLaunch(s, r, msgs[0]);
      StepCoherent(s, r, msgs[0]);
      RunCancelsAfterLaunch(s, Step(s, r, msgs[0]), msgs[1..]);
    }
  }

  /**
   * After any sequence of messages the live observers are exactly those whose
   * handle `known` holds, each handle is cancelled at most once and only after
   * its launch, and no identity has two live observers.
   */
  lemma AtMostOneLiveObserver(s: Session, msgs: seq<Received>)
    ensures var r := Run(s, Start, msgs);
      && Live(r.events) == r.known.Values
      && (forall e :: e in r.events && e.Cancelled? ==> e.handle in LaunchedHandles(r.events))
      && (forall j :: 0 <= j < |r.events| && r.events[j].Cancelled? ==>
            exists i :: 0 <= i < j && r.events[i].Launched? && r.events[i].handle == r.events[j].handle)
      && (forall i, j :: 0 <= i < j < |r.events| && r.events[i].Cancelled? && r.events[j].Cancelled? ==>
            r.events[i].handle != r.events[j].handle)
      && (forall e1, e2 ::
            (e1 in r.events && e2 in r.events && e1.Launched? && e2.Launched? &&
             e1.handle in Live(r.events) && e2.handle in Live(r.events) &&
             e1.app.identity == e2.app.identity) ==> e1 == e2)
  {
    StartCoherent(s);
    RunCoherent(s, Start, msgs);
    RunCancelsAfterLaunch(s, Start, msgs);
    var r := Run(s, Start, msgs);
    forall h | h in Live(r.events) ensures h in r.known.Values {
      var e :| e in r.events && e.Launched? && Cancelled(e.handle) !in r.events && e.handle == h;
      assert r.known[e.app.identity] == h;
    }
    forall h | h in r.known.Values ensures h in Live(r.events) {
      var id :| id in r.known && r.known[id] == h;
      assert Launched(h, Application(id, s.conn)) in r.events;
    }
    forall e1, e2 | e1 in r.events && e2 in r.events && e1.Launched? && e2.Launched? &&
        e1.handle in Live(r.events) && e2.handle in Live(r.events) && e1.app.identity == e2.app.identity
      ensures e1 == e2
    {
      assert Cancelled(e1.handle) !in r.events && Cancelled(e2.handle) !in r.events;
      assert e1.handle == e2.handle;
      var i :| 0 <= i < |r.events| && r.events[i] == e1;
      var j :| 0 <= j < |r.events| && r.events[j] == e2;
      assert i == j;
    }
  }

  /** The identity and availability a response announces, when its identity is valid. */
  function Announcement(s: Session, m: Received): Option<(Identity, bool)>
  {
    if m.Response? && s.validate(m.name, m.key).None?
    then Some((Identity(m.name, m.key), m.available))
    else None
  }

  /** Whether the last valid announcement of `id` in `msgs` said "available" (false when there is none). */
  function LastSaysAvailable(s: Session, msgs: seq<Received>, id: Identity): bool
  {
    if msgs == [] then false
    else match Announcement(s, msgs[|msgs| - 1])
      case Some((x, available)) =>
        if x == id then available else LastSaysAvailable(s, msgs[..|msgs| - 1], id)
      case None => LastSaysAvailable(s, msgs[..|msgs| - 1], id)
  }

  /** The messages `recv` acts on: those before the first receive error. */
  function Processed(msgs: seq<Received>): (p: seq<Received>)
    ensures |p| <= |msgs| && p == msgs[..|p|]
    ensures forall i :: 0 <= i < |p| ==> p[i].Response?
  {
    if msgs == [] || msgs[0].Failure? then [] else [msgs[0]] + Processed(msgs[1..])
  }

  lemma {:induction false} RunSnoc(s: Session, r: Reader, msgs: seq<Received>, m: Received)
    ensures Run(s, r, msgs + [m]) ==
      var q := Run(s, r, msgs); if q.exit == Reading then Step(s, q, m) else q
    decreases |msgs|
  {
    if msgs == [] {
      assert [m][1..] == [];
    } else if r.exit == Reading {
      assert (msgs + [m])[1..] == msgs[1..] + [m];
      RunSnoc(s, Step(s, r, msgs[0]), msgs[1..], m);
    }
  }

  lemma {:induction false} RunStopsAtFailure(s: Session, r: Reader, msgs: seq<Received>)
    requires r.exit == Reading
    ensures Run(s, r, msgs).known == Run(s, r, Processed(msgs)).known
    decreases |msgs|
  {
    if msgs != [] {
      var r' := Step(s, r, msgs[0]);
      if msgs[0].Failure? {
        assert Run(s, r', msgs[1..]) == r';
      } else {
        assert ([msgs[0]] + Processed(msgs[1..]))[1..] == Processed(msgs[1..]);
        RunStopsAtFailure(s, r', msgs[1..]);
      }
    }
  }

  lemma {:induction false} MembershipOfResponses(s: Session, msgs: seq<Received>)
    requires forall i :: 0 <= i < |msgs| ==> msgs[i].Response?
    ensures Run(s, Start, msgs).exit == Reading
    ensures forall id :: id in Run(s, Start, msgs).known <==> LastSaysAvailable(s, msgs, id)
    decreases |msgs|
  {
    if msgs != [] {
      var p, m := msgs[..|msgs| - 1], msgs[|msgs| - 1];
      assert msgs == p + [m];
      MembershipOfResponses(s, p);
      RunSnoc(s, Start, p, m);
    }
  }

  /**
   * Whatever the stream delivered, an identity is in `known` (has a live
   * observer) exactly when the last valid message about it, before any receive
   * error, said it is available.
   */
  lemma KnownFollowsLastAnnouncement(s: Session, msgs: seq<Received>)
    ensures forall id :: id in Run(s, Start, msgs).known <==> LastSaysAvailable(s, Processed(msgs), id)
  {
    RunStopsAtFailure(s, Start, msgs);
    MembershipOfResponses(s, Processed(msgs));
  }

  /**
   * available(X), available(X), unavailable(X) on one stream: exactly one
   * observer is launched for X and exactly its handle is cancelled once.
   */
  lemma DuplicateThenUnavailableScenario(s: Session, name: string, key: string)
    requires s.validate(name, key).None?
    ensures Run(s, Start, [Response(name, key, true), Response(name, key, true), Response(name, key, false)]).events
         == [Launched(0, Application(Identity(name, key), s.conn)), Cancelled(0)]
  {
    var msgs := [Response(name, key, true), Response(name, key, true), Response(name, key, false)];
    var r1 := Step(s, Start, msgs[0]);
    var r2 := Step(s, r1, msgs[1]);
    assert r2 == r1;
    var r3 := Step(s, r2, msgs[2]);
    assert r3.events == [Launched(0, Application(Identity(name, key), s.conn)), Cancelled(0)];
    assert msgs[1..][1..] == [msgs[2]];
    assert Run(s, r3, []) == r3;
    assert Run(s, r2, [msgs[2]]) == r3;
    assert Run(s, r1, msgs[1..]) == r3;
  }

  // ---------------------------------------------------------------------------
  // TargetConnected: the retry ladder around `watch`

  /** How one `watch` attempt ended. */
  datatype Attempt =
    | OpenFailed(err: Error)         // WatchApplications() itself failed
    | Opened(result: Option<Error>)  // the stream opened; what the reading group returned

  /**
   * One turn of the retry loop: the attempt, `ctx.Err()` when its error is
   * examined, and what `ctr.Sleep(ctx, err)` returns.
   */
  datatype Round = Round(attempt: Attempt, ctxErr: Option<Error>, slept: Option<Error>)

  /** Side effects of the retry loop, in order. */
  datatype RetryEvent =
    | CounterReset                         // ctr.Reset() once the stream is open
    | ErrorLogged(conn: Connection, err: Error)  // d.LogError(c, err)
    | BackedOff(err: Error)                // ctr.Sleep(ctx, err)

  const WatchFailure: string := "unable to watch target"

  /** The error `watch` returns for an attempt. */
  function WatchError(a: Attempt): Option<Error>
  {
    match a
    case OpenFailed(e) => Some(Wrapped(WatchFailure, e))
    case Opened(result) => result
  }

  /** The events of a watch attempt itself: a counter reset once the stream opened. */
  function AttemptEvents(a: Attempt): seq<RetryEvent>
  {
    if a.Opened? then [CounterReset] else []
  }

  /**
   * One turn of the loop: how it ends (`Reading` when the loop goes round
   * again) and the events it produces.
   */
  function Turn(c: Connection, logging: bool, rd: Round): (Exit, seq<RetryEvent>)
  {
    var pre := AttemptEvents(rd.attempt);
    match WatchError(rd.attempt)
    case None => (Returned(None), pre)
    case Some(err) =>
      if err.ApplicationObserverError? then (Returned(Some(err)), pre)
      else if logging && rd.ctxErr.Some? then (Returned(rd.ctxErr), pre)
      else
        var backedOff := pre + (if logging then [ErrorLogged(c, err)] else []) + [BackedOff(err)];
        if rd.slept.Some? then (Returned(rd.slept), backedOff) else (Reading, backedOff)
  }

  /** `TargetConnected` run over the rounds it is given. */
  function Retry(c: Connection, logging: bool, rounds: seq<Round>): (Exit, seq<RetryEvent>)
    decreases |rounds|
  {
    if rounds == [] then (Reading, [])
    else
      var turn := Turn(c, logging, rounds[0]);
      if turn.0.Returned? then turn
      else
        var rest := Retry(c, logging, rounds[1..]);
        (rest.0, turn.1 + rest.1)
  }

  /**
   * The body of the `TargetConnected` loop for one round: `exit` is `Reading`
   * when the loop goes round again.
   */
  method TakeTurn(c: Connection, logging: bool, rd: Round) returns (exit: Exit, events: seq<RetryEvent>)
    ensures (exit, events) == Turn(c, logging, rd)
  {
    events := [];
    if rd.attempt.Opened? {
      events := [CounterReset];
    }
    assert events == AttemptEvents(rd.attempt);
    var err := WatchError(rd.attempt);
    if err.None? {
      return Returned(None), events;
    }
    if err.value.ApplicationObserverError? {
      return Returned(err), events;
    }
    if logging {
      if rd.ctxErr.Some? {
        return Returned(rd.ctxErr), events;
      }
      events := events + [ErrorLogged(c, err.value)];
    }
    events := events + [BackedOff(err.value)];
    assert events == AttemptEvents(rd.attempt) + (if logging then [ErrorLogged(c, err.value)] else []) + [BackedOff(err.value)];
    if rd.slept.Some? {
      return Returned(rd.slept), events;
    }
    exit := Reading;
  }

  /**
   * `TargetConnected(ctx, c)`: retries `watch` until it returns nil, an
   * observer fails, or the context ends. Rounds that run out leave it still retrying.
   */
  method TargetConnected(c: Connection, logging: bool, rounds: seq<Round>) returns (exit: Exit, events: seq<RetryEvent>)
    ensures (exit, events) == Retry(c, logging, rounds)
  {
    events := [];
    var pending := rounds;
    while pending != []
      invariant Retry(c, logging, rounds).0 == Retry(c, logging, pending).0
      invariant Retry(c, logging, rounds).1 == events + Retry(c, logging, pending).1
    {
      var turnExit, turnEvents := TakeTurn(c, logging, pending[0]);
      ghost var later := Retry(c, logging, pending[1..]);
      assert Retry(c, logging, pending) == if turnExit.Returned? then (turnExit, turnEvents) else (later.0, turnEvents + later.1);
      SeqAssoc(events, turnEvents, later.1);
      events := events + turnEvents;
      if turnExit.Returned? {
        return turnExit, events;
      }
      pending := pending[1..];
    }
    assert events + [] == events;
    exit := Reading;
  }

  /**
   * An error surfaces from `TargetConnected` only if it is an application
   * observer's failure, the context's own error (when logging), or what the
   * backoff sleep returned: transient watch errors are never returned. A nil
   * return means some attempt's `watch` returned nil.
   */
  lemma {:induction false} OnlyFatalErrorsEscape(c: Connection, logging: bool, rounds: seq<Round>)
    ensures var (exit, _) := Retry(c, logging, rounds);
      exit.Returned? ==>
        (exists i :: 0 <= i < |rounds| && (
          || (exit.err.None? && WatchError(rounds[i].attempt).None?)
          || (exit.err.Some? && WatchError(rounds[i].attempt) == exit.err && exit.err.value.ApplicationObserverError?)
          || (exit.err.Some? && logging && rounds[i].ctxErr == exit.err)
          || (exit.err.Some? && rounds[i].slept == exit.err)))
    decreases |rounds|
  {
    if rounds != [] {
      var rd := rounds[0];
      var err := WatchError(rd.attempt);
      if err.Some? && !err.value.ApplicationObserverError? && !(logging && rd.ctxErr.Some?) && rd.slept.None? {
        OnlyFatalErrorsEscape(c, logging, rounds[1..]);
        var exit := Retry(c, logging, rounds).0;
        if exit.Returned? {
          var i :| 0 <= i < |rounds[1..]| && (
            || (exit.err.None? && WatchError(rounds[1..][i].attempt).None?)
            || (exit.err.Some? && WatchError(rounds[1..][i].attempt) == exit.err && exit.err.value.ApplicationObserverError?)
            || (exit.err.Some? && logging && rounds[1..][i].ctxErr == exit.err)
            || (exit.err.Some? && rounds[1..][i].slept == exit.err));
          assert rounds[i + 1] == rounds[1..][i];
        }
      } else {
        assert rounds[0] == rd;
      }
    }
  }

  /**
   * An application observer's failure is returned at once: the loop neither
   * logs it nor backs off, whatever the later rounds would have done.
   */
  lemma ObserverFailureIsNotRetried(c: Connection, logging: bool, rd: Round, rest: seq<Round>)
    requires WatchError(rd.attempt).Some? && WatchError(rd.attempt).value.ApplicationObserverError?
    ensures Retry(c, logging, [rd] + rest) == (Returned(WatchError(rd.attempt)), AttemptEvents(rd.attempt))
  {
  }

  /**
   * With `LogError` set, an error seen once the context has ended is not
   * logged: `TargetConnected` returns `ctx.Err()` straight away.
   */
  lemma CancelledContextIsNotLogged(c: Connection, rd: Round, rest: seq<Round>)
    requires WatchError(rd.attempt).Some? && !WatchError(rd.attempt).value.ApplicationObserverError?
    requires rd.ctxErr.Some?
    ensures Retry(c, true, [rd] + rest) == (Returned(rd.ctxErr), AttemptEvents(rd.attempt))
  {
  }

  /**
   * A transient error is logged (when `LogError` is set) and backed off on,
   * then the next round runs; the counter is reset only by a round whose
   * stream opened.
   */
  lemma TransientErrorIsRetried(c: Connection, logging: bool, rd: Round, rest: seq<Round>)
    requires WatchError(rd.attempt).Some? && !WatchError(rd.attempt).value.ApplicationObserverError?
    requires !(logging && rd.ctxErr.Some?) && rd.slept.None?
    ensures var err := WatchError(rd.attempt).value;
      var later := Retry(c, logging, rest);
      Retry(c, logging, [rd] + rest)
        == (later.0, AttemptEvents(rd.attempt) + (if logging then [ErrorLogged(c, err)] else []) + [BackedOff(err)] + later.1)
  {
    assert ([rd] + rest)[1..] == rest;
  }
}
