/**
 * DNS-based target discovery (dns.go): each query result is lower-cased into a
 * set of addresses, and `sync` reconciles that set with the addresses already
 * known, cancelling the context of each vanished address once and expanding
 * each new address into targets that share one new context.
 */
module Dns {
  import opened Base
  import opened Types
  import opened Strings

  /** One round of `discover`: what the lookup returned and how the sleep after it ended. */
  datatype Poll = Poll(lookup: Lookup, slept: Option<Error>)

  /** A cancel function, numbered in the order the contexts were created. */
  type Handle = nat

  /** What the discoverer does besides updating `known`. */
  datatype Event =
    | Expanded(addr: string)                   // d.newTargets(ctx, addr) was called
    | Opened(addr: string, handle: Handle)     // context.WithCancel(d.parent) for a new address
    | Cancelled(handle: Handle)                // the cancel function of an address
    | Launched(handle: Handle, target: Target) // d.group.Go(targetDiscovered(addrCtx, ..., t))

  /** The `NewTargets` field: nil, or a function from an address to its targets. */
  type Expander = Option<string -> Result<seq<Target>, Error>>

  /** `newTargets(ctx, addr)`: the custom expansion when there is one, else one target named after the address. */
  function NewTargets(custom: Expander, addr: string): (r: Result<seq<Target>, Error>)
    ensures custom.None? ==> r == Ok([Target(addr, [])])
    ensures custom.Some? ==> r == custom.value(addr)
  {
    match custom
    case Some(f) => f(addr)
    case None => Ok([Target(addr, [])])
  }

  /** What `Resolver.LookupHost` returned. */
  datatype Lookup = Found(addrs: seq<string>) | LookupFailed(err: Error)

  /** A resolver error that only means "nothing right now". */
  predicate Ignorable(e: Error)
  {
    e.DnsFailure? && (e.isTemporary || e.isNotFound)
  }

  /**
   * The address set a lookup stands for: the lower-cased, de-duplicated
   * addresses; a temporary or not-found DNS error means no addresses, any
   * other error is passed on.
   */
  function Resolved(lookup: Lookup): (r: Result<set<string>, Error>)
    ensures lookup.LookupFailed? && Ignorable(lookup.err) ==> r == Ok({})
    ensures lookup.LookupFailed? && !Ignorable(lookup.err) ==> r == Err(lookup.err)
    ensures lookup.Found? ==> r.Ok? && (forall a ::
      a in r.value <==> exists i :: 0 <= i < |lookup.addrs| && ToLower(lookup.addrs[i]) == a)
  {
    match lookup
    case LookupFailed(e) => if Ignorable(e) then Ok({}) else Err(e)
    case Found(addrs) => Ok(set i | 0 <= i < |addrs| :: ToLower(addrs[i]))
  }

  /** `query`: builds the address set of a lookup one address at a time. */
  method Query(lookup: Lookup) returns (r: Result<set<string>, Error>)
    ensures r == Resolved(lookup)
  {
    match lookup
    case LookupFailed(e) =>
      if e.DnsFailure? && (e.isTemporary || e.isNotFound) {
        return Ok({});
      }
      return Err(e);
    case Found(addrs) =>
      var results: set<string> := {};
      var i := 0;
      while i < |addrs|
        invariant 0 <= i <= |addrs|
        invariant forall a :: a in results <==> exists j :: 0 <= j < i && ToLower(addrs[j]) == a
      {
        results := results + {ToLower(addrs[i])};
        i := i + 1;
      }
      assert results == Resolved(lookup).value;
      return Ok(results);
  }

  /** Every address `query` returns is free of upper-case letters. */
  lemma QueryResultsAreLowerCase(addrs: seq<string>, a: string)
    requires exists i :: 0 <= i < |addrs| && ToLower(addrs[i]) == a
    ensures forall k :: 0 <= k < |a| ==> !IsUpper(a[k])
    ensures ToLower(a) == a
  {
    var i :| 0 <= i < |addrs| && ToLower(addrs[i]) == a;
    ToLowerIdempotent(addrs[i]);
  }

  /** The events of a vanished address list: one cancellation each. */
  function CancelEvents(handles: seq<Handle>): (r: seq<Event>)
    ensures |r| == |handles|
    ensures forall i :: 0 <= i < |r| ==> r[i] == Cancelled(handles[i])
  {
    seq(|handles|, i requires 0 <= i < |handles| => Cancelled(handles[i]))
  }

  lemma CancelEventsSnoc(handles: seq<Handle>, h: Handle)
    ensures CancelEvents(handles + [h]) == CancelEvents(handles) + [Cancelled(h)]
  {
  }

  /** One observer launch per target, all under the address's handle. */
  function LaunchEvents(h: Handle, targets: seq<Target>): (r: seq<Event>)
    ensures |r| == |targets|
    ensures forall i :: 0 <= i < |r| ==> r[i] == Launched(h, targets[i])
  {
    seq(|targets|, i requires 0 <= i < |targets| => Launched(h, targets[i]))
  }

  /** The events of one new address: its expansion and, when that succeeds, its context and launches. */
  function Block(x: Expander, a: string, hs: map<string, Handle>): (r: seq<Event>)
    requires NewTargets(x, a).Ok? ==> a in hs
    ensures |r| >= 1 && r[0] == Expanded(a)
    ensures NewTargets(x, a).Err? ==> r == [Expanded(a)]
    ensures NewTargets(x, a).Ok? ==> (|r| == 2 + |NewTargets(x, a).value| && r[1] == Opened(a, hs[a]) &&
      forall i :: 2 <= i < |r| ==> r[i] == Launched(hs[a], NewTargets(x, a).value[i - 2]))
  {
    match NewTargets(x, a)
    case Ok(ts) => [Expanded(a), Opened(a, hs[a])] + LaunchEvents(hs[a], ts)
    case Err(_) => [Expanded(a)]
  }

  /** The events of the new addresses `order`, in that order, with the handles in `hs`. */
  function Blocks(x: Expander, order: seq<string>, hs: map<string, Handle>): seq<Event>
    requires forall a :: a in order && NewTargets(x, a).Ok? ==> a in hs
  {
    if order == [] then []
    else Blocks(x, order[..|order| - 1], hs) + Block(x, order[|order| - 1], hs)
  }

  lemma BlocksSnoc(x: Expander, order: seq<string>, a: string, hs: map<string, Handle>)
    requires forall b :: b in order + [a] && NewTargets(x, b).Ok? ==> b in hs
    ensures Blocks(x, order + [a], hs) == Blocks(x, order, hs) + Block(x, a, hs)
  {
    assert (order + [a])[..|order|] == order;
  }

  /** Blocks only read the handles of the addresses they cover. */
  lemma {:induction false} BlocksFrame(x: Expander, order: seq<string>, hs: map<string, Handle>, hs': map<string, Handle>)
    requires forall a :: a in order && NewTargets(x, a).Ok? ==> a in hs && a in hs' && hs[a] == hs'[a]
    ensures Blocks(x, order, hs) == Blocks(x, order, hs')
  {
    if order != [] {
      BlocksFrame(x, order[..|order| - 1], hs, hs');
    }
  }

  /** The contexts that are open and not yet cancelled. */
  ghost function Live(events: seq<Event>): set<Handle>
  {
    set e | e in events && e.Opened? && Cancelled(e.handle) !in events :: e.handle
  }

  /**
   * The discoverer's bookkeeping is consistent: each known address owns one
   * open, uncancelled context of its own, and every open, uncancelled
   * context belongs to a known address.
   */
  ghost predicate Coherent(known: map<string, Handle>, next: Handle, events: seq<Event>)
  {
    && (forall a :: a in known ==> known[a] < next)
    && (forall a :: a in known ==> Opened(a, known[a]) in events && Cancelled(known[a]) !in events)
    && (forall a, b :: a in known && b in known && a != b ==> known[a] != known[b])
    && (forall e :: e in events && !e.Expanded? ==> e.handle < next)
    && (forall e :: e in events && e.Opened? && Cancelled(e.handle) !in events ==>
          e.addr in known && known[e.addr] == e.handle)
  }

  /** The live contexts are exactly those of the known addresses. */
  lemma LiveIsKnown(known: map<string, Handle>, next: Handle, events: seq<Event>)
    requires Coherent(known, next, events)
    ensures Live(events) == known.Values
  {
    forall h | h in known.Values ensures h in Live(events) {
      var a :| a in known && known[a] == h;
      assert Opened(a, h) in events;
    }
  }

  /** The handles of the known addresses missing from `results`. */
  ghost function Vanished(known: map<string, Handle>, results: set<string>): set<Handle>
  {
    set a | a in known && a !in results :: known[a]
  }

  lemma RestrictedMap(k0: map<string, Handle>, k: map<string, Handle>, results: set<string>)
    requires forall a :: a in k <==> a in k0 && a in results
    requires forall a :: a in k ==> k[a] == k0[a]
    ensures k == map a | a in k0 && a in results :: k0[a]
  {
  }

  lemma ElemsSnoc(s: seq<Handle>, h: Handle)
    ensures (set x | x in s + [h]) == (set x | x in s) + {h}
  {
  }

  lemma VanishedStep(known: map<string, Handle>, visit: set<string>, results: set<string>, addr: string)
    requires addr in visit && addr in known && addr !in results
    ensures Vanished(known - (visit - {addr}), results) == Vanished(known - visit, results) + {known[addr]}
  {
  }

  /**
   * The state of the first loop of `sync` with `visit` still to look at:
   * the addresses already looked at are kept when in `results` and
   * forgotten otherwise, with each forgotten handle cancelled once.
   */
  ghost predicate PruneInvariant(k0: map<string, Handle>, results: set<string>, visit: set<string>,
                                 known: map<string, Handle>, unseen: set<string>, cancelled: seq<Handle>)
  {
    && visit <= k0.Keys
    && (forall a :: a in known <==> a in visit || (a in k0 && a in results))
    && (forall a :: a in known ==> known[a] == k0[a])
    && (forall a :: a in unseen <==> a in results && (a !in k0 || a in visit))
    && Distinct(cancelled)
    && (set h | h in cancelled) == Vanished(k0 - visit, results)
    && (forall a, b :: a in k0 && b in k0 && a != b ==> k0[a] != k0[b])
  }

  lemma PruneStep(k0: map<string, Handle>, results: set<string>, visit: set<string>,
                  known: map<string, Handle>, unseen: set<string>, cancelled: seq<Handle>, addr: string)
    requires PruneInvariant(k0, results, visit, known, unseen, cancelled) && addr in visit
    ensures addr in known
    ensures addr in results ==> PruneInvariant(k0, results, visit - {addr}, known, unseen - {addr}, cancelled)
    ensures addr !in results ==>
      PruneInvariant(k0, results, visit - {addr}, known - {addr}, unseen, cancelled + [known[addr]])
  {
    var h := known[addr];
    if addr !in results {
      VanishedStep(k0, visit, results, addr);
      assert h !in Vanished(k0 - visit, results);
      ElemsSnoc(cancelled, h);
      DistinctSnoc(cancelled, h);
    }
  }

  lemma PruneDone(k0: map<string, Handle>, results: set<string>,
                  known: map<string, Handle>, unseen: set<string>, cancelled: seq<Handle>)
    requires PruneInvariant(k0, results, {}, known, unseen, cancelled)
    ensures unseen == results - k0.Keys
    ensures known == map a | a in k0 && a in results :: k0[a]
    ensures Distinct(cancelled) && (set h | h in cancelled) == Vanished(k0, results)
  {
    assert k0 - {} == k0;
    RestrictedMap(k0, known, results);
  }

  /** Forgetting the vanished addresses and cancelling each of their contexts keeps the bookkeeping consistent. */
  lemma PruneCoherent(known: map<string, Handle>, next: Handle, events: seq<Event>,
                      results: set<string>, cancelled: seq<Handle>)
    requires Coherent(known, next, events)
    requires (set h | h in cancelled) == Vanished(known, results)
    ensures Coherent(map a | a in known && a in results :: known[a], next, events + CancelEvents(cancelled))
  {
    var k := map a | a in known && a in results :: known[a];
    var e := events + CancelEvents(cancelled);
    forall a | a in k ensures Cancelled(k[a]) !in e {
      assert k[a] !in Vanished(known, results);
      assert k[a] !in cancelled;
    }
    forall a | a in known && a !in results ensures Cancelled(known[a]) in e {
      assert known[a] in Vanished(known, results);
      var i :| 0 <= i < |cancelled| && cancelled[i] == known[a];
      assert e[|events| + i] == Cancelled(known[a]);
    }
    forall ev | ev in e && ev.Opened? && Cancelled(ev.handle) !in e
      ensures ev.addr in k && k[ev.addr] == ev.handle
    {
      assert ev in events;
    }
    forall ev | ev in e && !ev.Expanded? ensures ev.handle < next {
      if ev !in events {
        var i :| 0 <= i < |cancelled| && CancelEvents(cancelled)[i] == ev;
        assert cancelled[i] in Vanished(known, results);
      }
    }
  }

  /** Every event of the new addresses' blocks names one of them, and none is a cancellation. */
  lemma {:induction false} BlocksShape(x: Expander, order: seq<string>, hs: map<string, Handle>, ev: Event)
    requires forall a :: a in order && NewTargets(x, a).Ok? ==> a in hs
    requires ev in Blocks(x, order, hs)
    ensures !ev.Cancelled?
    ensures ev.Expanded? ==> ev.addr in order
    ensures !ev.Expanded? ==> exists b :: b in order && NewTargets(x, b).Ok? && ev.handle == hs[b] && (ev.Opened? ==> ev.addr == b)
  {
    if order != [] {
      var n := |order| - 1;
      if ev in Blocks(x, order[..n], hs) {
        BlocksShape(x, order[..n], hs, ev);
        if !ev.Expanded? {
          var b :| b in order[..n] && NewTargets(x, b).Ok? && ev.handle == hs[b] && (ev.Opened? ==> ev.addr == b);
          assert b in order;
        }
      } else {
        var blk := Block(x, order[n], hs);
        var i :| 0 <= i < |blk| && blk[i] == ev;
        if i > 0 {
          assert order[n] in order;
        }
      }
    }
  }

  /** Each successfully expanded new address has its context opened in the blocks. */
  lemma {:induction false} OpenedInBlocks(x: Expander, order: seq<string>, hs: map<string, Handle>, b: string)
    requires forall a :: a in order && NewTargets(x, a).Ok? ==> a in hs
    requires b in order && NewTargets(x, b).Ok?
    ensures Opened(b, hs[b]) in Blocks(x, order, hs)
  {
    var n := |order| - 1;
    if order[n] == b {
      assert Block(x, b, hs)[1] == Opened(b, hs[b]);
    } else {
      OpenedInBlocks(x, order[..n], hs, b);
    }
  }

  /**
   * Admitting new addresses, each successfully expanded one with a fresh
   * handle of its own, keeps the bookkeeping consistent.
   */
  lemma BlocksCoherent(x: Expander, k0: map<string, Handle>, n0: Handle, e0: seq<Event>,
                       order: seq<string>, known: map<string, Handle>, next: Handle)
    requires Coherent(k0, n0, e0)
    requires forall a :: a in order ==> a !in k0
    requires forall a :: a in known <==> a in k0 || (a in order && NewTargets(x, a).Ok?)
    requires forall a :: a in k0 ==> known[a] == k0[a]
    requires forall a :: a in known && a !in k0 ==> n0 <= known[a] < next
    requires n0 <= next
    requires forall a, b :: a in known && b in known && a != b ==> known[a] != known[b]
    ensures Coherent(known, next, e0 + Blocks(x, order, known))
  {
    var e := e0 + Blocks(x, order, known);
    forall a | a in known ensures Opened(a, known[a]) in e && Cancelled(known[a]) !in e {
      if a !in k0 {
        OpenedInBlocks(x, order, known, a);
      }
      if Cancelled(known[a]) in Blocks(x, order, known) {
        BlocksShape(x, order, known, Cancelled(known[a]));
        assert false;
      }
    }
    forall ev | ev in e && !ev.Expanded? ensures ev.handle < next {
      if ev !in e0 {
        BlocksShape(x, order, known, ev);
      }
    }
    forall ev | ev in e && ev.Opened? && Cancelled(ev.handle) !in e
      ensures ev.addr in known && known[ev.addr] == ev.handle
    {
      if ev !in e0 {
        BlocksShape(x, order, known, ev);
      }
    }
  }

  lemma AdmitStep(x: Expander, e0: seq<Event>,
                  k1: map<string, Handle>, e1: seq<Event>, o1: seq<string>, addr: string,
                  k2: map<string, Handle>, n2: Handle, e2: seq<Event>)
    requires forall a :: a in o1 && NewTargets(x, a).Ok? ==> a in k1
    requires e1 == e0 + Blocks(x, o1, k1)
    requires addr !in k1 && addr !in o1
    requires forall a :: a in k1 ==> a in k2 && k2[a] == k1[a]
    requires NewTargets(x, addr).Ok? ==> addr in k2
    requires e2 == e1 + Block(x, addr, k2)
    ensures e2 == e0 + Blocks(x, o1 + [addr], k2)
  {
    BlocksFrame(x, o1, k1, k2);
    BlocksSnoc(x, o1, addr, k2);
    var b1 := Blocks(x, o1, k2);
    var b := Block(x, addr, k2);
    calc {
      e2;
      e1 + b;
      (e0 + b1) + b;
      { SeqAssoc(e0, b1, b); }
      e0 + (b1 + b);
    }
  }

  /** Pruning followed by admitting keeps the bookkeeping consistent. */
  lemma SyncCoherent(x: Expander, k0: map<string, Handle>, n0: Handle, e0: seq<Event>, results: set<string>,
                     cancelled: seq<Handle>, k1: map<string, Handle>, e1: seq<Event>,
                     order: seq<string>, known: map<string, Handle>, next: Handle)
    requires Coherent(k0, n0, e0)
    requires (set h | h in cancelled) == Vanished(k0, results)
    requires k1 == map a | a in k0 && a in results :: k0[a]
    requires e1 == e0 + CancelEvents(cancelled)
    requires forall a :: a in order ==> a !in k1
    requires forall a :: a in known <==> a in k1 || (a in order && NewTargets(x, a).Ok?)
    requires forall a :: a in k1 ==> known[a] == k1[a]
    requires forall a :: a in known && a !in k1 ==> n0 <= known[a] < next
    requires n0 <= next
    requires forall a, b :: a in known && b in known && a != b ==> known[a] != known[b]
    ensures Coherent(known, next, e1 + Blocks(x, order, known))
  {
    PruneCoherent(k0, n0, e0, results, cancelled);
    BlocksCoherent(x, k1, n0, e1, order, known, next);
  }

  /** What pruning followed by admitting leaves in the address map. */
  lemma SyncOutcome(x: Expander, k0: map<string, Handle>, n0: Handle, results: set<string>, unseen: set<string>,
                    k1: map<string, Handle>, err: Option<Error>, order: seq<string>, known: map<string, Handle>, next: Handle)
    requires unseen == results - k0.Keys
    requires k1 == map a | a in k0 && a in results :: k0[a]
    requires Distinct(order) && (forall a :: a in order ==> a in unseen)
    requires err.None? ==> (forall a :: a in unseen ==> a in order) && (forall a :: a in order ==> NewTargets(x, a).Ok?)
    requires forall a :: a in known <==> a in k1 || (a in order && NewTargets(x, a).Ok?)
    requires forall a :: a in k1 ==> known[a] == k1[a]
    requires forall a :: a in known && a !in k1 ==> n0 <= known[a] < next
    ensures forall a :: a in order && NewTargets(x, a).Ok? ==> a in known
    ensures Distinct(order) && (forall a :: a in order ==> a in results && a !in k0)
    ensures err.None? ==> known.Keys == results && (forall a :: a in results && a !in k0 ==> a in order)
    ensures forall a :: a in k0 && a in results ==> a in known && known[a] == k0[a]
    ensures forall a :: a in known && a !in k0 ==> n0 <= known[a] < next
  {
    if err.None? {
      assert forall a :: a in known <==> a in results;
    }
  }

  /** No block of a new address cancels anything. */
  lemma NoCancellationInBlocks(x: Expander, order: seq<string>, hs: map<string, Handle>, h: Handle)
    requires forall a :: a in order && NewTargets(x, a).Ok? ==> a in hs
    ensures Cancelled(h) !in Blocks(x, order, hs)
  {
    if Cancelled(h) in Blocks(x, order, hs) {
      BlocksShape(x, order, hs, Cancelled(h));
      assert false;
    }
  }

  /** A sync cancels the context of each vanished address exactly once. */
  lemma CancelledExactlyOnce(x: Expander, cancelled: seq<Handle>, order: seq<string>, hs: map<string, Handle>, h: Handle)
    requires forall a :: a in order && NewTargets(x, a).Ok? ==> a in hs
    requires Distinct(cancelled) && h in cancelled
    ensures Count(CancelEvents(cancelled) + Blocks(x, order, hs), Cancelled(h)) == 1
  {
    CountAppend(CancelEvents(cancelled), Blocks(x, order, hs), Cancelled(h));
    NoCancellationInBlocks(x, order, hs, h);
    CountDistinct(CancelEvents(cancelled), Cancelled(h));
  }

  /**
   * A sync leaves a surviving address alone: it is not expanded again, its
   * context is not cancelled, and no observer is launched under it.
   */
  lemma SurvivorUntouched(x: Expander, cancelled: seq<Handle>, order: seq<string>, hs: map<string, Handle>,
                          a: string, h: Handle)
    requires forall b :: b in order && NewTargets(x, b).Ok? ==> b in hs
    requires a !in order && h !in cancelled
    requires forall b :: b in order && NewTargets(x, b).Ok? ==> hs[b] != h
    ensures Expanded(a) !in CancelEvents(cancelled) + Blocks(x, order, hs)
    ensures forall ev :: ev in CancelEvents(cancelled) + Blocks(x, order, hs) && !ev.Expanded? ==> ev.handle != h
  {
    var e := CancelEvents(cancelled) + Blocks(x, order, hs);
    forall ev | ev in e ensures !(ev.Expanded? && ev.addr == a) && (!ev.Expanded? ==> ev.handle != h) {
      if ev in Blocks(x, order, hs) {
        BlocksShape(x, order, hs, ev);
      }
    }
  }

  lemma {:induction false} CountLaunches(h: Handle, ts: seq<Target>, h': Handle, t: Target)
    ensures Count(LaunchEvents(h, ts), Launched(h', t)) == if h == h' then Count(ts, t) else 0
  {
    if ts != [] {
      assert LaunchEvents(h, ts)[1..] == LaunchEvents(h, ts[1..]);
      CountLaunches(h, ts[1..], h', t);
    }
  }

  /** No two successfully expanded addresses of `order` share a handle. */
  predicate HandlesDistinct(x: Expander, order: seq<string>, hs: map<string, Handle>)
    requires forall a :: a in order && NewTargets(x, a).Ok? ==> a in hs
  {
    forall a, b :: a in order && b in order && a != b && NewTargets(x, a).Ok? && NewTargets(x, b).Ok? ==> hs[a] != hs[b]
  }

  /**
   * A sync launches exactly one observer per target a new address expands
   * to (counting repeated targets), all under that address's context.
   */
  lemma {:induction false} OneObserverPerTarget(x: Expander, order: seq<string>, hs: map<string, Handle>, a: string, t: Target)
    requires forall b :: b in order && NewTargets(x, b).Ok? ==> b in hs
    requires Distinct(order) && HandlesDistinct(x, order, hs)
    requires a in order && NewTargets(x, a).Ok?
    ensures Count(Blocks(x, order, hs), Launched(hs[a], t)) == Count(NewTargets(x, a).value, t)
  {
    var n := |order| - 1;
    var prefix, b := order[..n], order[n];
    assert order == prefix + [b];
    CountAppend(Blocks(x, prefix, hs), Block(x, b, hs), Launched(hs[a], t));
    CountInBlock(x, b, hs, hs[a], t);
    if b == a {
      AbsentFromPrefix(x, order, hs, a, t);
    } else {
      assert a in prefix;
      OneObserverPerTarget(x, prefix, hs, a, t);
    }
  }

  lemma CountInBlock(x: Expander, b: string, hs: map<string, Handle>, h: Handle, t: Target)
    requires NewTargets(x, b).Ok? ==> b in hs
    ensures Count(Block(x, b, hs), Launched(h, t)) ==
      if NewTargets(x, b).Ok? && hs[b] == h then Count(NewTargets(x, b).value, t) else 0
  {
    if NewTargets(x, b).Ok? {
      var ts := NewTargets(x, b).value;
      assert Block(x, b, hs) == [Expanded(b), Opened(b, hs[b])] + LaunchEvents(hs[b], ts);
      CountAppend([Expanded(b), Opened(b, hs[b])], LaunchEvents(hs[b], ts), Launched(h, t));
      CountLaunches(hs[b], ts, h, t);
    }
  }

  /** The last address of `order` launches nothing before its own block. */
  lemma AbsentFromPrefix(x: Expander, order: seq<string>, hs: map<string, Handle>, a: string, t: Target)
    requires forall b :: b in order && NewTargets(x, b).Ok? ==> b in hs
    requires Distinct(order) && HandlesDistinct(x, order, hs)
    requires order != [] && a == order[|order| - 1] && NewTargets(x, a).Ok?
    ensures Launched(hs[a], t) !in Blocks(x, order[..|order| - 1], hs)
  {
    var prefix := order[..|order| - 1];
    forall b | b in prefix && NewTargets(x, b).Ok?
      ensures hs[b] != hs[a]
    {
      var i :| 0 <= i < |prefix| && prefix[i] == b;
      assert order[i] == b && i < |order| - 1;
    }
    if Launched(hs[a], t) in Blocks(x, prefix, hs) {
      BlocksShape(x, prefix, hs, Launched(hs[a], t));
      assert false;
    }
  }

  class DnsDiscoverer {
    /** The `NewTargets` field. */
    const newTargets: Expander
    /** `d.known`: the cancel function of each address in the latest results. */
    var known: map<string, Handle>
    /** The number of address contexts created so far. */
    var next: Handle
    /** Everything the discoverer has done, in order. */
    var events: seq<Event>

    ghost predicate Valid()
      reads this
    {
      Coherent(known, next, events)
    }

    constructor (newTargets: Expander)
      ensures Valid()
      ensures this.newTargets == newTargets && known == map[] && next == 0 && events == []
    {
      this.newTargets := newTargets;
      known, next, events := map[], 0, [];
    }

    /**
     * The first loop of `sync`: each known address missing from `results` is
     * forgotten and its context cancelled; what is left of `results` is the
     * set of addresses not seen before.
     */
    method Prune(results: set<string>) returns (unseen: set<string>, ghost cancelled: seq<Handle>)
      requires forall a, b :: a in known && b in known && a != b ==> known[a] != known[b]
      modifies this
      ensures unseen == results - old(known).Keys
      ensures known == map a | a in old(known) && a in results :: old(known)[a]
      ensures next == old(next)
      ensures events == old(events) + CancelEvents(cancelled)
      ensures Distinct(cancelled)
      ensures (set h | h in cancelled) == Vanished(old(known), results)
    {
      unseen := results;
      cancelled := [];
      var visit := known.Keys;
      ghost var k0 := known;
      ghost var e0 := events;
      while visit != {}
        invariant PruneInvariant(k0, results, visit, known, unseen, cancelled)
        invariant events == e0 + CancelEvents(cancelled)
        invariant next == old(next)
        decreases visit
      {
        var addr :| addr in visit;
        var h := known[addr];
        PruneStep(k0, results, visit, known, unseen, cancelled, addr);
        if addr in results {
          unseen := unseen - {addr};
        } else {
          known := known - {addr};
          events := events + [Cancelled(h)];
          CancelEventsSnoc(cancelled, h);
          cancelled := cancelled + [h];
        }
        visit := visit - {addr};
      }
      PruneDone(k0, results, known, unseen, cancelled);
    }

    /**
     * One pass of the second loop of `sync`: expand a new address, record a
     * fresh context for it (even when it has no targets) and launch one
     * observer per target under that context.
     */
    method Admit(addr: string) returns (err: Option<Error>)
      requires addr !in known
      modifies this
      ensures err.None? <==> NewTargets(newTargets, addr).Ok?
      ensures err.Some? ==> err.value == NewTargets(newTargets, addr).error && known == old(known) && next == old(next)
      ensures err.None? ==> known == old(known)[addr := old(next)] && next == old(next) + 1
      ensures events == old(events) + Block(newTargets, addr, known)
    {
      var r := NewTargets(newTargets, addr);
      events := events + [Expanded(addr)];
      if r.Err? {
        return Some(r.error);
      }
      var h := next;
      next := next + 1;
      known := known[addr := h];
      events := events + [Opened(addr, h)];
      ghost var e1 := events;
      var i := 0;
      while i < |r.value|
        invariant 0 <= i <= |r.value|
        invariant events == e1 + LaunchEvents(h, r.value[..i])
        invariant known == old(known)[addr := h] && next == h + 1
      {
        assert LaunchEvents(h, r.value[..i + 1]) == LaunchEvents(h, r.value[..i]) + [Launched(h, r.value[i])];
        events := events + [Launched(h, r.value[i])];
        i := i + 1;
      }
      assert r.value[..i] == r.value;
      return None;
    }

    /**
     * The second loop of `sync`: admit every unseen address, in some order,
     * stopping at the first whose expansion fails.
     */
    method AdmitAll(unseen: set<string>) returns (err: Option<Error>, ghost order: seq<string>)
      requires forall a :: a in known ==> known[a] < next
      requires forall a, b :: a in known && b in known && a != b ==> known[a] != known[b]
      requires forall a :: a in unseen ==> a !in known
      modifies this
      ensures forall a :: a in known ==> known[a] < next
      ensures forall a, b :: a in known && b in known && a != b ==> known[a] != known[b]
      ensures old(next) <= next
      ensures Distinct(order) && (forall a :: a in order ==> a in unseen)
      ensures err.None? ==> (forall a :: a in unseen ==> a in order) && (forall a :: a in order ==> NewTargets(newTargets, a).Ok?)
      ensures err.Some? ==> (order != [] && NewTargets(newTargets, order[|order| - 1]) == Err(err.value) &&
        forall i :: 0 <= i < |order| - 1 ==> NewTargets(newTargets, order[i]).Ok?)
      ensures forall a :: a in known <==> a in old(known) || (a in order && NewTargets(newTargets, a).Ok?)
      ensures forall a :: a in old(known) ==> known[a] == old(known)[a]
      ensures forall a :: a in known && a !in old(known) ==> old(next) <= known[a] < next
      ensures events == old(events) + Blocks(newTargets, order, known)
    {
      order := [];
      err := None;
      var pending := unseen;
      while pending != {}
        invariant pending <= unseen
        invariant err.None?
        invariant Distinct(order) && (forall a :: a in order ==> a in unseen && a !in pending)
        invariant forall a :: a in unseen ==> a in pending || a in order
        invariant forall a :: a in order ==> NewTargets(newTargets, a).Ok?
        invariant forall a :: a in known <==> a in old(known) || a in order
        invariant forall a :: a in old(known) ==> known[a] == old(known)[a]
        invariant forall a :: a in known && a !in old(known) ==> old(next) <= known[a] < next
        invariant old(next) <= next
        invariant events == old(events) + Blocks(newTargets, order, known)
        invariant forall a :: a in known ==> known[a] < next
        invariant forall a, b :: a in known && b in known && a != b ==> known[a] != known[b]
        decreases pending
      {
        var addr :| addr in pending;
        ghost var k1, e1, o1 := known, events, order;
        err := Admit(addr);
        order := order + [addr];
        AdmitStep(newTargets, old(events), k1, e1, o1, addr, known, next, events);
        if err.Some? {
          return;
        }
        pending := pending - {addr};
      }
    }

    /**
     * `sync`: reconcile the known addresses with the latest query results.
     * On success the known addresses are exactly the results, every survivor
     * keeps its context, every vanished address had its context cancelled,
     * and every new address was expanded and given a fresh context.
     */
    method Sync(results: set<string>) returns (err: Option<Error>, ghost cancelled: seq<Handle>, ghost order: seq<string>)
      requires Valid()
      modifies this
      ensures Valid()
      ensures forall a :: a in order && NewTargets(newTargets, a).Ok? ==> a in known
      ensures events == old(events) + CancelEvents(cancelled) + Blocks(newTargets, order, known)
      ensures Distinct(cancelled) && (set h | h in cancelled) == Vanished(old(known), results)
      ensures Distinct(order) && (forall a :: a in order ==> a in results && a !in old(known))
      ensures err.None? ==> known.Keys == results && (forall a :: a in results && a !in old(known) ==> a in order)
      ensures err.None? ==> forall a :: a in order ==> NewTargets(newTargets, a).Ok?
      ensures err.Some? ==> (order != [] && NewTargets(newTargets, order[|order| - 1]) == Err(err.value) &&
        forall i :: 0 <= i < |order| - 1 ==> NewTargets(newTargets, order[i]).Ok?)
      ensures forall a :: a in old(known) && a in results ==> a in known && known[a] == old(known)[a]
      ensures forall a :: a in known && a !in old(known) ==> old(next) <= known[a] < next
    {
      var unseen;
      unseen, cancelled := Prune(results);
      ghost var k1, n1, e1 := known, next, events;
      err, order := AdmitAll(unseen);
      SyncCoherent(newTargets, old(known), old(next), old(events), results, cancelled, k1, e1, order, known, next);
      SyncOutcome(newTargets, old(known), old(next), results, unseen, k1, err, order, known, next);
    }

    /** Some address of `results` that is not known yet fails to expand into targets. */
    ghost predicate ExpansionFails(results: set<string>, k: set<string>)
      reads this
    {
      exists a :: a in results && a !in k && NewTargets(newTargets, a).Err?
    }

    /**
     * The addresses known when round `i` of `discover` starts: `k0` before the
     * first round, afterwards the results of the round before (every earlier
     * round having synced).
     */
    static ghost function KnownBefore(polls: seq<Poll>, i: nat, k0: set<string>): set<string>
      requires i <= |polls|
      requires forall j :: 0 <= j < i ==> Resolved(polls[j].lookup).Ok?
    {
      if i == 0 then k0 else Resolved(polls[i - 1].lookup).value
    }

    /**
     * `discover`: query, sync and sleep, over and over. `polls` is what each
     * round's lookup and sleep produce; `None` means the discoverer is still
     * running after the last of them.
     */
    method Discover(polls: seq<Poll>) returns (err: Option<Error>, ghost failed: nat)
      requires Valid()
      modifies this
      ensures Valid()
      ensures err.None? ==> forall i :: 0 <= i < |polls| ==> Resolved(polls[i].lookup).Ok? && polls[i].slept.None?
      ensures err.None? && polls != [] ==> known.Keys == Resolved(polls[|polls| - 1].lookup).value
      ensures err.None? && polls == [] ==> known == old(known)
      ensures err.Some? && polls != [] && Resolved(polls[0].lookup).Err? ==> err == Some(Resolved(polls[0].lookup).error)
      // an error comes from the first round that does not end in a quiet sleep
      ensures err.Some? ==>
        && failed < |polls|
        && (forall j :: 0 <= j < failed ==> Resolved(polls[j].lookup).Ok? && polls[j].slept.None?)
      ensures err.Some? && failed < |polls| && Resolved(polls[failed].lookup).Err? ==>
        && err == Some(Resolved(polls[failed].lookup).error)
        && (forall j :: 0 <= j < failed ==> Resolved(polls[j].lookup).Ok?)
        && known.Keys == KnownBefore(polls, failed, old(known).Keys)
      ensures err.Some? && failed < |polls| && Resolved(polls[failed].lookup).Ok? ==>
        && (forall j :: 0 <= j < failed ==> Resolved(polls[j].lookup).Ok?)
        && (!ExpansionFails(Resolved(polls[failed].lookup).value, KnownBefore(polls, failed, old(known).Keys)) ==>
              err == polls[failed].slept && known.Keys == Resolved(polls[failed].lookup).value)
        && (ExpansionFails(Resolved(polls[failed].lookup).value, KnownBefore(polls, failed, old(known).Keys)) ==>
              exists a :: a in Resolved(polls[failed].lookup).value && a !in KnownBefore(polls, failed, old(known).Keys) &&
                NewTargets(newTargets, a) == Err(err.value))
    {
      var i := 0;
      while i < |polls|
        invariant 0 <= i <= |polls|
        invariant Valid()
        invariant forall j :: 0 <= j < i ==> Resolved(polls[j].lookup).Ok? && polls[j].slept.None?
        invariant i > 0 ==> known.Keys == Resolved(polls[i - 1].lookup).value
        invariant i == 0 ==> known == old(known)
        invariant known.Keys == KnownBefore(polls, i, old(known).Keys)
      {
        err := Round(polls[i]);
        if err.Some? {
          failed := i;
          return;
        }
        i := i + 1;
      }
      return None, |polls|;
    }

    /**
     * One pass of the `discover` loop: a query error is returned with nothing
     * changed; a sync fails exactly when some new address fails to expand,
     * and returns such an address's error; after a successful sync the known
     * addresses are the results and the sleep's outcome is returned.
     */
    method Round(poll: Poll) returns (err: Option<Error>)
      requires Valid()
      modifies this
      ensures Valid()
      ensures Resolved(poll.lookup).Err? ==> err == Some(Resolved(poll.lookup).error) && known == old(known)
      ensures Resolved(poll.lookup).Ok? && !ExpansionFails(Resolved(poll.lookup).value, old(known).Keys) ==>
        err == poll.slept && known.Keys == Resolved(poll.lookup).value
      ensures Resolved(poll.lookup).Ok? && ExpansionFails(Resolved(poll.lookup).value, old(known).Keys) ==>
        err.Some? && exists a :: a in Resolved(poll.lookup).value && a !in old(known) && NewTargets(newTargets, a) == Err(err.value)
    {
      var results := Query(poll.lookup);
      if results.Err? {
        return Some(results.error);
      }
      ghost var k0 := known;
      var syncErr, _, order := Sync(results.value);
      if syncErr.Some? {
        assert NewTargets(newTargets, order[|order| - 1]) == Err(syncErr.value);
        return syncErr;
      }
      forall a | a in results.value && a !in k0
        ensures NewTargets(newTargets, a).Ok?
      {
        assert a in order;
      }
      if poll.slept.Some? {
        return poll.slept;
      }
      return None;
    }
  }
}
