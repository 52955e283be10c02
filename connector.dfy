/**
 * The connector (connector.go): a discover observer that asks the optional
 * `Ignore` predicate about each discovered target, dials the rest with the
 * connector's default dial options followed by the target's own, hands the
 * connection to its connect observer and closes it once the observer
 * returns.
 */
module Connecting {
  import opened Base
  import opened Types

  /** Which dial function is used: `grpc.Dial` when `Dial` is nil. */
  datatype Dialer = GrpcDial | CustomDial

  /** `Connector`: whether `Ignore` and `Dial` are set, and the default dial options. */
  datatype Connector = Connector(hasIgnore: bool, hasDial: bool, dialOptions: seq<DialOption>)

  /** The calls the connector makes on the code it is configured with. */
  datatype Call =
    | AskIgnore(target: Target)
    | Dial(dialer: Dialer, name: string, options: seq<DialOption>)
    | Connected(target: Target, conn: nat)
    | Close(conn: nat)

  /**
   * What the foreign calls return when they are made: `Ignore`'s verdict and
   * error, the dial's connection handle or error, and the connect observer's error.
   */
  datatype Outcomes = Outcomes(ignore: bool, ignoreErr: Option<Error>, dialed: Result<nat, Error>, observed: Option<Error>)

  /** The dial options for `t`: the connector's defaults, then the target's own. */
  function Options(c: Connector, t: Target): (r: seq<DialOption>)
    ensures |r| == |c.dialOptions| + |t.dialOptions|
    ensures r[..|c.dialOptions|] == c.dialOptions && r[|c.dialOptions|..] == t.dialOptions
  {
    c.dialOptions + t.dialOptions
  }

  /** `TargetDiscovered`: the error it returns and the calls it makes, in order. */
  function TargetDiscovered(c: Connector, t: Target, o: Outcomes): (r: (Option<Error>, seq<Call>))
    ensures c.hasIgnore && (o.ignore || o.ignoreErr.Some?) ==> r == (o.ignoreErr, [AskIgnore(t)])
  {
    var asked := if c.hasIgnore then [AskIgnore(t)] else [];
    if c.hasIgnore && (o.ignore || o.ignoreErr.Some?) then (o.ignoreErr, asked)
    else
      var dial := Dial(if c.hasDial then CustomDial else GrpcDial, t.name, Options(c, t));
      match o.dialed
      case Err(e) => (Some(e), asked + [dial])
      case Ok(conn) => (o.observed, asked + [dial, Connected(t, conn), Close(conn)])
  }

  /** A target is dialed exactly when it is not ignored, and with `grpc.Dial` when no `Dial` is set. */
  lemma DialedUnlessIgnored(c: Connector, t: Target, o: Outcomes)
    ensures (exists d :: d in TargetDiscovered(c, t, o).1 && d.Dial?) <==> !c.hasIgnore || (!o.ignore && o.ignoreErr.None?)
    ensures forall d :: d in TargetDiscovered(c, t, o).1 && d.Dial? ==>
      d == Dial(if c.hasDial then CustomDial else GrpcDial, t.name, c.dialOptions + t.dialOptions)
  {
    var calls := TargetDiscovered(c, t, o).1;
    if !c.hasIgnore || (!o.ignore && o.ignoreErr.None?) {
      var asked := if c.hasIgnore then [AskIgnore(t)] else [];
      assert calls[|asked|].Dial?;
    }
    assert Options(c, t) == c.dialOptions + t.dialOptions;
  }

  /**
   * The connect observer is called only after a successful dial, its result
   * is returned verbatim, and the connection is closed exactly once, right
   * after it returns.
   */
  lemma ObserverAfterSuccessfulDial(c: Connector, t: Target, o: Outcomes)
    ensures (exists x :: x in TargetDiscovered(c, t, o).1 && x.Connected?) <==>
      (!c.hasIgnore || (!o.ignore && o.ignoreErr.None?)) && o.dialed.Ok?
    ensures (!c.hasIgnore || (!o.ignore && o.ignoreErr.None?)) && o.dialed.Ok? ==>
      var calls := TargetDiscovered(c, t, o).1;
      && TargetDiscovered(c, t, o).0 == o.observed
      && |calls| >= 3
      && calls[|calls| - 2] == Connected(t, o.dialed.value)
      && calls[|calls| - 1] == Close(o.dialed.value)
      && Count(calls, Close(o.dialed.value)) == 1
  {
    var calls := TargetDiscovered(c, t, o).1;
    var asked := if c.hasIgnore then [AskIgnore(t)] else [];
    if (!c.hasIgnore || (!o.ignore && o.ignoreErr.None?)) && o.dialed.Ok? {
      var conn := o.dialed.value;
      var dial := Dial(if c.hasDial then CustomDial else GrpcDial, t.name, Options(c, t));
      assert calls == asked + [dial, Connected(t, conn), Close(conn)];
      assert calls[|asked| + 1].Connected?;
      CountAppend(asked, [dial, Connected(t, conn), Close(conn)], Close(conn));
      assert [dial, Connected(t, conn), Close(conn)][1..][1..] == [Close(conn)];
    }
  }

  /** A dial error is returned and neither the observer nor `Close` is called. */
  lemma DialErrorPassesThrough(c: Connector, t: Target, o: Outcomes)
    requires !c.hasIgnore || (!o.ignore && o.ignoreErr.None?)
    requires o.dialed.Err?
    ensures TargetDiscovered(c, t, o).0 == Some(o.dialed.error)
    ensures forall x :: x in TargetDiscovered(c, t, o).1 ==> !x.Connected? && !x.Close?
  {
  }
}
