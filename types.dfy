/**
 * Entities shared by the discovery components: dial targets, application
 * identities, connections and the error values the components create, wrap,
 * compare and render.
 */
module Types {
  import opened Base

  /** An opaque `grpc.DialOption`; only its identity matters to the core. */
  datatype DialOption = DialOption(id: nat)

  /** A dialable gRPC target: its name and its own dial options. */
  datatype Target = Target(name: string, dialOptions: seq<DialOption>)

  /** A Dogma application identity (name and key). */
  datatype Identity = Identity(name: string, key: string)

  /** How an identity is rendered inside error messages: "<name>/<key>". */
  function IdentityText(id: Identity): string
  {
    id.name + "/" + id.key
  }

  /** A connection to a target: the target and an opaque client-connection handle. */
  datatype Connection = Connection(target: Target, client: nat)

  /** A Dogma application discovered on a connection. */
  datatype Application = Application(identity: Identity, connection: Connection)

  /** gRPC status codes the core distinguishes. */
  datatype Code = Unimplemented | Unknown | Unavailable | OtherCode(number: nat)

  function CodeName(c: Code): string
  {
    match c
    case Unimplemented => "Unimplemented"
    case Unknown => "Unknown"
    case Unavailable => "Unavailable"
    case OtherCode(_) => "Code"
  }

  /** Opaque references to the discoverer and observer recorded in an observer error. */
  type Ref = nat

  /**
   * Go error values. The two context sentinels are compared by identity in
   * the source, which here is constructor equality: a wrapped cancellation is
   * not `Canceled`.
   */
  datatype Error =
    | Canceled                                    // context.Canceled
    | DeadlineExceeded                            // context.DeadlineExceeded
    | Plain(text: string)                         // errors.New(text)
    | Status(code: Code, desc: string)            // an error carrying a gRPC status
    | DnsFailure(text: string, isTemporary: bool, isNotFound: bool)  // *net.DNSError
    | Wrapped(context: string, cause: Error)      // fmt.Errorf("<context>: %w", cause)
    | TargetObserverError(discoverer: Ref, observer: Ref, target: Target, cause: Error)
    | DiscoverObserverError(discoverer: Ref, observer: Ref, target: Target, cause: Error)
    | ApplicationObserverError(discoverer: Ref, observer: Ref, application: Application, cause: Error)

  const FailurePrefix: string := "failure observing '"

  /** The text of an observer failure: "failure observing '<subject>' <kind>: <cause>". */
  function FailureText(subject: string, kind: string, cause: string): string
  {
    FailurePrefix + (subject + ("'" + (" " + (kind + (":" + (" " + cause))))))
  }

  /** `err.Error()`. */
  function Message(e: Error): string
  {
    match e
    case Canceled => "context canceled"
    case DeadlineExceeded => "context deadline exceeded"
    case Plain(t) => t
    case Status(c, d) => "rpc error: code = " + CodeName(c) + " desc = " + d
    case DnsFailure(t, _, _) => t
    case Wrapped(ctx, cause) => ctx + ": " + Message(cause)
    case TargetObserverError(_, _, t, cause) => FailureText(t.name, "target", Message(cause))
    case DiscoverObserverError(_, _, t, cause) => FailureText(t.name, "target", Message(cause))
    case ApplicationObserverError(_, _, a, cause) =>
      FailureText(IdentityText(a.identity), "application", Message(cause))
  }

  /** `errors.Unwrap(err)`: the cause of a wrapping error, nil otherwise. */
  function Unwrap(e: Error): Option<Error>
  {
    match e
    case Wrapped(_, cause) => Some(cause)
    case TargetObserverError(_, _, _, cause) => Some(cause)
    case DiscoverObserverError(_, _, _, cause) => Some(cause)
    case ApplicationObserverError(_, _, _, cause) => Some(cause)
    case _ => None
  }

  /** `errors.Is(err, target)`: `target` is on the chain of `err`'s causes. */
  predicate Is(e: Error, target: Error)
  {
    e == target ||
    match e
    case Wrapped(_, cause) => Is(cause, target)
    case TargetObserverError(_, _, _, cause) => Is(cause, target)
    case DiscoverObserverError(_, _, _, cause) => Is(cause, target)
    case ApplicationObserverError(_, _, _, cause) => Is(cause, target)
    case _ => false
  }

  /** The index of the first `c` in `s`, or -1. */
  function FirstIndexOf(s: string, c: char): (r: int)
    ensures -1 <= r < |s|
    ensures r != -1 ==> s[r] == c && c !in s[..r]
    ensures r == -1 ==> c !in s
  {
    if s == [] then -1
    else if s[0] == c then 0
    else var i := FirstIndexOf(s[1..], c); if i == -1 then -1 else i + 1
  }

  /** What follows the prefix `p` in `s`, or None when `s` does not start with `p`. */
  function StripPrefix(p: string, s: string): (r: Option<string>)
    ensures r.Some? ==> s == p + r.value
  {
    if |p| <= |s| && s[..|p|] == p then Some(s[|p|..]) else None
  }

  /** `s` cut at its first `c`, or None when there is none. */
  function Cut(s: string, c: char): (r: Option<(string, string)>)
    ensures r.Some? ==> s == r.value.0 + [c] + r.value.1 && c !in r.value.0
  {
    var i := FirstIndexOf(s, c);
    if i < 0 then None else Some((s[..i], s[i + 1..]))
  }

  /**
   * Reads the subject, kind and cause text back out of an observer-failure
   * message; None when the text does not have that shape.
   */
  function ParseFailureText(s: string): Option<(string, string, string)>
  {
    match StripPrefix(FailurePrefix, s)
    case None => None
    case Some(rest) =>
      match Cut(rest, '\'')
      case None => None
      case Some((subject, r1)) =>
        match StripPrefix(" ", r1)
        case None => None
        case Some(r2) =>
          match Cut(r2, ':')
          case None => None
          case Some((kind, r3)) =>
            match StripPrefix(" ", r3)
            case None => None
            case Some(cause) => Some((subject, kind, cause))
  }

  lemma StripPrefixOf(p: string, t: string)
    ensures StripPrefix(p, p + t) == Some(t)
  {
    assert (p + t)[..|p|] == p;
    assert (p + t)[|p|..] == t;
  }

  lemma {:induction false} FirstIndexAfter(a: string, c: char, b: string)
    requires c !in a
    ensures FirstIndexOf(a + ([c] + b), c) == |a|
  {
    if a != [] {
      assert (a + ([c] + b))[1..] == a[1..] + ([c] + b);
      FirstIndexAfter(a[1..], c, b);
    }
  }

  lemma CutAt(a: string, c: char, b: string)
    requires c !in a
    ensures Cut(a + ([c] + b), c) == Some((a, b))
  {
    FirstIndexAfter(a, c, b);
    var s := a + ([c] + b);
    assert s[..|a|] == a;
    assert s[|a| + 1..] == b;
  }

  /** The kinds of observer failure contain no colon. */
  lemma KindsHaveNoColon()
    ensures ':' !in "target" && ':' !in "application"
  {
    assert "target" == ['t', 'a', 'r', 'g', 'e', 't'];
    assert "application" == ['a', 'p', 'p', 'l', 'i', 'c', 'a', 't', 'i', 'o', 'n'];
  }

  /**
   * The message of an observer failure names its subject, its kind and its
   * cause recoverably, provided the subject holds no quote and the kind no colon.
   */
  lemma FailureTextRoundTrip(subject: string, kind: string, cause: string)
    requires '\'' !in subject && ':' !in kind
    ensures ParseFailureText(FailureText(subject, kind, cause)) == Some((subject, kind, cause))
  {
    var r3 := " " + cause;
    var r2 := kind + (":" + r3);
    var r1 := " " + r2;
    var rest := subject + ("'" + r1);
    StripPrefixOf(FailurePrefix, rest);
    CutAt(subject, '\'', r1);
    StripPrefixOf(" ", r2);
    CutAt(kind, ':', r3);
    StripPrefixOf(" ", cause);
  }
}
