/**
 * The Kubernetes environment discoverer (kubernetes.go): every environment
 * line `<SERVICE>_SERVICE_PORT_<PORT NAME>=<port>` whose service also has a
 * non-empty `<SERVICE>_SERVICE_HOST` yields the target `<host>:<port>`.
 */
module Kubernetes {
  import opened Base
  import opened Types
  import opened Strings

  /** `DefaultKubernetesPortName`. */
  const DefaultPortName: string := "dogma"

  /**
   * `KubernetesEnvironmentTargetDiscoverer`: the port name (empty means the
   * default) and the optional `DialOptions` function.
   */
  datatype Discoverer = Discoverer(portName: string, dialOptions: Option<string -> seq<DialOption>>)

  /** `kubernetesNameToEnv`: dashes become underscores, letters upper case. */
  function NameToEnv(s: string): (r: string)
    ensures |r| == |s|
    ensures forall i :: 0 <= i < |s| ==> r[i] == (if s[i] == '-' then '_' else UpperChar(s[i]))
    ensures '-' !in r && forall c :: c in r ==> !IsLower(c)
  {
    ToUpper(ReplaceAll(s, '-', '_'))
  }

  /** Converting a name that is already an environment name changes nothing. */
  lemma NameToEnvIdempotent(s: string)
    ensures NameToEnv(NameToEnv(s)) == NameToEnv(s)
  {
    var r := NameToEnv(s);
    assert forall i :: 0 <= i < |r| ==> r[i] != '-' && !IsLower(r[i]);
  }

  /** The separator every port line of the configured port name contains. */
  function Separator(d: Discoverer): (r: string)
    ensures |r| >= 16 && r[..14] == "_SERVICE_PORT_" && r[|r| - 1] == '='
  {
    var portName := if d.portName == "" then DefaultPortName else d.portName;
    "_SERVICE_PORT_" + NameToEnv(portName) + "="
  }

  /** An empty port name looks for `_SERVICE_PORT_DOGMA=`. */
  lemma DefaultSeparator(d: Discoverer)
    requires d.portName == ""
    ensures Separator(d) == "_SERVICE_PORT_DOGMA="
  {
    assert NameToEnv(DefaultPortName) == "DOGMA";
  }

  /** A custom port name is converted: "custom" looks for `_SERVICE_PORT_CUSTOM=`. */
  lemma CustomSeparator(d: Discoverer)
    requires d.portName == "custom"
    ensures Separator(d) == "_SERVICE_PORT_CUSTOM="
  {
    assert NameToEnv("custom") == "CUSTOM";
  }

  /**
   * `os.Getenv(name)`: the value of the first `name=` line, or "" when there
   * is none. Keys end at the first '=' of a line, so a name holding '=' is
   * never found.
   */
  function Getenv(env: seq<string>, name: string): (r: string)
  {
    if env == [] || '=' in name then ""
    else match StripPrefix(name + "=", env[0])
      case Some(v) => v
      case None => Getenv(env[1..], name)
  }

  /** A non-empty value comes from some `name=value` line of the environment. */
  lemma {:induction false} GetenvFromLine(env: seq<string>, name: string)
    requires Getenv(env, name) != ""
    ensures exists i :: 0 <= i < |env| && env[i] == name + "=" + Getenv(env, name)
  {
    if StripPrefix(name + "=", env[0]).None? {
      GetenvFromLine(env[1..], name);
      var i :| 0 <= i < |env[1..]| && env[1..][i] == name + "=" + Getenv(env[1..], name);
      assert env[i + 1] == env[1..][i];
    }
  }

  /** The first `name=` line decides the value. */
  lemma {:induction false} GetenvFirstLine(env: seq<string>, name: string, k: nat, v: string)
    requires k < |env| && env[k] == name + "=" + v && '=' !in name
    requires forall j :: 0 <= j < k ==> StripPrefix(name + "=", env[j]).None?
    ensures Getenv(env, name) == v
  {
    StripPrefixOf(name + "=", v);
    if k > 0 {
      assert forall j :: 0 <= j < k - 1 ==> env[1..][j] == env[j + 1];
      GetenvFirstLine(env[1..], name, k - 1, v);
    }
  }

  /** The target one environment line yields, if any. */
  function TargetOf(d: Discoverer, env: seq<string>, line: string): Option<Target>
  {
    var sep := Separator(d);
    var i := Index(line, sep);
    if i < 0 then None
    else
      var port := line[i + |sep|..];
      if port == "" then None
      else
        var host := Getenv(env, line[..i] + "_SERVICE_HOST");
        if host == "" then None
        else
          var name := JoinHostPort(host, port);
          Some(Target(name, if d.dialOptions.Some? then d.dialOptions.value(name) else []))
  }

  /**
   * A line yields a target exactly when the separator occurs in it with a
   * non-empty port after its first occurrence and the service before it has
   * a non-empty host; the target is `JoinHostPort(host, port)` with the dial
   * options `DialOptions` gives for that name, or none without the function.
   */
  lemma TargetOfLine(d: Discoverer, env: seq<string>, service: string, port: string, host: string)
    requires forall j :: 0 <= j < |service| ==> !OccursAt(service + Separator(d) + port, Separator(d), j)
    requires port != "" && host == Getenv(env, service + "_SERVICE_HOST")
    ensures host == "" ==> TargetOf(d, env, service + Separator(d) + port).None?
    ensures host != "" ==>
      TargetOf(d, env, service + Separator(d) + port) == Some(Target(JoinHostPort(host, port), if d.dialOptions.Some? then d.dialOptions.value(JoinHostPort(host, port)) else []))
  {
    var sep := Separator(d);
    var line := service + sep + port;
    assert line[|service|..|service| + |sep|] == sep;
    assert OccursAt(line, sep, |service|);
    assert Index(line, sep) == |service|;
    assert line[..|service|] == service;
    assert line[|service| + |sep|..] == port;
  }

  /** Lines without the separator, or with an empty port after it, yield nothing. */
  lemma NoTargetWithoutPort(d: Discoverer, env: seq<string>, line: string)
    requires (forall j :: !OccursAt(line, Separator(d), j)) ||
      (Index(line, Separator(d)) >= 0 && Index(line, Separator(d)) + |Separator(d)| == |line|)
    ensures TargetOf(d, env, line).None?
  {
  }

  /** The targets the lines yield, in environment order. */
  function Discovered(d: Discoverer, env: seq<string>, lines: seq<string>): (r: seq<Target>)
    ensures |r| <= |lines|
  {
    if lines == [] then []
    else
      var prefix := Discovered(d, env, lines[..|lines| - 1]);
      match TargetOf(d, env, lines[|lines| - 1])
      case Some(t) => prefix + [t]
      case None => prefix
  }

  /** Every discovered target is the target of some line, named `<host>:<port>` with a non-empty port. */
  lemma {:induction false} DiscoveredFromLines(d: Discoverer, env: seq<string>, lines: seq<string>)
    ensures forall t :: t in Discovered(d, env, lines) ==> exists k :: 0 <= k < |lines| && TargetOf(d, env, lines[k]) == Some(t)
  {
    if lines != [] {
      var init := lines[..|lines| - 1];
      DiscoveredFromLines(d, env, init);
      forall t | t in Discovered(d, env, lines)
        ensures exists k :: 0 <= k < |lines| && TargetOf(d, env, lines[k]) == Some(t)
      {
        if t in Discovered(d, env, init) {
          var k :| 0 <= k < |init| && TargetOf(d, env, init[k]) == Some(t);
          assert lines[k] == init[k];
        } else {
          assert TargetOf(d, env, lines[|lines| - 1]) == Some(t);
        }
      }
    }
  }

  /** A line that yields a target contributes it: the observer sees it. */
  lemma {:induction false} LineDiscovered(d: Discoverer, env: seq<string>, lines: seq<string>, k: nat)
    requires k < |lines| && TargetOf(d, env, lines[k]).Some?
    ensures TargetOf(d, env, lines[k]).value in Discovered(d, env, lines)
  {
    var init := lines[..|lines| - 1];
    if k < |lines| - 1 {
      assert init[k] == lines[k];
      LineDiscovered(d, env, init, k);
    }
  }

  /** One iteration of the `DiscoverTargets` loop: the target `line` yields, if any. */
  method ScanLine(d: Discoverer, env: seq<string>, separator: string, line: string) returns (t: Option<Target>)
    requires separator == Separator(d)
    ensures t == TargetOf(d, env, line)
  {
    var i := Index(line, separator);
    if i < 0 {
      return None;
    }
    var port := line[i + |separator|..];
    if port == "" {
      return None;
    }
    var host := Getenv(env, line[..i] + "_SERVICE_HOST");
    if host == "" {
      return None;
    }
    var target := Target(JoinHostPort(host, port), []);
    if d.dialOptions.Some? {
      target := target.(dialOptions := d.dialOptions.value(target.name));
    }
    return Some(target);
  }

  /**
   * `DiscoverTargets`: calls the observer once per qualifying environment
   * line, in order, then blocks until the context is done and returns its
   * error. `observed` is the sequence of targets passed to the observer,
   * whose results the discoverer ignores; `doneErr` is `ctx.Err()` once
   * `ctx.Done()` is closed.
   */
  method DiscoverTargets(d: Discoverer, env: seq<string>, doneErr: Error) returns (observed: seq<Target>, err: Option<Error>)
    ensures observed == Discovered(d, env, env)
    ensures err == Some(doneErr)
  {
    var portName := d.portName;
    if portName == "" {
      portName := DefaultPortName;
    }
    var separator := "_SERVICE_PORT_" + NameToEnv(portName) + "=";
    observed := [];
    var n := 0;
    while n < |env|
      invariant 0 <= n <= |env|
      invariant observed == Discovered(d, env, env[..n])
    {
      assert env[..n + 1][..n] == env[..n];
      var t := ScanLine(d, env, separator, env[n]);
      if t.Some? {
        observed := observed + [t.value];
      }
      n := n + 1;
    }
    assert env[..|env|] == env;
    return observed, Some(doneErr);
  }
}
