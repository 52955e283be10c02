/**
 * The parts of Go's `strings` and `net` packages the core relies on, restricted
 * to ASCII case mapping: lower- and upper-casing, single-character replacement,
 * substring search and host/port joining.
 */
module Strings {

  predicate IsUpper(c: char) { 'A' <= c <= 'Z' }

  predicate IsLower(c: char) { 'a' <= c <= 'z' }

  function LowerChar(c: char): (d: char)
    ensures !IsUpper(d)
    ensures IsUpper(c) ==> IsLower(d)
    ensures !IsUpper(c) ==> d == c
  {
    if IsUpper(c) then c - 'A' + 'a' else c
  }

  function UpperChar(c: char): (d: char)
    ensures !IsLower(d)
    ensures IsLower(c) ==> IsUpper(d)
    ensures !IsLower(c) ==> d == c
  {
    if IsLower(c) then c - 'a' + 'A' else c
  }

  /** `strings.ToLower` on ASCII letters. */
  function ToLower(s: string): (r: string)
    ensures |r| == |s|
    ensures forall i :: 0 <= i < |s| ==> r[i] == LowerChar(s[i])
  {
    seq(|s|, i requires 0 <= i < |s| => LowerChar(s[i]))
  }

  /** `strings.ToUpper` on ASCII letters. */
  function ToUpper(s: string): (r: string)
    ensures |r| == |s|
    ensures forall i :: 0 <= i < |s| ==> r[i] == UpperChar(s[i])
  {
    seq(|s|, i requires 0 <= i < |s| => UpperChar(s[i]))
  }

  /** `strings.ReplaceAll(s, from, to)` for one-character `from` and `to`. */
  function ReplaceAll(s: string, from: char, to: char): (r: string)
    ensures |r| == |s|
    ensures forall i :: 0 <= i < |s| ==> r[i] == if s[i] == from then to else s[i]
  {
    seq(|s|, i requires 0 <= i < |s| => if s[i] == from then to else s[i])
  }

  /** Lower-casing twice is lower-casing once. */
  lemma ToLowerIdempotent(s: string)
    ensures ToLower(ToLower(s)) == ToLower(s)
  {
  }

  /** True when `sub` occurs in `s` starting at index `i`. */
  predicate OccursAt(s: string, sub: string, i: int)
  {
    0 <= i && i + |sub| <= |s| && s[i..i + |sub|] == sub
  }

  /** `strings.Index(s, sub)` from position `from` on: the first occurrence, or -1. */
  function IndexFrom(s: string, sub: string, from: nat): (r: int)
    requires from <= |s|
    decreases |s| - from
    ensures r == -1 || (from <= r && OccursAt(s, sub, r))
    ensures r == -1 ==> forall j :: from <= j ==> !OccursAt(s, sub, j)
    ensures r != -1 ==> forall j :: from <= j < r ==> !OccursAt(s, sub, j)
  {
    if from + |sub| > |s| then -1
    else if OccursAt(s, sub, from) then from
    else if from == |s| then -1
    else IndexFrom(s, sub, from + 1)
  }

  /** `strings.Index(s, sub)`: the index of the first occurrence of `sub` in `s`, or -1. */
  function Index(s: string, sub: string): (r: int)
    ensures r == -1 <==> forall j :: !OccursAt(s, sub, j)
    ensures r != -1 ==> OccursAt(s, sub, r) && forall j :: 0 <= j < r ==> !OccursAt(s, sub, j)
  {
    IndexFrom(s, sub, 0)
  }

  /**
   * `net.JoinHostPort`: a host that holds a colon is taken to be a literal
   * IPv6 address and is put in square brackets.
   */
  function JoinHostPort(host: string, port: string): string
  {
    if ':' in host then "[" + host + "]:" + port else host + ":" + port
  }

  /** The index of the last `c` in `s`, or -1. */
  function LastIndexOf(s: string, c: char): (r: int)
    ensures -1 <= r < |s|
    ensures r != -1 ==> s[r] == c && c !in s[r + 1..]
    ensures r == -1 ==> c !in s
  {
    if s == [] then -1
    else if s[|s| - 1] == c then |s| - 1
    else LastIndexOf(s[..|s| - 1], c)
  }

  /**
   * Splits an address at its last colon and strips the square brackets of a
   * bracketed host: the inverse of JoinHostPort used to state its round trip.
   */
  function SplitHostPort(s: string): (r: (string, string))
  {
    var i := LastIndexOf(s, ':');
    if i < 0 then (s, "")
    else
      var host := s[..i];
      if 2 <= |host| && host[0] == '[' && host[|host| - 1] == ']'
      then (host[1..|host| - 1], s[i + 1..])
      else (host, s[i + 1..])
  }

  /**
   * Joining a host and a colon-free port and splitting the result gives them
   * back, provided a colon-free host is not itself written in brackets.
   */
  lemma JoinSplitRoundTrip(host: string, port: string)
    requires ':' !in port
    requires ':' !in host ==> host == [] || host[0] != '[' || host[|host| - 1] != ']'
    ensures SplitHostPort(JoinHostPort(host, port)) == (host, port)
  {
    var s := JoinHostPort(host, port);
    var pre := if ':' in host then "[" + host + "]" else host;
    assert s == pre + ":" + port;
    LastIndexAfter(pre, port);
    assert s[..|pre|] == pre;
    assert s[|pre| + 1..] == port;
    if ':' in host {
      assert pre[1..|pre| - 1] == host;
    }
  }

  lemma LastIndexAfter(pre: string, port: string)
    requires ':' !in port
    ensures LastIndexOf(pre + ":" + port, ':') == |pre|
  {
    var s := pre + ":" + port;
    TailFree(pre + ":", port, ':');
    LastIndexIs(s, ':', |pre|);
  }

  lemma TailFree(a: string, b: string, c: char)
    requires c !in b
    ensures forall j :: |a| <= j < |a + b| ==> (a + b)[j] != c
  {
    forall j | |a| <= j < |a + b|
      ensures (a + b)[j] != c
    {
      assert (a + b)[j] == b[j - |a|];
    }
  }

  /** The last `c` is at `k` when `s[k]` is `c` and none follows it. */
  lemma {:induction false} LastIndexIs(s: string, c: char, k: nat)
    requires k < |s| && s[k] == c
    requires forall j :: k < j < |s| ==> s[j] != c
    ensures LastIndexOf(s, c) == k
  {
    if k < |s| - 1 {
      var init := s[..|s| - 1];
      assert forall j :: k < j < |init| ==> init[j] == s[j];
      LastIndexIs(init, c, k);
    }
  }
}
