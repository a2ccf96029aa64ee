/**
 * Online/Offline/Unknown classification of a credential and the first source
 * address seen on its port. The host's sockets and connection-tracking table
 * are not queried here: a `Host` value is the snapshot of what `ss` and
 * conntrack report during one request.
 */
module Liveness {
  import opened Optional
  import opened Text
  import opened Registry

  datatype Status = Online | Offline | Unknown

  datatype Host = Host(
    listening: set<string>,          // ports `ss -uHln` shows as bound UDP sockets
    flows: set<string>,              // ports with a tracked UDP flow, as dport or sport
    srcOutput: map<string, string>)  // per port: the text the source-address probe prints

  // ----- the VPN server's own port, from config.json's "listen" -----

  const ListenFallback: string := "5667"

  /** The longest run of digits at the end of `s`. */
  function TrailingDigits(s: string): (r: string)
    ensures |r| <= |s| && r == s[|s| - |r|..] && AllDigits(r)
    ensures |r| < |s| ==> !IsDigit(s[|s| - |r| - 1])
  {
    if s == [] || !IsDigit(s[|s| - 1]) then []
    else
      var init := s[..|s| - 1];
      var r := TrailingDigits(init) + [s[|s| - 1]];
      assert init[|init| - |r| + 1..] == s[|s| - |r|..|s| - 1];
      r
  }

  /** `s` ends with ':' followed by the non-empty digit string `d`. */
  predicate EndsWithColonDigits(s: string, d: string) {
    d != [] && AllDigits(d) && |d| < |s| && s[|s| - |d| - 1..] == [':'] + d
  }

  /**
   * `get_listen_port_from_config`: the digits after the final ':' of the
   * stripped "listen" value when everything after that ':' is digits
   * (`re.search(r":(\d+)$", listen)`), otherwise "5667".
   */
  function ListenPort(listen: Option<string>): (r: string)
    ensures r != ""
  {
    PortAfterColon(Strip(listen.GetOr("")))
  }

  /** The digits after the final ':' of `s` when everything after it is digits, else the fallback. */
  function PortAfterColon(s: string): string {
    var d := TrailingDigits(s);
    if d != [] && |d| < |s| && s[|s| - |d| - 1] == ':' then d else ListenFallback
  }

  /** The listen port is always a digit string: the fallback, or the digits after the value's final ':'. */
  lemma ListenPortShape(listen: Option<string>)
    ensures var r := ListenPort(listen);
      && r != [] && AllDigits(r)
      && (r == ListenFallback || EndsWithColonDigits(Strip(listen.GetOr("")), r))
  {
    PortAfterColonShape(Strip(listen.GetOr("")));
  }

  lemma PortAfterColonShape(s: string)
    ensures var r := PortAfterColon(s);
      && r != [] && AllDigits(r)
      && (r == ListenFallback || EndsWithColonDigits(s, r))
  {
    var d := TrailingDigits(s);
    if d != [] && |d| < |s| && s[|s| - |d| - 1] == ':' {
      assert s[|s| - |d| - 1..] == [':'] + s[|s| - |d|..];
      assert EndsWithColonDigits(s, d);
    } else {
      FallbackDigits();
    }
  }

  lemma FallbackDigits()
    ensures AllDigits(ListenFallback)
  {
    assert ListenFallback == ['5', '6', '6', '7'];
  }

  lemma {:induction false} TrailingDigitsAfter(prefix: string, d: string)
    requires AllDigits(d)
    ensures TrailingDigits(prefix + [':'] + d) == d
    decreases |d|
  {
    var s := prefix + [':'] + d;
    if d != [] {
      assert s[..|s| - 1] == prefix + [':'] + d[..|d| - 1];
      TrailingDigitsAfter(prefix, d[..|d| - 1]);
      assert d == d[..|d| - 1] + [d[|d| - 1]];
    } else {
      assert s[|s| - 1] == ':';
    }
  }

  /** For a listen address "host:digits" the listen port is exactly those digits. */
  lemma ListenPortOfAddress(host: string, d: string)
    requires d != [] && AllDigits(d)
    requires host == [] || !IsSpace(host[0])
    ensures ListenPort(Some(host + ":" + d)) == d
  {
    var s := host + ":" + d;
    assert s[|s| - 1] == d[|d| - 1];
    assert Unpadded(s);
    TrailingDigitsAfter(host, d);
    assert s[|s| - |d| - 1] == ':';
  }

  /** Without any ':' in the value, the fallback port is used. */
  lemma ListenPortWithoutColon(listen: string)
    requires forall i :: 0 <= i < |Strip(listen)| ==> Strip(listen)[i] != ':'
    ensures ListenPort(Some(listen)) == ListenFallback
  {
  }

  // ----- status of one credential -----

  /** `_conntrack_has(port)`: false for an empty port. */
  predicate HasFlow(host: Host, port: string) {
    port != "" && port in host.flows
  }

  /** The port a record is probed on: its own, or the server's listen port when it has none. */
  function ProbePort(u: UserRecord, listenPort: string): string {
    if u.port != "" then u.port else listenPort
  }

  /**
   * `status_for_user`: Online when a flow is tracked on the probe port,
   * otherwise Offline when the port is listening, otherwise Unknown.
   */
  function StatusFor(u: UserRecord, listenPort: string, host: Host): (r: Status)
    ensures r == Online <==> HasFlow(host, ProbePort(u, listenPort))
  {
    var port := ProbePort(u, listenPort);
    if HasFlow(host, port) then Online
    else if port in host.listening then Offline
    else Unknown
  }

  /** The three outcomes, each exactly characterised; a flow wins over a listening socket. */
  lemma StatusCases(u: UserRecord, listenPort: string, host: Host)
    ensures var port := ProbePort(u, listenPort);
      && (StatusFor(u, listenPort, host) == Online <==> HasFlow(host, port))
      && (StatusFor(u, listenPort, host) == Offline <==> !HasFlow(host, port) && port in host.listening)
      && (StatusFor(u, listenPort, host) == Unknown <==> !HasFlow(host, port) && port !in host.listening)
  {
  }

  // ----- the first source address seen on a port -----

  /** Python's `s.split(".")`. */
  function SplitDots(s: string): (r: seq<string>)
    ensures |r| >= 1
    ensures forall k :: 0 <= k < |r| ==> '.' !in r[k]
  {
    if s == [] then [""]
    else
      var rest := SplitDots(s[1..]);
      if s[0] == '.' then [""] + rest
      else [[s[0]] + rest[0]] + rest[1..]
  }

  /** `".".join(fields)`. */
  function JoinDots(fields: seq<string>): string
    requires |fields| >= 1
  {
    if |fields| == 1 then fields[0] else fields[0] + "." + JoinDots(fields[1..])
  }

  lemma {:induction false} JoinSplit(s: string)
    ensures JoinDots(SplitDots(s)) == s
  {
    if s != [] {
      JoinSplit(s[1..]);
      var rest := SplitDots(s[1..]);
      if s[0] == '.' {
        assert s == "." + s[1..];
      } else {
        if |rest| == 1 {
          assert s == [s[0]] + rest[0];
        } else {
          var tail := [[s[0]] + rest[0]] + rest[1..];
          assert tail[1..] == rest[1..];
          assert JoinDots(tail) == [s[0]] + (rest[0] + "." + JoinDots(rest[1..]));
        }
      }
    }
  }

  lemma {:induction false} SplitJoin(fields: seq<string>)
    requires |fields| >= 1
    requires forall k :: 0 <= k < |fields| ==> '.' !in fields[k]
    ensures SplitDots(JoinDots(fields)) == fields
  {
    if |fields| == 1 {
      SplitNoDot(fields[0]);
    } else {
      SplitJoin(fields[1..]);
      SplitDotsAppend(fields[0], JoinDots(fields[1..]));
      assert fields == [fields[0]] + fields[1..];
    }
  }

  lemma {:induction false} SplitNoDot(s: string)
    requires '.' !in s
    ensures SplitDots(s) == [s]
  {
    if s != [] {
      SplitNoDot(s[1..]);
      assert s == [s[0]] + s[1..];
    }
  }

  lemma {:induction false} SplitDotsAppend(a: string, b: string)
    requires '.' !in a
    ensures SplitDots(a + "." + b) == [a] + SplitDots(b)
  {
    if a == [] {
      assert ("" + "." + b)[1..] == b;
    } else {
      assert (a + "." + b)[1..] == a[1..] + "." + b;
      SplitDotsAppend(a[1..], b);
      assert a == [a[0]] + a[1..];
    }
  }

  /** `re.fullmatch(r"(?:\d{1,3}\.){3}\d{1,3}", s)`: four dot-separated runs of 1 to 3 digits. */
  predicate IsDottedQuad(s: string) {
    var fields := SplitDots(s);
    |fields| == 4 && forall k :: 0 <= k < 4 ==> 1 <= |fields[k]| <= 3 && AllDigits(fields[k])
  }

  /** Four runs of 1 to 3 digits joined by dots form an accepted address, and only such strings do. */
  lemma DottedQuadIff(s: string)
    ensures IsDottedQuad(s) <==>
      exists a, b, c, d :: s == a + "." + b + "." + c + "." + d &&
        1 <= |a| <= 3 && AllDigits(a) && 1 <= |b| <= 3 && AllDigits(b) &&
        1 <= |c| <= 3 && AllDigits(c) && 1 <= |d| <= 3 && AllDigits(d)
  {
    var f := SplitDots(s);
    if IsDottedQuad(s) {
      JoinSplit(s);
      assert f == [f[0], f[1], f[2], f[3]];
      JoinFour(f[0], f[1], f[2], f[3]);
    }
    forall a, b, c, d | s == a + "." + b + "." + c + "." + d &&
        1 <= |a| <= 3 && AllDigits(a) && 1 <= |b| <= 3 && AllDigits(b) &&
        1 <= |c| <= 3 && AllDigits(c) && 1 <= |d| <= 3 && AllDigits(d)
      ensures IsDottedQuad(s)
    {
      NoDotInDigits(a); NoDotInDigits(b); NoDotInDigits(c); NoDotInDigits(d);
      var fields := [a, b, c, d];
      JoinFour(a, b, c, d);
      SplitJoin(fields);
    }
  }

  lemma JoinFour(a: string, b: string, c: string, d: string)
    ensures JoinDots([a, b, c, d]) == a + "." + b + "." + c + "." + d
  {
    var f := [a, b, c, d];
    assert f[1..] == [b, c, d] && f[1..][1..] == [c, d] && f[1..][1..][1..] == [d];
    assert JoinDots([c, d]) == c + "." + d;
    assert JoinDots([b, c, d]) == b + "." + (c + "." + d);
    assert JoinDots(f) == a + "." + (b + "." + (c + "." + d));
  }

  lemma NoDotInDigits(s: string)
    requires AllDigits(s)
    ensures '.' !in s
  {
  }

  /**
   * `first_recent_src_ip(port)`: the stripped probe output when it is a
   * dotted quad, otherwise "" (also for an empty port).
   */
  function FirstRecentSrcIp(host: Host, port: string): (ip: string)
    ensures ip == "" || IsDottedQuad(ip)
    ensures port == "" ==> ip == ""
    ensures port != "" && port in host.srcOutput && IsDottedQuad(Strip(host.srcOutput[port])) ==> ip == Strip(host.srcOutput[port])
    ensures ip != "" ==> port != "" && port in host.srcOutput && ip == Strip(host.srcOutput[port])
  {
    if port == "" then ""
    else
      var out := Strip(if port in host.srcOutput then host.srcOutput[port] else "");
      if IsDottedQuad(out) then out else ""
  }

  // ----- the source-address probe as written -----

  const ProbeLoop: string := "\\b/ {for(i=1;i<=NF;i++) if("
  const ProbeMatch: string := "~/src=/){split("
  const ProbePrint: string := ",a,'='); print a[2]; exit}}"

  /** The part of the probe program before its first `$i`. */
  function ProbeHead(port: string): string {
    "/dport=" + port + ProbeLoop
  }

  /**
   * The awk program `first_recent_src_ip` puts between double quotes on the
   * shell command line, after Python's formatting:
   * `/dport=PORT\b/ {for(i=1;i<=NF;i++) if($i~/src=/){split($i,a,'='); print a[2]; exit}}`.
   */
  function SrcProbeProgram(port: string): string {
    ProbeHead(port) + ("$i" + (ProbeMatch + ("$i" + ProbePrint)))
  }

  /** Inside double quotes `sh` replaces `$i`, a shell variable that is not set, with nothing. */
  function ExpandUnsetI(s: string): string {
    if s == [] then []
    else if |s| >= 2 && s[0] == '$' && s[1] == 'i' then ExpandUnsetI(s[2..])
    else [s[0]] + ExpandUnsetI(s[1..])
  }

  lemma {:induction false} ExpandNoDollar(a: string, b: string)
    requires '$' !in a
    ensures ExpandUnsetI(a + b) == a + ExpandUnsetI(b)
  {
    if a != [] {
      var s := a + b;
      assert s[0] == a[0] && a[0] in a && a[0] != '$';
      assert s[1..] == a[1..] + b;
      assert ExpandUnsetI(s) == [a[0]] + ExpandUnsetI(a[1..] + b);
      ExpandNoDollar(a[1..], b);
      assert a == [a[0]] + a[1..];
    } else {
      assert a + b == b;
    }
  }

  lemma ExpandDollarI(b: string)
    ensures ExpandUnsetI("$i" + b) == ExpandUnsetI(b)
  {
    assert ("$i" + b)[2..] == b;
  }

  lemma PiecesWithoutDollar()
    ensures '$' !in "/dport=" && '$' !in ProbeLoop && '$' !in ProbeMatch && '$' !in ProbePrint
  {
    LoopWithoutDollar();
    PrintWithoutDollar();
  }

  lemma LoopWithoutDollar()
    ensures '$' !in ProbeLoop
  {
  }

  lemma PrintWithoutDollar()
    ensures '$' !in ProbePrint
  {
  }

  lemma ExpandNone(a: string)
    requires '$' !in a
    ensures ExpandUnsetI(a) == a
  {
    ExpandNoDollar(a, "");
    assert a + "" == a;
  }

  /**
   * The program awk receives: both `$i` field references are gone, leaving
   * the match `~/src=/` and the call `split(,a,'=')` without their first
   * operand. awk rejects that text, so the probe prints nothing.
   */
  lemma SrcProbeProgramExpanded(port: string)
    requires '$' !in port
    ensures ExpandUnsetI(SrcProbeProgram(port)) == ProbeHead(port) + (ProbeMatch + ProbePrint)
  {
    PiecesWithoutDollar();
    assert '$' !in ProbeHead(port);
    var tail := ProbeMatch + ("$i" + ProbePrint);
    ExpandNoDollar(ProbeHead(port), "$i" + tail);
    ExpandDollarI(tail);
    ExpandNoDollar(ProbeMatch, "$i" + ProbePrint);
    ExpandDollarI(ProbePrint);
    ExpandNone(ProbePrint);
  }

  /** The host as the probe as written sees it: the probe prints nothing on any port. */
  function SilentProbe(host: Host): Host {
    host.(srcOutput := map[])
  }

  /** `first_recent_src_ip` as written: whatever the host's flows, it answers "". */
  function FirstRecentSrcIpAsWritten(host: Host, port: string): (ip: string)
    ensures ip == ""
  {
    FirstRecentSrcIp(SilentProbe(host), port)
  }

  /** A flow from 10.0.0.2 on port 6000: the intended probe reports the address, the written one does not. */
  lemma SrcProbeAsWrittenCounterexample()
    ensures var host := Host({}, {"6000"}, map["6000" := "10.0.0.2"]);
      && FirstRecentSrcIp(host, "6000") == "10.0.0.2"
      && FirstRecentSrcIpAsWritten(host, "6000") == ""
  {
    var host := Host({}, {"6000"}, map["6000" := "10.0.0.2"]);
    var ip := "10.0.0.2";
    TenZeroZeroTwo();
    assert "6000" in host.srcOutput && host.srcOutput["6000"] == ip;
    assert FirstRecentSrcIp(host, "6000") == ip;
  }

  lemma TenZeroZeroTwo()
    ensures IsDottedQuad("10.0.0.2") && Strip("10.0.0.2") == "10.0.0.2"
  {
    TenZeroZeroTwoQuad();
    StripUnpadded("10.0.0.2");
  }

  lemma TenZeroZeroTwoQuad()
    ensures IsDottedQuad("10.0.0.2")
  {
    assert AllDigits("10") && AllDigits("0") && AllDigits("2");
    FieldsQuad("10", "0", "0", "2");
    TenZeroZeroTwoJoined();
  }

  lemma FieldsQuad(a: string, b: string, c: string, d: string)
    requires 1 <= |a| <= 3 && AllDigits(a) && 1 <= |b| <= 3 && AllDigits(b)
    requires 1 <= |c| <= 3 && AllDigits(c) && 1 <= |d| <= 3 && AllDigits(d)
    ensures IsDottedQuad(JoinDots([a, b, c, d]))
  {
    NoDotInDigits(a); NoDotInDigits(b); NoDotInDigits(c); NoDotInDigits(d);
    SplitJoin([a, b, c, d]);
  }

  lemma TenZeroZeroTwoJoined()
    ensures JoinDots(["10", "0", "0", "2"]) == "10.0.0.2"
  {
    JoinFour("10", "0", "0", "2");
    assert "10" + "." + "0" + "." + "0" + "." + "2" == "10.0.0.2";
  }

  lemma StripUnpadded(s: string)
    requires Unpadded(s)
    ensures Strip(s) == s
  {
    StripSpec(s);
  }

}
