/**
 * One-device lock: the UDP rules of the host's INPUT chain that the panel
 * inserts and deletes. The chain is a sequence of rules, first rule first;
 * `iptables -I` puts a rule in front, `iptables -D` takes one out.
 */
module Firewall {
  import opened Optional
  import opened Text
  import opened Registry

  datatype Target = Accept | Drop | OtherTarget(name: string)

  /** `-p udp` (or not) `--dport dport` `[!] -s src` `-j target`. */
  datatype Rule = Rule(udp: bool, dport: string, src: string, notSrc: bool, target: Target)

  /** Let the bound address in on the port. */
  function AcceptRule(port: string, ip: string): Rule {
    Rule(true, port, ip, false, Accept)
  }

  /** Drop every other source on the port. */
  function DropRule(port: string, ip: string): Rule {
    Rule(true, port, ip, true, Drop)
  }

  /** What the removal query matches: a UDP rule on destination `port` jumping to ACCEPT or DROP. */
  predicate LimitRule(r: Rule, port: string) {
    r.udp && r.dport == port && (r.target == Accept || r.target == Drop)
  }

  function CountLimit(rules: seq<Rule>, port: string): nat {
    if rules == [] then 0
    else (if LimitRule(rules[0], port) then 1 else 0) + CountLimit(rules[1..], port)
  }

  /** The rules that are not limit rules for `port`, in chain order. */
  function Others(rules: seq<Rule>, port: string): (r: seq<Rule>)
    ensures forall x :: x in r ==> x in rules && !LimitRule(x, port)
  {
    if rules == [] then []
    else if LimitRule(rules[0], port) then Others(rules[1..], port)
    else [rules[0]] + Others(rules[1..], port)
  }

  /** `Others` keeps every rule that is not a limit rule of the port, and drops exactly the limit rules. */
  lemma {:induction false} OthersExactly(rules: seq<Rule>, port: string)
    ensures forall x :: x in rules && !LimitRule(x, port) ==> x in Others(rules, port)
    ensures |Others(rules, port)| + CountLimit(rules, port) == |rules|
  {
    if rules != [] {
      OthersExactly(rules[1..], port);
      assert forall x :: x in rules ==> x == rules[0] || x in rules[1..];
    }
  }

  /** `Others` keeps chain order: the kept rules of a + b are those of a, then those of b. */
  lemma {:induction false} OthersAppend(a: seq<Rule>, b: seq<Rule>, port: string)
    ensures Others(a + b, port) == Others(a, port) + Others(b, port)
  {
    if a == [] {
      assert a + b == b;
    } else {
      assert (a + b)[0] == a[0];
      assert (a + b)[1..] == a[1..] + b;
      OthersAppend(a[1..], b, port);
    }
  }

  /** A single rule is kept exactly when it is not a limit rule of the port. */
  lemma OthersSingle(x: Rule, port: string)
    ensures Others([x], port) == if LimitRule(x, port) then [] else [x]
  {
    assert [x][1..] == [];
  }

  /** The position of the first limit rule for `port`: the line `iptables -S INPUT | grep ... | head -n1` finds. */
  function FirstLimit(rules: seq<Rule>, port: string): (r: Option<nat>)
    ensures r.Some? ==> r.value < |rules| && LimitRule(rules[r.value], port)
    ensures r.Some? ==> forall j :: 0 <= j < r.value ==> !LimitRule(rules[j], port)
    ensures r.None? <==> CountLimit(rules, port) == 0
  {
    if rules == [] then None
    else if LimitRule(rules[0], port) then Some(0)
    else match FirstLimit(rules[1..], port)
      case None => None
      case Some(i) => Some(i + 1)
  }

  // ----- remove_limit_rules -----

  /** How many deletions `remove_limit_rules` attempts at most. */
  const MaxDeletes: nat := 30

  /**
   * The chain with its first `n` limit rules for `port` taken out. Every
   * other rule stays, in order; if there were at most `n`, none is left.
   */
  function DropFirstLimits(rules: seq<Rule>, port: string, n: nat): seq<Rule> {
    if rules == [] then []
    else if n > 0 && LimitRule(rules[0], port) then DropFirstLimits(rules[1..], port, n - 1)
    else [rules[0]] + DropFirstLimits(rules[1..], port, n)
  }

  /** What dropping leaves: `n` fewer limit rules (none if there were at most `n`), the other rules in order, nothing new. */
  lemma {:induction false} DropFirstLimitsSpec(rules: seq<Rule>, port: string, n: nat)
    ensures var r := DropFirstLimits(rules, port, n);
      && CountLimit(r, port) == (if CountLimit(rules, port) <= n then 0 else CountLimit(rules, port) - n)
      && Others(r, port) == Others(rules, port)
      && multiset(r) <= multiset(rules)
  {
    if rules != [] {
      assert rules == [rules[0]] + rules[1..];
      if n > 0 && LimitRule(rules[0], port) {
        DropFirstLimitsSpec(rules[1..], port, n - 1);
      } else {
        var r := DropFirstLimits(rules, port, n);
        DropFirstLimitsSpec(rules[1..], port, n);
        assert r[0] == rules[0] && r[1..] == DropFirstLimits(rules[1..], port, n);
      }
    }
  }

  lemma {:induction false} DropNothing(rules: seq<Rule>, port: string, n: nat)
    requires n == 0 || CountLimit(rules, port) == 0
    ensures DropFirstLimits(rules, port, n) == rules
  {
    if rules != [] {
      DropNothing(rules[1..], port, n);
    }
  }

  /** Deleting the first limit rule is dropping one. */
  lemma {:induction false} DeleteFirstIsDropOne(rules: seq<Rule>, port: string)
    requires FirstLimit(rules, port).Some?
    ensures var i := FirstLimit(rules, port).value;
      rules[..i] + rules[i + 1..] == DropFirstLimits(rules, port, 1)
  {
    var i := FirstLimit(rules, port).value;
    if i == 0 {
      DropNothing(rules[1..], port, 0);
    } else {
      DeleteFirstIsDropOne(rules[1..], port);
      assert rules[1..][..i - 1] + rules[1..][i..] == rules[1..i] + rules[i + 1..];
    }
  }

  /** Dropping `a` and then `b` limit rules drops `a + b` of them. */
  lemma {:induction false} DropCompose(rules: seq<Rule>, port: string, a: nat, b: nat)
    ensures DropFirstLimits(DropFirstLimits(rules, port, a), port, b) == DropFirstLimits(rules, port, a + b)
  {
    if rules != [] {
      if a > 0 && LimitRule(rules[0], port) {
        DropCompose(rules[1..], port, a - 1, b);
      } else if LimitRule(rules[0], port) {
        DropNothing(rules, port, 0);
        if b > 0 {
          DropNothing(rules[1..], port, 0);
        }
      } else {
        DropCompose(rules[1..], port, a, b);
        var d := DropFirstLimits(rules, port, a);
        assert d == [rules[0]] + DropFirstLimits(rules[1..], port, a);
        assert d[1..] == DropFirstLimits(rules[1..], port, a);
      }
    }
  }

  /**
   * `remove_limit_rules(port)`: up to 30 times, find the first limit rule
   * for the port and delete it; stop early when none is left.
   */
  method RemoveLimitRules(rules: seq<Rule>, port: string) returns (after: seq<Rule>)
    ensures port == "" ==> after == rules
    ensures port != "" ==> after == DropFirstLimits(rules, port, MaxDeletes)
  {
    after := rules;
    if port == "" {
      return;
    }
    DropNothing(rules, port, 0);
    var k := 0;
    while k < MaxDeletes
      invariant 0 <= k <= MaxDeletes
      invariant after == DropFirstLimits(rules, port, k)
    {
      var found := FirstLimit(after, port);
      if found.None? {
        DropCompose(rules, port, k, MaxDeletes - k);
        DropNothing(after, port, MaxDeletes - k);
        return;
      }
      DeleteFirstIsDropOne(after, port);
      DropCompose(rules, port, k, 1);
      after := after[..found.value] + after[found.value + 1..];
      k := k + 1;
    }
  }

  /**
   * With at most 30 limit rules for the port, removal leaves none of them,
   * keeps every other rule in order and adds nothing; with more, 30 go.
   */
  lemma RemovalClearsPort(rules: seq<Rule>, port: string)
    requires port != ""
    ensures var after := DropFirstLimits(rules, port, MaxDeletes);
      && (CountLimit(rules, port) <= MaxDeletes ==> CountLimit(after, port) == 0)
      && (CountLimit(rules, port) > MaxDeletes ==> CountLimit(after, port) == CountLimit(rules, port) - MaxDeletes)
      && Others(after, port) == Others(rules, port)
      && multiset(after) <= multiset(rules)
  {
    DropFirstLimitsSpec(rules, port, MaxDeletes);
  }

  // ----- ensure_limit_rules -----

  /**
   * `ensure_limit_rules(port, ip)` as intended: when the ACCEPT rule for
   * (port, ip) is missing, insert it at the top; then the same for the DROP
   * rule for other sources. Nothing happens when port or ip is empty.
   */
  function EnsureLimits(rules: seq<Rule>, port: string, ip: string): (r: seq<Rule>)
    ensures port != "" && ip != "" ==> AcceptRule(port, ip) in r && DropRule(port, ip) in r
    ensures port == "" || ip == "" ==> r == rules
    ensures |rules| <= |r| <= |rules| + 2 && r[|r| - |rules|..] == rules
    ensures forall k :: 0 <= k < |r| - |rules| ==> r[k] == AcceptRule(port, ip) || r[k] == DropRule(port, ip)
    ensures AcceptRule(port, ip) in rules ==> multiset(r)[AcceptRule(port, ip)] == multiset(rules)[AcceptRule(port, ip)]
    ensures DropRule(port, ip) in rules ==> multiset(r)[DropRule(port, ip)] == multiset(rules)[DropRule(port, ip)]
  {
    if port == "" || ip == "" then rules
    else
      var accept := AcceptRule(port, ip);
      var drop := DropRule(port, ip);
      var withAccept := if accept in rules then rules else [accept] + rules;
      if drop in withAccept then withAccept else [drop] + withAccept
  }

  /** Ensuring twice is ensuring once. */
  lemma EnsureIdempotent(rules: seq<Rule>, port: string, ip: string)
    ensures EnsureLimits(EnsureLimits(rules, port, ip), port, ip) == EnsureLimits(rules, port, ip)
  {
  }

  /** From a chain without them, one or two calls leave exactly one ACCEPT and one DROP rule. */
  lemma EnsureExactlyOnce(rules: seq<Rule>, port: string, ip: string)
    requires port != "" && ip != ""
    requires AcceptRule(port, ip) !in rules && DropRule(port, ip) !in rules
    ensures var once := EnsureLimits(rules, port, ip);
      && multiset(once)[AcceptRule(port, ip)] == 1 && multiset(once)[DropRule(port, ip)] == 1
      && EnsureLimits(once, port, ip) == once
  {
    var accept, drop := AcceptRule(port, ip), DropRule(port, ip);
    assert multiset(rules)[accept] == 0 && multiset(rules)[drop] == 0;
    assert EnsureLimits(rules, port, ip) == [drop] + ([accept] + rules);
  }

  /** The outcome of `subprocess.run`; only the exit status is kept. */
  datatype Completed = Completed(returnCode: int)

  /**
   * Python's truth value of a `CompletedProcess`: the class defines neither
   * `__bool__` nor `__len__`, so every instance is true, whatever its exit status.
   */
  predicate Truthy(c: Completed) {
    true
  }

  /** `iptables -C`: exit status 0 when the rule is in the chain, 1 when it is not. */
  function CheckRule(rules: seq<Rule>, rule: Rule): (c: Completed)
    ensures c.returnCode == 0 <==> rule in rules
  {
    Completed(if rule in rules then 0 else 1)
  }

  /**
   * `ensure_limit_rules` as written: `ipt(check) or ipt(insert)` runs the
   * insert only when the check's result is false, which it never is.
   */
  function EnsureLimitsAsWritten(rules: seq<Rule>, port: string, ip: string): (r: seq<Rule>)
    ensures port == "" || ip == "" ==> r == rules
  {
    if port == "" || ip == "" then rules
    else
      var accept := AcceptRule(port, ip);
      var drop := DropRule(port, ip);
      var withAccept := if Truthy(CheckRule(rules, accept)) then rules else [accept] + rules;
      if Truthy(CheckRule(withAccept, drop)) then withAccept else [drop] + withAccept
  }

  /** As written, the chain is never changed, so no lock is ever put in place. */
  lemma EnsureAsWrittenNeverInserts(rules: seq<Rule>, port: string, ip: string)
    ensures EnsureLimitsAsWritten(rules, port, ip) == rules
  {
  }

  /** On an empty chain, the intended ensure installs the lock and the written one does not. */
  lemma EnsureAsWrittenCounterexample()
    ensures AcceptRule("6000", "10.0.0.2") !in EnsureLimitsAsWritten([], "6000", "10.0.0.2")
    ensures AcceptRule("6000", "10.0.0.2") in EnsureLimits([], "6000", "10.0.0.2")
  {
  }

  // ----- remove_limit_rules as written -----

  /** The pattern argument the removal query hands to `grep -E`, after Python's formatting. */
  function RemovalPattern(port: string): string {
    "-p udp .* --dport " + port + "\\b .* (-j DROP|-j ACCEPT)"
  }

  /** An argument that `grep` reads as a cluster of options rather than as the pattern. */
  predicate ReadAsOptions(arg: string) {
    arg != "" && arg[0] == '-'
  }

  /**
   * The line `grep -E pattern | head -n1` picks from the chain listing: none
   * when grep takes the pattern for options (it rejects the unknown `-p` and
   * prints nothing), otherwise the first limit rule of the port.
   */
  function GrepFirst(rules: seq<Rule>, port: string, pattern: string): (r: Option<nat>)
    ensures r.Some? ==> r.value < |rules| && LimitRule(rules[r.value], port)
    ensures ReadAsOptions(pattern) ==> r.None?
  {
    if ReadAsOptions(pattern) then None else FirstLimit(rules, port)
  }

  /** The removal loop with the query `pattern`: up to `n` turns, each deleting the line found, stopping when none is. */
  function RemovedBy(rules: seq<Rule>, port: string, pattern: string, n: nat): (r: seq<Rule>)
    ensures |r| <= |rules|
    decreases n
  {
    if port == "" || n == 0 then rules
    else match GrepFirst(rules, port, pattern)
      case None => rules
      case Some(i) => RemovedBy(rules[..i] + rules[i + 1..], port, pattern, n - 1)
  }

  /** As written, removal never deletes a rule. */
  lemma RemoveAsWrittenNeverDeletes(rules: seq<Rule>, port: string)
    ensures RemovedBy(rules, port, RemovalPattern(port), MaxDeletes) == rules
  {
    if port != "" {
      assert ReadAsOptions(RemovalPattern(port));
    }
  }

  /** One turn of the loop with an accepted query: it deletes the first limit rule of the port. */
  lemma RemovedByStep(rules: seq<Rule>, port: string, pattern: string, n: nat)
    requires port != "" && !ReadAsOptions(pattern) && n > 0
    ensures FirstLimit(rules, port).None? ==> RemovedBy(rules, port, pattern, n) == rules
    ensures FirstLimit(rules, port).Some? ==>
      RemovedBy(rules, port, pattern, n) == RemovedBy(DropFirstLimits(rules, port, 1), port, pattern, n - 1)
  {
    if FirstLimit(rules, port).Some? {
      DeleteFirstIsDropOne(rules, port);
    }
  }

  /** With a query grep does take as its pattern, the loop is the intended removal. */
  lemma {:induction false} RemovedByAcceptedPattern(rules: seq<Rule>, port: string, pattern: string, n: nat)
    requires port != "" && !ReadAsOptions(pattern)
    ensures RemovedBy(rules, port, pattern, n) == DropFirstLimits(rules, port, n)
    decreases n
  {
    if n == 0 {
      DropNothing(rules, port, 0);
    } else {
      RemovedByStep(rules, port, pattern, n);
      if FirstLimit(rules, port).None? {
        DropNothing(rules, port, n);
      } else {
        var next := DropFirstLimits(rules, port, 1);
        RemovedByAcceptedPattern(next, port, pattern, n - 1);
        DropCompose(rules, port, 1, n - 1);
      }
    }
  }

  /** A chain holding one ACCEPT rule for port 6000: the written removal keeps it, the intended one takes it out. */
  lemma RemoveAsWrittenCounterexample()
    ensures var rules := [AcceptRule("6000", "10.0.0.2")];
      && CountLimit(RemovedBy(rules, "6000", RemovalPattern("6000"), MaxDeletes), "6000") == 1
      && CountLimit(DropFirstLimits(rules, "6000", MaxDeletes), "6000") == 0
  {
    var rules := [AcceptRule("6000", "10.0.0.2")];
    RemoveAsWrittenNeverDeletes(rules, "6000");
    assert rules[1..] == [];
  }

  // ----- apply_device_limits -----

  /**
   * One user's turn in `apply_device_limits`: ensure the lock when the record
   * has a port and a (stripped) bind IP, remove the port's limit rules when it
   * has a port only, and nothing without a port.
   */
  function LimitStep(rules: seq<Rule>, u: UserRecord): (r: seq<Rule>)
    ensures u.port == "" ==> r == rules
  {
    var ip := Strip(u.bindIp);
    if u.port != "" && ip != "" then EnsureLimits(rules, u.port, ip)
    else if u.port != "" then DropFirstLimits(rules, u.port, MaxDeletes)
    else rules
  }

  /** The chain after `apply_device_limits(users)`: each record's step, in registry order. */
  function LimitsApplied(rules: seq<Rule>, users: seq<UserRecord>): (r: seq<Rule>)
    ensures (forall j :: 0 <= j < |users| ==> users[j].port == "") ==> r == rules
    decreases |users|
  {
    if users == [] then rules else LimitsApplied(LimitStep(rules, users[0]), users[1..])
  }

  /** One record's turn in `apply_device_limits` with ensure and remove as written. */
  function LimitStepAsWritten(rules: seq<Rule>, u: UserRecord): seq<Rule> {
    var ip := Strip(u.bindIp);
    if u.port != "" && ip != "" then EnsureLimitsAsWritten(rules, u.port, ip)
    else if u.port != "" then RemovedBy(rules, u.port, RemovalPattern(u.port), MaxDeletes)
    else rules
  }

  function LimitsAppliedAsWritten(rules: seq<Rule>, users: seq<UserRecord>): seq<Rule>
    decreases |users|
  {
    if users == [] then rules else LimitsAppliedAsWritten(LimitStepAsWritten(rules, users[0]), users[1..])
  }

  /** As written, `apply_device_limits` leaves the chain exactly as it found it, whatever the registry. */
  lemma {:induction false} AppliedAsWrittenChangesNothing(rules: seq<Rule>, users: seq<UserRecord>)
    ensures LimitsAppliedAsWritten(rules, users) == rules
    decreases |users|
  {
    if users != [] {
      var u := users[0];
      EnsureAsWrittenNeverInserts(rules, u.port, Strip(u.bindIp));
      RemoveAsWrittenNeverDeletes(rules, u.port);
      AppliedAsWrittenChangesNothing(rules, users[1..]);
    }
  }

  method ApplyDeviceLimits(rules: seq<Rule>, users: seq<UserRecord>) returns (after: seq<Rule>)
    ensures after == LimitsApplied(rules, users)
  {
    after := rules;
    var i := 0;
    while i < |users|
      invariant 0 <= i <= |users|
      invariant LimitsApplied(after, users[i..]) == LimitsApplied(rules, users)
    {
      var u := users[i];
      var p := u.port;
      var ip := Strip(u.bindIp);
      assert users[i..][1..] == users[i + 1..];
      if p != "" && ip != "" {
        after := EnsureLimits(after, p, ip);
      } else if p != "" {
        after := RemoveLimitRules(after, p);
      }
      i := i + 1;
    }
  }

  // ----- the locks that result from the registry -----

  /** The rules of the chain whose destination port is `port`, in order. */
  function RulesFor(rules: seq<Rule>, port: string): (r: seq<Rule>)
    ensures forall x: Rule :: x.dport == port ==> (x in r <==> x in rules)
  {
    if rules == [] then []
    else if rules[0].dport == port then [rules[0]] + RulesFor(rules[1..], port)
    else RulesFor(rules[1..], port)
  }

  lemma {:induction false} CountLimitRulesFor(rules: seq<Rule>, port: string)
    ensures CountLimit(RulesFor(rules, port), port) == CountLimit(rules, port)
  {
    if rules != [] {
      CountLimitRulesFor(rules[1..], port);
    }
  }

  lemma {:induction false} DropOtherPort(rules: seq<Rule>, q: string, n: nat, port: string)
    requires q != port
    ensures RulesFor(DropFirstLimits(rules, q, n), port) == RulesFor(rules, port)
  {
    if rules != [] {
      if n > 0 && LimitRule(rules[0], q) {
        DropOtherPort(rules[1..], q, n - 1, port);
        assert rules[0].dport != port;
      } else {
        DropOtherPort(rules[1..], q, n, port);
        var d := DropFirstLimits(rules, q, n);
        assert d == [rules[0]] + DropFirstLimits(rules[1..], q, n);
        assert d[1..] == DropFirstLimits(rules[1..], q, n);
      }
    }
  }

  lemma {:induction false} StepOtherPort(rules: seq<Rule>, u: UserRecord, port: string)
    requires u.port != port
    ensures RulesFor(LimitStep(rules, u), port) == RulesFor(rules, port)
  {
    var ip := Strip(u.bindIp);
    if u.port != "" && ip != "" {
      var accept, drop := AcceptRule(u.port, ip), DropRule(u.port, ip);
      var withAccept := if accept in rules then rules else [accept] + rules;
      assert RulesFor(withAccept, port) == RulesFor(rules, port);
    } else if u.port != "" {
      DropOtherPort(rules, u.port, MaxDeletes, port);
    }
  }

  /** Records on other ports leave the rules for `port` as they are. */
  lemma {:induction false} AppliedOtherPorts(rules: seq<Rule>, users: seq<UserRecord>, port: string)
    requires forall j :: 0 <= j < |users| ==> users[j].port != port
    ensures RulesFor(LimitsApplied(rules, users), port) == RulesFor(rules, port)
    decreases |users|
  {
    if users != [] {
      StepOtherPort(rules, users[0], port);
      AppliedOtherPorts(LimitStep(rules, users[0]), users[1..], port);
    }
  }

  lemma {:induction false} AppliedSplit(rules: seq<Rule>, a: seq<UserRecord>, b: seq<UserRecord>)
    ensures LimitsApplied(rules, a + b) == LimitsApplied(LimitsApplied(rules, a), b)
    decreases |a|
  {
    if a != [] {
      var ab := a + b;
      assert ab[0] == a[0] && ab[1..] == a[1..] + b;
      var next := LimitStep(rules, a[0]);
      assert LimitsApplied(rules, ab) == LimitsApplied(next, a[1..] + b);
      AppliedSplit(next, a[1..], b);
      assert LimitsApplied(rules, a) == LimitsApplied(next, a[1..]);
    } else {
      assert a + b == b;
    }
  }

  /** No two records with a port share it. */
  ghost predicate DistinctPorts(users: seq<UserRecord>) {
    forall j, k :: 0 <= j < k < |users| && users[j].port != "" ==> users[j].port != users[k].port
  }

  /** With distinct ports, the rules for record `i`'s port come only from record `i`'s own step. */
  lemma {:induction false} OnlyOwnStep(rules: seq<Rule>, users: seq<UserRecord>, i: nat)
    requires DistinctPorts(users)
    requires i < |users| && users[i].port != ""
    ensures var p, a := users[i].port, LimitsApplied(rules, users[..i]);
      && RulesFor(a, p) == RulesFor(rules, p)
      && RulesFor(LimitsApplied(rules, users), p) == RulesFor(LimitStep(a, users[i]), p)
  {
    var p := users[i].port;
    var before, after := users[..i], users[i + 1..];
    assert users == (before + [users[i]]) + after;
    forall j | 0 <= j < |before| ensures before[j].port != p {
      assert before[j] == users[j];
    }
    forall j | 0 <= j < |after| ensures after[j].port != p {
      assert after[j] == users[i + 1 + j];
    }
    AppliedSplit(rules, before + [users[i]], after);
    AppliedSplit(rules, before, [users[i]]);
    var a := LimitsApplied(rules, before);
    var b := LimitStep(a, users[i]);
    assert LimitsApplied(a, [users[i]]) == LimitsApplied(b, []);
    AppliedOtherPorts(rules, before, p);
    AppliedOtherPorts(b, after, p);
  }

  /**
   * When ports are distinct, the chain after `apply_device_limits` holds the
   * ACCEPT and DROP rule of every record with a port and a bind IP, and no
   * limit rule for the port of a record without a bind IP (unless more than
   * 30 had piled up before).
   */
  lemma DeviceLimitsEnforced(rules: seq<Rule>, users: seq<UserRecord>, i: nat)
    requires DistinctPorts(users)
    requires i < |users| && users[i].port != ""
    ensures var p, ip := users[i].port, Strip(users[i].bindIp);
      ip != "" ==> AcceptRule(p, ip) in LimitsApplied(rules, users) && DropRule(p, ip) in LimitsApplied(rules, users)
    ensures var p, ip := users[i].port, Strip(users[i].bindIp);
      ip == "" && CountLimit(rules, p) <= MaxDeletes ==> CountLimit(LimitsApplied(rules, users), p) == 0
  {
    var p, ip := users[i].port, Strip(users[i].bindIp);
    OnlyOwnStep(rules, users, i);
    var a := LimitsApplied(rules, users[..i]);
    var b := LimitStep(a, users[i]);
    var c := LimitsApplied(rules, users);
    if ip != "" {
      assert AcceptRule(p, ip) in RulesFor(b, p) && DropRule(p, ip) in RulesFor(b, p);
    } else {
      CountLimitRulesFor(rules, p);
      CountLimitRulesFor(a, p);
      CountLimitRulesFor(b, p);
      CountLimitRulesFor(c, p);
      DropFirstLimitsSpec(a, p, MaxDeletes);
    }
  }
}
