/**
 * The admin panel's request handlers over the state they share: the
 * registry file, the VPN server's config file, the host's INPUT chain and
 * the restarts of the VPN service. Every request sees one snapshot of the
 * host's sockets and flows (`Host`), today's date as "YYYY-MM-DD", and
 * `dateAfter(n)`, the date n days from now in the same format.
 */
module WebPanel {
  import opened Optional
  import opened Text
  import opened Sorting
  import opened Registry
  import opened Ports
  import opened Liveness
  import opened Firewall
  import opened VpnConfig

  // ----- what a page shows -----

  /** The flash line of a page: none, a message, or an error. */
  datatype Notice =
    | NoNotice
    | SavedAndSynced
    | ClearedLock(user: string)
    | LockedTo(user: string, ip: string)
    | DeletedUser(user: string)
    | NeedUserPassword
    | BadPort
    | NotFound
    | NoTraffic
    | NeedUser

  /** Errors are shown in the error slot, the rest in the message slot. */
  predicate IsError(n: Notice) {
    n.NeedUserPassword? || n.BadPort? || n.NotFound? || n.NoTraffic? || n.NeedUser?
  }

  /** The text shown for a notice. */
  function Message(n: Notice): string {
    match n
    case NoNotice => ""
    case SavedAndSynced => "Saved & Synced"
    case ClearedLock(u) => "Cleared lock for " + u
    case LockedTo(u, ip) => "Locked " + u + " to " + ip
    case DeletedUser(u) => "Deleted: " + u
    case NeedUserPassword => "User/Password လိုအပ်"
    case BadPort => "Port 6000–19999"
    case NotFound => "မတွေ့ပါ"
    case NoTraffic => "UDP traffic မတွေ့ — client ချိတ်ပြီး Lock now ကိုပြန်နှိပ်"
    case NeedUser => "User လိုအပ်"
  }

  /** One line of the users table (and one element of the JSON list). */
  datatype ViewRow = ViewRow(user: string, password: string, expires: string, port: string, bindIp: string, status: Status)

  datatype Counts = Counts(total: nat, online: nat, offline: nat, expired: nat)

  /** A rendered page, or the redirect to "/" that a successful edit answers with. */
  datatype Reply = View(notice: Notice, rows: seq<ViewRow>, counts: Counts) | RedirectToIndex

  function Row(u: UserRecord, listenPort: string, host: Host): ViewRow {
    ViewRow(u.user, u.password, u.expires, u.port, u.bindIp, StatusFor(u, listenPort, host))
  }

  /** The rows in registry order, each with its status. */
  function Rows(users: seq<UserRecord>, listenPort: string, host: Host): (rows: seq<ViewRow>)
    ensures |rows| == |users|
  {
    seq(|users|, i requires 0 <= i < |users| => Row(users[i], listenPort, host))
  }

  /** What one row adds to the counters; `expires < today` is Python's string order. */
  function Tally(r: ViewRow, today: string): Counts {
    Counts(1,
      if r.status == Online then 1 else 0,
      if r.status == Offline then 1 else 0,
      if r.expires != "" && LexLess(r.expires, today) then 1 else 0)
  }

  function Plus(a: Counts, b: Counts): Counts {
    Counts(a.total + b.total, a.online + b.online, a.offline + b.offline, a.expired + b.expired)
  }

  /** The counters `build_view` accumulates over the rows, in order. */
  function CountOf(rows: seq<ViewRow>, today: string): Counts {
    if rows == [] then Counts(0, 0, 0, 0)
    else Plus(CountOf(rows[..|rows| - 1], today), Tally(rows[|rows| - 1], today))
  }

  lemma {:induction false} CountOfAppend(a: seq<ViewRow>, b: seq<ViewRow>, today: string)
    ensures CountOf(a + b, today) == Plus(CountOf(a, today), CountOf(b, today))
    decreases |b|
  {
    if b != [] {
      var init, last := b[..|b| - 1], b[|b| - 1];
      assert b == init + [last];
      assert a + b == (a + init) + [last];
      CountOfAppend(a, init, today);
      CountOfSnoc(a + init, last, today);
      CountOfSnoc(init, last, today);
      PlusAssoc(CountOf(a, today), CountOf(init, today), Tally(last, today));
    } else {
      assert a + b == a;
    }
  }

  lemma PlusAssoc(a: Counts, b: Counts, c: Counts)
    ensures Plus(Plus(a, b), c) == Plus(a, Plus(b, c))
  {
  }

  lemma PlusSwap(a: Counts, b: Counts, c: Counts)
    ensures Plus(Plus(a, b), c) == Plus(Plus(a, c), b)
  {
  }

  lemma MultisetWithout(s: seq<ViewRow>, k: nat)
    requires k < |s|
    ensures s == (s[..k] + [s[k]]) + s[k + 1..]
    ensures multiset(s[..k] + s[k + 1..]) == multiset(s) - multiset{s[k]}
  {
    assert s == s[..k] + [s[k]] + s[k + 1..];
  }

  /** Taking one row out of the list takes its tally out of the counters. */
  lemma CountOfWithout(s: seq<ViewRow>, k: nat, today: string)
    requires k < |s|
    ensures CountOf(s, today) == Plus(CountOf(s[..k] + s[k + 1..], today), Tally(s[k], today))
  {
    var lo, x, hi := s[..k], s[k], s[k + 1..];
    MultisetWithout(s, k);
    CountOfAppend(lo + [x], hi, today);
    CountOfAppend(lo, [x], today);
    CountOfAppend(lo, hi, today);
    assert [x][..0] == [];
    var t, cl, ch := Tally(x, today), CountOf(lo, today), CountOf(hi, today);
    assert CountOf([x], today) == t;
    PlusSwap(cl, ch, t);
  }

  /** The counters do not depend on the order of the rows, only on which rows there are. */
  lemma {:induction false} CountsOrderFree(a: seq<ViewRow>, b: seq<ViewRow>, today: string)
    requires multiset(a) == multiset(b)
    ensures CountOf(a, today) == CountOf(b, today)
    decreases |a|
  {
    if a == [] {
      assert |b| == |multiset(b)| == 0;
    } else {
      var x := a[|a| - 1];
      assert x in multiset(b);
      var k :| 0 <= k < |b| && b[k] == x;
      MultisetWithout(a, |a| - 1);
      MultisetWithout(b, k);
      var a', b' := a[..|a| - 1] + a[|a|..], b[..k] + b[k + 1..];
      CountsOrderFree(a', b', today);
      CountOfWithout(a, |a| - 1, today);
      CountOfWithout(b, k, today);
    }
  }

  /** Every row is counted once; Online and Offline exclude each other; an expired row is a row. */
  lemma {:induction false} CountBounds(rows: seq<ViewRow>, today: string)
    ensures var c := CountOf(rows, today);
      c.total == |rows| && c.online + c.offline <= c.total && c.expired <= c.total
  {
    if rows != [] {
      CountBounds(rows[..|rows| - 1], today);
    }
  }

  /** The table order: by lower-cased user name, Python's string order; ties keep registry order. */
  predicate ByName(a: ViewRow, b: ViewRow) {
    LexLeq(Lower(a.user), Lower(b.user))
  }

  lemma ByNameIsPreorder()
    ensures Total(ByName) && Transitive(ByName)
  {
    forall a: ViewRow, b: ViewRow ensures ByName(a, b) || ByName(b, a) {
      LexLeqTotal(Lower(a.user), Lower(b.user));
    }
    forall a: ViewRow, b: ViewRow, c: ViewRow | ByName(a, b) && ByName(b, c) ensures ByName(a, c) {
      LexLeqTransitive(Lower(a.user), Lower(b.user), Lower(c.user));
    }
  }

  /** The page `build_view` renders for a registry that has been auto-bound already. */
  function ViewOf(notice: Notice, users: seq<UserRecord>, config: Config, host: Host, today: string): (r: Reply)
    ensures r.View? && r.notice == notice && |r.rows| == |users|
  {
    var rows := Rows(users, ListenPort(config.listen), host);
    View(notice, SortBy(rows, ByName), CountOf(rows, today))
  }

  /**
   * The page lists every record once, sorted by lower-cased name, and its
   * counters agree with the listed rows: one per record, Online and Offline
   * apart, expired among them. Rows whose names agree up to case keep the
   * registry's order.
   */
  lemma ViewShown(notice: Notice, users: seq<UserRecord>, config: Config, host: Host, today: string)
    ensures var v := ViewOf(notice, users, config, host, today);
      && v.View? && v.notice == notice
      && SortedBy(v.rows, ByName)
      && multiset(v.rows) == multiset(Rows(users, ListenPort(config.listen), host))
      && v.counts == CountOf(v.rows, today)
      && v.counts.total == |users|
      && v.counts.online + v.counts.offline <= v.counts.total
      && v.counts.expired <= v.counts.total
      && (forall e :: LevelWith(v.rows, ByName, e) == LevelWith(Rows(users, ListenPort(config.listen), host), ByName, e))
  {
    var rows := Rows(users, ListenPort(config.listen), host);
    ByNameIsPreorder();
    SortBySorted(rows, ByName);
    forall e ensures LevelWith(SortBy(rows, ByName), ByName, e) == LevelWith(rows, ByName, e) {
      SortByStable(rows, ByName, e);
    }
    CountsOrderFree(rows, SortBy(rows, ByName), today);
    CountBounds(rows, today);
  }

  // ----- auto-bind -----

  /** A record with a port and no bind IP takes the first source seen on its port, if any. */
  function BindOne(u: UserRecord, host: Host): UserRecord {
    if u.port != "" && u.bindIp == "" && FirstRecentSrcIp(host, u.port) != "" then
      u.(bindIp := FirstRecentSrcIp(host, u.port))
    else u
  }

  function AutoBound(users: seq<UserRecord>, host: Host): (r: seq<UserRecord>)
    ensures |r| == |users|
  {
    seq(|users|, i requires 0 <= i < |users| => BindOne(users[i], host))
  }

  /**
   * Auto-binding only fills an empty bind IP of a record with a port, with a
   * dotted-quad address seen on that port; everything else stays.
   */
  lemma AutoBoundOnlyFills(users: seq<UserRecord>, host: Host, i: nat)
    requires i < |users|
    ensures var u, r := users[i], AutoBound(users, host)[i];
      && r.(bindIp := u.bindIp) == u
      && (r.bindIp != u.bindIp ==>
            (u.bindIp == "" && u.port != "" && IsDottedQuad(r.bindIp) && r.bindIp == FirstRecentSrcIp(host, u.port)))
      && (u.port != "" && u.bindIp == "" ==> r.bindIp == FirstRecentSrcIp(host, u.port))
  {
  }

  /** A second auto-bind against the same snapshot changes nothing. */
  lemma AutoBoundIdempotent(users: seq<UserRecord>, host: Host)
    ensures AutoBound(AutoBound(users, host), host) == AutoBound(users, host)
  {
  }

  /** Auto-binding keeps the names, so it keeps them unique. */
  lemma AutoBoundKeepsNames(users: seq<UserRecord>, host: Host)
    ensures forall i :: 0 <= i < |users| ==> AutoBound(users, host)[i].user == users[i].user
    ensures UniqueNames(users) ==> UniqueNames(AutoBound(users, host))
  {
  }

  /** With the source probe as written, which prints nothing, auto-binding never binds a record. */
  lemma AutoBoundAsWrittenNeverBinds(users: seq<UserRecord>, host: Host)
    ensures AutoBound(users, SilentProbe(host)) == users
  {
    forall i | 0 <= i < |users| ensures BindOne(users[i], SilentProbe(host)) == users[i] {
      assert FirstRecentSrcIp(SilentProbe(host), users[i].port) == FirstRecentSrcIpAsWritten(host, users[i].port);
    }
  }

  /**
   * Clearing a lock while the device is still sending does not last: the
   * page that follows binds the port again to the source it sees.
   */
  lemma ClearRebinds(users: seq<UserRecord>, i: nat, host: Host)
    requires i < |users| && users[i].port != ""
    ensures var cleared := users[i := users[i].(bindIp := "")];
      AutoBound(cleared, host)[i].bindIp == FirstRecentSrcIp(host, users[i].port)
  {
    var c := users[i].(bindIp := "");
    var cleared := users[i := c];
    assert AutoBound(cleared, host)[i] == BindOne(c, host);
    var ip := FirstRecentSrcIp(host, c.port);
    if ip != "" {
      assert BindOne(c, host) == c.(bindIp := ip);
    } else {
      assert BindOne(c, host) == c;
    }
  }

  /** One record's turn in the auto-bind loop; `rebound` tells whether it took an address. */
  method BindIfSeen(u: UserRecord, host: Host) returns (v: UserRecord, rebound: bool)
    ensures v == BindOne(u, host)
    ensures rebound <==> v != u
  {
    v, rebound := u, false;
    if u.port != "" && u.bindIp == "" {
      var ip := FirstRecentSrcIp(host, u.port);
      if ip != "" {
        v, rebound := u.(bindIp := ip), true;
      }
    }
  }

  /** The auto-bind loop of `build_view`, reporting whether any record changed. */
  method AutoBind(users: seq<UserRecord>, host: Host) returns (bound: seq<UserRecord>, changed: bool)
    ensures bound == AutoBound(users, host)
    ensures changed ==> exists j :: 0 <= j < |users| && bound[j] != users[j]
    ensures !changed ==> bound == users
  {
    bound := users;
    changed := false;
    var i := 0;
    while i < |users|
      invariant 0 <= i <= |users| && |bound| == |users|
      invariant forall j :: 0 <= j < i ==> bound[j] == BindOne(users[j], host)
      invariant forall j :: i <= j < |users| ==> bound[j] == users[j]
      invariant changed <==> exists j :: 0 <= j < i && bound[j] != users[j]
    {
      ghost var before := bound;
      var v, rebound := BindIfSeen(users[i], host);
      if rebound {
        bound := bound[i := v];
        changed := true;
      }
      assert bound[i] == BindOne(users[i], host);
      assert forall j :: 0 <= j < |users| && j != i ==> bound[j] == before[j];
      i := i + 1;
    }
  }

  lemma CountOfSnoc(rows: seq<ViewRow>, r: ViewRow, today: string)
    ensures CountOf(rows + [r], today) == Plus(CountOf(rows, today), Tally(r, today))
  {
    assert (rows + [r])[..|rows|] == rows;
  }

  lemma RowsSnoc(users: seq<UserRecord>, i: nat, listenPort: string, host: Host)
    requires i < |users|
    ensures Rows(users[..i + 1], listenPort, host) == Rows(users[..i], listenPort, host) + [Row(users[i], listenPort, host)]
  {
  }

  /** One turn of the counting loop: the total, the status counter and the expired counter. */
  method CountRow(counts: Counts, st: Status, isExpired: bool) returns (next: Counts)
    ensures next == Plus(counts, Counts(1, if st == Online then 1 else 0, if st == Offline then 1 else 0,
                                           if isExpired then 1 else 0))
  {
    var total, online, offline, expired := counts.total + 1, counts.online, counts.offline, counts.expired;
    if st == Online {
      online := online + 1;
    } else if st == Offline {
      offline := offline + 1;
    }
    if isExpired {
      expired := expired + 1;
    }
    next := Counts(total, online, offline, expired);
  }

  /** The counting loop of `build_view`, then the sort by name. */
  method Summarize(users: seq<UserRecord>, listenPort: string, host: Host, today: string)
    returns (rows: seq<ViewRow>, counts: Counts)
    ensures rows == SortBy(Rows(users, listenPort, host), ByName)
    ensures counts == CountOf(Rows(users, listenPort, host), today)
  {
    var view: seq<ViewRow> := [];
    counts := Counts(0, 0, 0, 0);
    var i := 0;
    while i < |users|
      invariant 0 <= i <= |users|
      invariant view == Rows(users[..i], listenPort, host)
      invariant counts == CountOf(view, today)
    {
      var u := users[i];
      var st := StatusFor(u, listenPort, host);
      var row := ViewRow(u.user, u.password, u.expires, u.port, u.bindIp, st);
      CountOfSnoc(view, row, today);
      counts := CountRow(counts, st, u.expires != "" && LexLess(u.expires, today));
      RowsSnoc(users, i, listenPort, host);
      view := view + [row];
      i := i + 1;
    }
    assert users[..i] == users;
    rows := SortBy(view, ByName);
  }

  // ----- form fields -----

  /** The expiry field: a whole number of days becomes the date that many days ahead. */
  function ExpiresField(expires: string, dateAfter: nat -> string): (r: string)
    ensures expires == "" || !AllDigits(expires) ==> r == expires
    ensures expires != "" && AllDigits(expires) ==> r == dateAfter(DecimalValue(expires))
  {
    if expires != "" && AllDigits(expires) then dateAfter(DecimalValue(expires)) else expires
  }

  /** The checks `add_user` makes, in order; None when the form passes. */
  function AddCheck(user: string, password: string, port: string): (r: Option<Notice>)
    ensures r.Some? <==> user == "" || password == "" || (port != "" && !PortAccepted(port))
    ensures r == Some(BadPort) ==> user != "" && password != ""
    ensures user == "" || password == "" ==> r == Some(NeedUserPassword)
    ensures user != "" && password != "" && port != "" && !PortAccepted(port) ==> r == Some(BadPort)
  {
    if user == "" || password == "" then Some(NeedUserPassword)
    else if port != "" && !PortAccepted(port) then Some(BadPort)
    else None
  }

  /** The record `add_user` saves: the typed port, or the allocator's choice when none was typed. */
  function AddedRecord(user: string, password: string, expires: string, port: string, bindIp: string,
                       taken: set<string>, dateAfter: nat -> string): (r: UserRecord)
    ensures r.user == user && r.password == password && r.bindIp == bindIp
    ensures port != "" ==> r.port == port
    ensures port == "" && r.port != "" ==> r.port !in taken
  {
    UserRecord(user, password, ExpiresField(expires, dateAfter), if port != "" then port else FreePort(taken), bindIp)
  }

  /** A saved record has a port that passes validation, or "" when the pool had no free port left. */
  lemma AddedPortValid(user: string, password: string, expires: string, port: string, bindIp: string,
                       users: seq<UserRecord>, listening: set<string>, dateAfter: nat -> string)
    requires AddCheck(user, password, port).None?
    ensures var rec := AddedRecord(user, password, expires, port, bindIp, TakenPorts(users, listening), dateAfter);
      && (rec.port == "" <==> port == "" && forall q :: PoolFirst <= q <= PoolLast ==> NatToDecimal(q) in TakenPorts(users, listening))
      && (rec.port != "" ==> PortAccepted(rec.port))
      && (port == "" && rec.port != "" ==> rec.port !in RegistryPorts(users) && rec.port !in listening)
  {
    FreePortSpec(TakenPorts(users, listening));
  }

  /** The checks `edit_user` makes before looking the record up. */
  function EditCheck(user: string, password: string, port: string): (r: Option<Notice>)
    ensures r.Some? <==> user == "" || password == "" || (port != "" && !PortAccepted(port))
    ensures user == "" || password == "" ==> r == Some(NeedUserPassword)
    ensures user != "" && password != "" && port != "" && !PortAccepted(port) ==> r == Some(BadPort)
  {
    AddCheck(user, password, port)
  }

  /** Editing clears the old port's limit rules when the record had a port and its port or bind IP changes. */
  predicate StaleLimits(before: UserRecord, rec: UserRecord) {
    before.port != "" && (before.port != rec.port || before.bindIp != rec.bindIp)
  }

  /** Renaming through "edit" is not checked against the other names: it can make two records share one. */
  lemma EditCanDuplicateNames()
    ensures var users := [UserRecord("alice", "a", "", "6000", ""), UserRecord("bob", "b", "", "6001", "")];
      && UniqueNames(users)
      && FirstNamed(users, "bob") == Some(1)
      && !UniqueNames(users[1 := UserRecord("Alice", "b", "", "6001", "")])
  {
    var users := [UserRecord("alice", "a", "", "6000", ""), UserRecord("bob", "b", "", "6001", "")];
    assert Lower("alice") == "alice" && Lower("bob") == "bob" && Lower("Alice") == "alice";
    var edited := users[1 := UserRecord("Alice", "b", "", "6001", "")];
    assert Lower(edited[0].user) == Lower(edited[1].user);
  }

  // ----- the panel -----

  class Panel {
    var users: seq<UserRecord>   // users.json, as `load_users` returns it
    var config: Config           // config.json
    var chain: seq<Rule>         // the host's INPUT chain
    var restarts: nat            // `systemctl restart zivpn.service` calls so far

    constructor(doc: Option<seq<RawRecord>>, config0: Config, chain0: seq<Rule>)
      ensures users == Loaded(doc) && config == config0 && chain == chain0 && restarts == 0
    {
      var loaded := LoadUsers(doc);
      users := loaded;
      config := config0;
      chain := chain0;
      restarts := 0;
    }

    /** `sync_config_passwords(mode)`; false when merge mode fails on a non-object "auth" and nothing is written. */
    method SyncConfigPasswords(mode: string) returns (ok: bool)
      modifies this
      ensures ok <==> Synced(old(config), users, mode).Some?
      ensures ok ==> config == Synced(old(config), users, mode).value && restarts == old(restarts) + 1
      ensures !ok ==> config == old(config) && restarts == old(restarts)
      ensures users == old(users) && chain == old(chain)
    {
      var next := Synced(config, users, mode);
      if next.None? {
        return false;
      }
      config := next.value;
      restarts := restarts + 1;
      return true;
    }

    /** The auto-bind step of `build_view`: users.json is rewritten only when some record took an address. */
    method SaveAutoBound(host: Host)
      modifies this
      ensures users == AutoBound(old(users), host)
      ensures config == old(config) && chain == old(chain) && restarts == old(restarts)
    {
      var bound, changed := AutoBind(users, host);
      if changed {
        users := bound;
      }
    }

    /**
     * `build_view`: auto-bind (saving when something changed), apply the
     * device limits, then render the rows and counters.
     */
    method BuildView(notice: Notice, host: Host, today: string) returns (reply: Reply)
      modifies this
      ensures users == AutoBound(old(users), host)
      ensures chain == LimitsApplied(old(chain), users)
      ensures config == old(config) && restarts == old(restarts)
      ensures reply == ViewOf(notice, users, config, host, today)
    {
      SaveAutoBound(host);
      chain := ApplyDeviceLimits(chain, users);
      var listenPort := ListenPort(config.listen);
      var rows, counts := Summarize(users, listenPort, host, today);
      reply := View(notice, rows, counts);
    }

    /** GET "/". */
    method Index(host: Host, today: string) returns (reply: Reply)
      modifies this
      ensures users == AutoBound(old(users), host)
      ensures chain == LimitsApplied(old(chain), users)
      ensures config == old(config) && restarts == old(restarts)
      ensures reply == ViewOf(NoNotice, users, config, host, today)
    {
      reply := BuildView(NoNotice, host, today);
    }

    /**
     * POST "/add": validate, allocate a port when none is typed, upsert by
     * name, save, mirror the passwords, and render.
     */
    method AddUser(userIn: string, passwordIn: string, expiresIn: string, portIn: string, bindIpIn: string,
                   host: Host, today: string, dateAfter: nat -> string) returns (reply: Reply)
      modifies this
      ensures var check := AddCheck(Strip(userIn), Strip(passwordIn), Strip(portIn));
        check.Some? ==>
          && users == AutoBound(old(users), host)
          && config == old(config) && restarts == old(restarts)
          && reply == ViewOf(check.value, users, config, host, today)
      ensures var check := AddCheck(Strip(userIn), Strip(passwordIn), Strip(portIn));
        var rec := AddedRecord(Strip(userIn), Strip(passwordIn), Strip(expiresIn), Strip(portIn), Strip(bindIpIn),
                               TakenPorts(old(users), host.listening), dateAfter);
        var saved := Upserted(old(users), rec);
        check.None? ==>
          && users == AutoBound(saved, host)
          && config == Synced(old(config), saved, "mirror").value && restarts == old(restarts) + 1
          && reply == ViewOf(SavedAndSynced, users, config, host, today)
      ensures chain == LimitsApplied(old(chain), users)
    {
      var user, password := Strip(userIn), Strip(passwordIn);
      var expires, port, bindIp := Strip(expiresIn), Strip(portIn), Strip(bindIpIn);
      expires := ExpiresField(expires, dateAfter);
      if user == "" || password == "" {
        reply := BuildView(NeedUserPassword, host, today);
        return;
      }
      if port != "" {
        if !PortAccepted(port) {
          reply := BuildView(BadPort, host, today);
          return;
        }
      } else {
        port := PickFreePort(users, host.listening);
      }
      var rec := UserRecord(user, password, expires, port, bindIp);
      var found := FindUser(users, Lower(user));
      if found.Some? {
        var i := found.value;
        users := users[i := users[i].(password := password, expires := expires, port := port, bindIp := bindIp)];
      } else {
        users := users + [rec];
      }
      MirrorExact(config, users, "mirror");
      var _ := SyncConfigPasswords("mirror");
      reply := BuildView(SavedAndSynced, host, today);
    }

    /**
     * POST "/edit": validate, find the record named `orig`, clear its old
     * port's limit rules when port or bind IP changes, replace all five
     * fields, save, mirror, and redirect.
     */
    method EditUser(origIn: string, userIn: string, passwordIn: string, expiresIn: string, portIn: string,
                    bindIpIn: string, host: Host, today: string, dateAfter: nat -> string) returns (reply: Reply)
      modifies this
      ensures var check := EditCheck(Strip(userIn), Strip(passwordIn), Strip(portIn));
        var at := FirstNamed(old(users), Lower(Strip(origIn)));
        check.Some? || at.None? ==>
          && users == AutoBound(old(users), host)
          && chain == LimitsApplied(old(chain), users)
          && config == old(config) && restarts == old(restarts)
          && reply == ViewOf(if check.Some? then check.value else NotFound, users, config, host, today)
      ensures var check := EditCheck(Strip(userIn), Strip(passwordIn), Strip(portIn));
        var at := FirstNamed(old(users), Lower(Strip(origIn)));
        var rec := UserRecord(Strip(userIn), Strip(passwordIn), ExpiresField(Strip(expiresIn), dateAfter),
                              Strip(portIn), Strip(bindIpIn));
        check.None? && at.Some? ==>
          && users == old(users)[at.value := rec]
          && chain == (if StaleLimits(old(users)[at.value], rec)
                       then DropFirstLimits(old(chain), old(users)[at.value].port, MaxDeletes) else old(chain))
          && config == Synced(old(config), users, "mirror").value && restarts == old(restarts) + 1
          && reply == RedirectToIndex
    {
      var orig := Lower(Strip(origIn));
      var user, password := Strip(userIn), Strip(passwordIn);
      var expires, port, bindIp := Strip(expiresIn), Strip(portIn), Strip(bindIpIn);
      expires := ExpiresField(expires, dateAfter);
      if user == "" || password == "" {
        reply := BuildView(NeedUserPassword, host, today);
        return;
      }
      if port != "" && !PortAccepted(port) {
        reply := BuildView(BadPort, host, today);
        return;
      }
      var found := FindUser(users, orig);
      if found.None? {
        reply := BuildView(NotFound, host, today);
        return;
      }
      var i := found.value;
      var oldp, oldip := users[i].port, users[i].bindIp;
      if oldp != "" && (oldp != port || oldip != bindIp) {
        chain := RemoveLimitRules(chain, oldp);
      }
      users := users[i := UserRecord(user, password, expires, port, bindIp)];
      MirrorExact(config, users, "mirror");
      var _ := SyncConfigPasswords("mirror");
      reply := RedirectToIndex;
    }

    /**
     * POST "/lock": for the first record with that name, "clear" empties
     * its bind IP; any other op binds it to the first source seen on its
     * port, or reports that no traffic was seen.
     */
    method LockNow(userIn: string, opIn: string, host: Host, today: string) returns (reply: Reply)
      modifies this
      ensures config == old(config) && restarts == old(restarts)
      ensures var at := FirstNamed(old(users), Lower(Strip(userIn)));
        at.None? ==>
          && users == AutoBound(old(users), host)
          && chain == LimitsApplied(old(chain), users)
          && reply == ViewOf(NotFound, users, config, host, today)
      ensures var at := FirstNamed(old(users), Lower(Strip(userIn)));
        at.Some? && Strip(opIn) == "clear" ==>
          var u := old(users)[at.value];
          var mid := old(users)[at.value := u.(bindIp := "")];
          && users == AutoBound(mid, host)
          && chain == LimitsApplied(LimitsApplied(old(chain), mid), users)
          && reply == ViewOf(ClearedLock(u.user), users, config, host, today)
      ensures var at := FirstNamed(old(users), Lower(Strip(userIn)));
        at.Some? && Strip(opIn) != "clear" && FirstRecentSrcIp(host, old(users)[at.value].port) == "" ==>
          && users == AutoBound(old(users), host)
          && chain == LimitsApplied(old(chain), users)
          && reply == ViewOf(NoTraffic, users, config, host, today)
      ensures var at := FirstNamed(old(users), Lower(Strip(userIn)));
        at.Some? && Strip(opIn) != "clear" && FirstRecentSrcIp(host, old(users)[at.value].port) != "" ==>
          var u := old(users)[at.value];
          var ip := FirstRecentSrcIp(host, u.port);
          var mid := old(users)[at.value := u.(bindIp := ip)];
          && users == AutoBound(mid, host)
          && chain == LimitsApplied(LimitsApplied(old(chain), mid), users)
          && reply == ViewOf(LockedTo(u.user, ip), users, config, host, today)
    {
      var key, op := Lower(Strip(userIn)), Strip(opIn);
      var found := FindUser(users, key);
      if found.None? {
        reply := BuildView(NotFound, host, today);
        return;
      }
      var i := found.value;
      var u := users[i];
      if op == "clear" {
        users := users[i := u.(bindIp := "")];
        chain := ApplyDeviceLimits(chain, users);
        reply := BuildView(ClearedLock(u.user), host, today);
        return;
      }
      var ip := FirstRecentSrcIp(host, u.port);
      if ip == "" {
        reply := BuildView(NoTraffic, host, today);
        return;
      }
      users := users[i := u.(bindIp := ip)];
      chain := ApplyDeviceLimits(chain, users);
      reply := BuildView(LockedTo(u.user, ip), host, today);
    }

    /**
     * POST "/delete": drop every record with that name, clear the limit
     * rules of the last one's port, save, mirror, and render.
     */
    method DeleteUser(userIn: string, host: Host, today: string) returns (reply: Reply)
      modifies this
      ensures Strip(userIn) == "" ==>
        && users == AutoBound(old(users), host)
        && chain == LimitsApplied(old(chain), users)
        && config == old(config) && restarts == old(restarts)
        && reply == ViewOf(NeedUser, users, config, host, today)
      ensures Strip(userIn) != "" ==>
        var key := Lower(Strip(userIn));
        var remain := Remain(old(users), key);
        var removed := LastNamed(old(users), key);
        var cleared := if removed.Some? && removed.value.port != ""
                       then DropFirstLimits(old(chain), removed.value.port, MaxDeletes) else old(chain);
        && users == AutoBound(remain, host)
        && chain == LimitsApplied(cleared, users)
        && config == Synced(old(config), remain, "mirror").value && restarts == old(restarts) + 1
        && reply == ViewOf(DeletedUser(Strip(userIn)), users, config, host, today)
    {
      var user := Strip(userIn);
      if user == "" {
        reply := BuildView(NeedUser, host, today);
        return;
      }
      var remain, removed := Partition(users, Lower(user));
      if removed.Some? && removed.value.port != "" {
        chain := RemoveLimitRules(chain, removed.value.port);
      }
      users := remain;
      MirrorExact(config, users, "mirror");
      var _ := SyncConfigPasswords("mirror");
      reply := BuildView(DeletedUser(user), host, today);
    }

    /** GET "/api/users": every record in registry order with its status; nothing is saved. */
    method ApiUsers(host: Host) returns (rows: seq<ViewRow>)
      ensures rows == Rows(users, ListenPort(config.listen), host)
    {
      var listenPort := ListenPort(config.listen);
      rows := [];
      var i := 0;
      while i < |users|
        invariant 0 <= i <= |users|
        invariant rows == Rows(users[..i], listenPort, host)
      {
        rows := rows + [Row(users[i], listenPort, host)];
        i := i + 1;
      }
      assert users[..i] == users;
    }
  }
}
