/**
 * The VPN server's config.json as far as the panel touches it, and the
 * password mirror `sync_config_passwords`: after every change to the
 * registry, the server's password list is rewritten from the registry
 * ("mirror") or widened by it ("merge"), sorted and without duplicates.
 */
module VpnConfig {
  import opened Optional
  import opened Text
  import opened Registry

  /** The "config" member of "auth": missing, a list of passwords, or some other JSON value. */
  datatype PwField = PwAbsent | PwList(items: seq<string>) | PwOther

  /** The "auth" member: missing, an object, or some other JSON value (a list, a string, null). */
  datatype Auth =
    | AuthAbsent
    | AuthOther
    | AuthDict(mode: Option<string>, config: PwField, rest: map<string, string>)

  /** The top-level members the panel reads or writes; `rest` holds all others, untouched. */
  datatype Config = Config(
    listen: Option<string>,
    cert: Option<string>,
    key: Option<string>,
    obfs: Option<string>,
    auth: Auth,
    rest: map<string, string>)

  const DefaultListen: string := ":5667"
  const DefaultCert: string := "/etc/zivpn/zivpn.crt"
  const DefaultKey: string := "/etc/zivpn/zivpn.key"
  const DefaultObfs: string := "zivpn"

  /** `cfg.get(k) or default`: a missing or empty value is replaced. */
  function OrDefault(v: Option<string>, default: string): string {
    if v.Some? && v.value != "" then v.value else default
  }

  // ----- sorted(set(...)) -----

  /** Ascending in Python's string order, no element twice. */
  ghost predicate StrictlySorted(xs: seq<string>) {
    forall i, j :: 0 <= i < j < |xs| ==> LexLess(xs[i], xs[j])
  }

  function InsertUnique(x: string, s: seq<string>): (r: seq<string>)
    requires StrictlySorted(s)
    ensures StrictlySorted(r)
    ensures forall y :: y in r <==> y == x || y in s
  {
    if s == [] then [x]
    else if x == s[0] then s
    else if LexLess(x, s[0]) then
      assert forall j :: 0 < j < |s| ==> LexLess(s[0], s[j]);
      forall j | 0 < j < |s| ensures LexLess(x, s[j]) {
        LexLessTransitive(x, s[0], s[j]);
      }
      [x] + s
    else
      LexLessTrichotomy(x, s[0]);
      var t := InsertUnique(x, s[1..]);
      forall j | 0 <= j < |t| ensures LexLess(s[0], t[j]) {
        assert t[j] in t;
        if t[j] != x {
          var k :| 0 <= k < |s[1..]| && s[1..][k] == t[j];
          assert s[k + 1] == t[j];
        }
      }
      assert s == [s[0]] + s[1..];
      [s[0]] + t
  }

  /** Python's `sorted(set(xs))`. */
  function SortedUnique(xs: seq<string>): (r: seq<string>)
    ensures StrictlySorted(r)
    ensures forall y :: y in r <==> y in xs
  {
    if xs == [] then []
    else
      assert xs == [xs[0]] + xs[1..];
      InsertUnique(xs[0], SortedUnique(xs[1..]))
  }

  /** Two ascending duplicate-free lists with the same elements are the same list. */
  lemma {:induction false} SortedSetUnique(a: seq<string>, b: seq<string>)
    requires StrictlySorted(a) && StrictlySorted(b)
    requires forall y :: y in a <==> y in b
    ensures a == b
    decreases |a|
  {
    assert (a != [] ==> a[0] in b) && (b != [] ==> b[0] in a);
    if a != [] && b != [] {
      if a[0] != b[0] {
        assert a[0] in b && b[0] in a;
        var k :| 0 <= k < |b| && b[k] == a[0];
        var j :| 0 <= j < |a| && a[j] == b[0];
        assert k > 0 && j > 0;
        LexLessTransitive(a[0], b[0], a[0]);
        LexLessIrreflexive(a[0]);
        assert false;
      }
      forall y ensures y in a[1..] <==> y in b[1..] {
        if y in a[1..] {
          var i :| 0 <= i < |a[1..]| && a[1..][i] == y;
          assert a[i + 1] == y && LexLess(a[0], y);
          LexLessIrreflexive(y);
          assert y in b;
          assert y != b[0];
          assert b == [b[0]] + b[1..];
        }
        if y in b[1..] {
          var i :| 0 <= i < |b[1..]| && b[1..][i] == y;
          assert b[i + 1] == y && LexLess(b[0], y);
          LexLessIrreflexive(y);
          assert y in a;
          assert y != a[0];
          assert a == [a[0]] + a[1..];
        }
      }
      SortedSetUnique(a[1..], b[1..]);
      assert a == [a[0]] + a[1..] && b == [b[0]] + b[1..];
    }
  }

  // ----- sync_config_passwords -----

  /** The non-empty passwords of the registry, in registry order (duplicates kept). */
  function UserPasswords(users: seq<UserRecord>): (r: seq<string>)
    ensures forall x :: x in r <==> x != "" && exists u :: u in users && u.password == x
  {
    if users == [] then []
    else
      var rest := UserPasswords(users[1..]);
      assert forall u :: u in users[1..] ==> u in users;
      assert forall u :: u in users ==> u == users[0] || u in users[1..];
      if users[0].password != "" then [users[0].password] + rest else rest
  }

  /** The password list already in config.json, when "auth"."config" is a list; otherwise none. */
  function OldPasswords(cfg: Config): seq<string> {
    if cfg.auth.AuthDict? && cfg.auth.config.PwList? then cfg.auth.config.items else []
  }

  /** The list written to "auth"."config"; none when merge mode reads an "auth" that is not an object. */
  function NewPasswords(cfg: Config, users: seq<UserRecord>, mode: string): Option<seq<string>> {
    var usersPw := SortedUnique(UserPasswords(users));
    if mode == "merge" then
      if cfg.auth.AuthOther? then None
      else Some(SortedUnique(OldPasswords(cfg) + usersPw))
    else Some(usersPw)
  }

  /**
   * config.json after `sync_config_passwords(mode)`: "auth" becomes an
   * object (kept when it is one) with mode "passwords" and the new list,
   * and empty or missing "listen", "cert", "key", "obfs" get their defaults.
   * None when merge mode meets an "auth" that is not an object, where the
   * source fails on `.get` before writing anything.
   */
  function Synced(cfg: Config, users: seq<UserRecord>, mode: string): (r: Option<Config>)
    ensures r.None? <==> mode == "merge" && cfg.auth.AuthOther?
    ensures r.Some? ==> r.value.rest == cfg.rest
  {
    match NewPasswords(cfg, users, mode)
    case None => None
    case Some(pw) =>
      var rest := if cfg.auth.AuthDict? then cfg.auth.rest else map[];
      Some(Config(
        Some(OrDefault(cfg.listen, DefaultListen)),
        Some(OrDefault(cfg.cert, DefaultCert)),
        Some(OrDefault(cfg.key, DefaultKey)),
        Some(OrDefault(cfg.obfs, DefaultObfs)),
        AuthDict(Some("passwords"), PwList(pw), rest),
        cfg.rest))
  }

  /**
   * Mirror mode: the server's list is exactly the registry's distinct
   * non-empty passwords, ascending; other members are untouched. The four
   * server settings are the subject of `SettingsDefaulted`.
   */
  lemma MirrorExact(cfg: Config, users: seq<UserRecord>, mode: string)
    requires mode != "merge"
    ensures Synced(cfg, users, mode).Some?
    ensures var c := Synced(cfg, users, mode).value;
      && c.auth.AuthDict? && c.auth.mode == Some("passwords") && c.auth.config.PwList?
      && StrictlySorted(c.auth.config.items)
      && (forall x :: x in c.auth.config.items <==> x != "" && exists u :: u in users && u.password == x)
      && c.rest == cfg.rest
      && (cfg.auth.AuthDict? ==> c.auth.rest == cfg.auth.rest)
  {
  }

  /** Merge mode: the list is the union of the old list and the registry's passwords; nothing is dropped. */
  lemma MergeUnion(cfg: Config, users: seq<UserRecord>)
    requires !cfg.auth.AuthOther?
    ensures Synced(cfg, users, "merge").Some?
    ensures var c := Synced(cfg, users, "merge").value;
      && c.auth.AuthDict? && c.auth.mode == Some("passwords") && c.auth.config.PwList?
      && StrictlySorted(c.auth.config.items)
      && (forall x :: x in c.auth.config.items <==> x in OldPasswords(cfg) || (x != "" && exists u :: u in users && u.password == x))
  {
  }

  /** Merge mode against an "auth" that is not an object writes nothing. */
  lemma MergeRejectsNonObjectAuth(cfg: Config, users: seq<UserRecord>)
    requires cfg.auth.AuthOther?
    ensures Synced(cfg, users, "merge").None?
    ensures Synced(cfg, users, "mirror").Some?
  {
  }

  /** The four server settings after a sync: the old value when it was set, the default otherwise. */
  lemma SettingsDefaulted(cfg: Config, users: seq<UserRecord>, mode: string)
    requires Synced(cfg, users, mode).Some?
    ensures var c := Synced(cfg, users, mode).value;
      && c.listen.Some? && c.listen.value != ""
      && c.cert.Some? && c.cert.value != ""
      && c.key.Some? && c.key.value != ""
      && c.obfs.Some? && c.obfs.value != ""
      && (cfg.listen.Some? && cfg.listen.value != "" ==> c.listen == cfg.listen)
      && (cfg.listen.None? || cfg.listen.value == "" ==> c.listen == Some(DefaultListen))
      && (cfg.cert.Some? && cfg.cert.value != "" ==> c.cert == cfg.cert)
      && (cfg.cert.None? || cfg.cert.value == "" ==> c.cert == Some(DefaultCert))
      && (cfg.key.Some? && cfg.key.value != "" ==> c.key == cfg.key)
      && (cfg.key.None? || cfg.key.value == "" ==> c.key == Some(DefaultKey))
      && (cfg.obfs.Some? && cfg.obfs.value != "" ==> c.obfs == cfg.obfs)
      && (cfg.obfs.None? || cfg.obfs.value == "" ==> c.obfs == Some(DefaultObfs))
  {
  }

  /** Syncing again with the same registry changes nothing, in either mode. */
  lemma {:induction false} SyncIdempotent(cfg: Config, users: seq<UserRecord>, mode: string)
    requires Synced(cfg, users, mode).Some?
    ensures Synced(Synced(cfg, users, mode).value, users, mode) == Synced(cfg, users, mode)
  {
    var c := Synced(cfg, users, mode).value;
    var usersPw := SortedUnique(UserPasswords(users));
    if mode == "merge" {
      var once := SortedUnique(OldPasswords(cfg) + usersPw);
      assert OldPasswords(c) == once;
      var twice := SortedUnique(once + usersPw);
      forall y ensures y in twice <==> y in once {
        if y in usersPw {
          assert y in OldPasswords(cfg) + usersPw;
        }
      }
      SortedSetUnique(twice, once);
    }
  }
}
