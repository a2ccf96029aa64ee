/**
 * The credential registry kept in users.json: a list of records
 * {user, password, expires, port, bind_ip}, all strings once loaded. Users are
 * looked up case-insensitively; lookups take the lower-cased name as `key`.
 */
module Registry {
  import opened Optional
  import opened Text

  datatype UserRecord = UserRecord(
    user: string,
    password: string,
    expires: string,  // "YYYY-MM-DD" or ""
    port: string,     // decimal UDP port or ""
    bindIp: string)   // IPv4 address the port is locked to, or ""

  /** A JSON scalar, as a stored "port" value may be. */
  datatype Scalar = Null | Boolean(b: bool) | Int(i: int) | Str(s: string)

  /** A record as found in the file, before defaults: any key may be missing. */
  datatype RawRecord = RawRecord(
    user: Option<string>,
    password: Option<string>,
    expires: Option<string>,
    port: Option<Scalar>,
    bindIp: Option<string>)

  /** Python's `str(v)` for a JSON scalar. */
  function ScalarText(v: Scalar): string {
    match v
    case Null => "None"
    case Boolean(b) => if b then "True" else "False"
    case Int(i) => IntToDecimal(i)
    case Str(s) => s
  }

  /** One record of `load_users`: missing keys become "", the port becomes `str(port)`. */
  function Normalize(r: RawRecord): (u: UserRecord)
    ensures (r.user.None? ==> u.user == "") && (r.user.Some? ==> u.user == r.user.value)
    ensures (r.password.None? ==> u.password == "") && (r.password.Some? ==> u.password == r.password.value)
    ensures (r.expires.None? ==> u.expires == "") && (r.expires.Some? ==> u.expires == r.expires.value)
    ensures (r.bindIp.None? ==> u.bindIp == "") && (r.bindIp.Some? ==> u.bindIp == r.bindIp.value)
    ensures r.port.None? ==> u.port == ""
    ensures r.port == Some(Null) ==> u.port == "None"
    ensures r.port.Some? && r.port.value.Str? ==> u.port == r.port.value.s
    ensures r.port.Some? && r.port.value.Int? && r.port.value.i >= 0 ==>
      AllDigits(u.port) && DecimalValue(u.port) == r.port.value.i
    ensures r.port.Some? && r.port.value.Int? && r.port.value.i < 0 ==> u.port != "" && u.port[0] == '-'
  {
    UserRecord(
      r.user.GetOr(""), r.password.GetOr(""), r.expires.GetOr(""),
      if r.port.Some? then ScalarText(r.port.value) else "",
      r.bindIp.GetOr(""))
  }

  /** What `load_users` returns for a file that parsed (`Some`) or did not (`None`). */
  function Loaded(doc: Option<seq<RawRecord>>): (users: seq<UserRecord>)
    ensures doc.None? ==> users == []
    ensures doc.Some? ==> |users| == |doc.value|
  {
    match doc
    case None => []
    case Some(raw) => seq(|raw|, i requires 0 <= i < |raw| => Normalize(raw[i]))
  }

  method LoadUsers(doc: Option<seq<RawRecord>>) returns (users: seq<UserRecord>)
    ensures users == Loaded(doc)
  {
    users := [];
    if doc.Some? {
      var raw := doc.value;
      var i := 0;
      while i < |raw|
        invariant 0 <= i <= |raw|
        invariant users == Loaded(Some(raw[..i]))
      {
        users := users + [Normalize(raw[i])];
        i := i + 1;
      }
      assert raw[..i] == raw;
    }
  }

  /** What `save_users` writes: every key present, the port as a string. */
  function Stored(users: seq<UserRecord>): (raw: seq<RawRecord>)
    ensures |raw| == |users|
    ensures forall i :: 0 <= i < |raw| ==>
      && raw[i].user == Some(users[i].user) && raw[i].password == Some(users[i].password)
      && raw[i].expires == Some(users[i].expires) && raw[i].port == Some(Str(users[i].port))
      && raw[i].bindIp == Some(users[i].bindIp)
  {
    seq(|users|, i requires 0 <= i < |users| =>
      var u := users[i];
      RawRecord(Some(u.user), Some(u.password), Some(u.expires), Some(Str(u.port)), Some(u.bindIp)))
  }

  /** Saving and loading again gives back the same registry. */
  lemma LoadStoredRoundTrip(users: seq<UserRecord>)
    ensures Loaded(Some(Stored(users))) == users
  {
    var back := Loaded(Some(Stored(users)));
    forall i | 0 <= i < |users| ensures back[i] == users[i] {
    }
  }

  // ----- lookup by case-insensitive name -----

  predicate Named(u: UserRecord, key: string) {
    Lower(u.user) == key
  }

  /** The index of the first record whose lower-cased name is `key`. */
  function FirstNamed(users: seq<UserRecord>, key: string): (r: Option<nat>)
    ensures r.Some? ==> r.value < |users| && Named(users[r.value], key)
    ensures r.Some? ==> forall j :: 0 <= j < r.value ==> !Named(users[j], key)
    ensures r.None? <==> forall j :: 0 <= j < |users| ==> !Named(users[j], key)
  {
    if users == [] then None
    else if Named(users[0], key) then Some(0)
    else match FirstNamed(users[1..], key)
      case None => None
      case Some(i) => Some(i + 1)
  }

  /** The loop `for u in users: if u["user"].lower() == key: ... break`. */
  method FindUser(users: seq<UserRecord>, key: string) returns (r: Option<nat>)
    ensures r == FirstNamed(users, key)
  {
    var i := 0;
    while i < |users|
      invariant 0 <= i <= |users|
      invariant forall j :: 0 <= j < i ==> !Named(users[j], key)
    {
      if Named(users[i], key) {
        return Some(i);
      }
      i := i + 1;
    }
    return None;
  }

  /** No two records share a name up to case. */
  ghost predicate UniqueNames(users: seq<UserRecord>) {
    forall i, j :: 0 <= i < j < |users| ==> Lower(users[i].user) != Lower(users[j].user)
  }

  // ----- add: upsert -----

  /**
   * The registry after "add": the first record with the same name (up to
   * case) takes the new password, expiry, port and bind IP and keeps its own
   * spelling of the name; with no such record, `rec` is appended.
   */
  function Upserted(users: seq<UserRecord>, rec: UserRecord): (r: seq<UserRecord>)
    ensures |r| == |users| || |r| == |users| + 1
    ensures forall j :: 0 <= j < |users| ==> r[j].user == users[j].user
  {
    match FirstNamed(users, Lower(rec.user))
    case Some(i) =>
      users[i := users[i].(password := rec.password, expires := rec.expires, port := rec.port, bindIp := rec.bindIp)]
    case None => users + [rec]
  }

  lemma UpsertedShape(users: seq<UserRecord>, rec: UserRecord)
    ensures var r := Upserted(users, rec);
      && ((exists j :: 0 <= j < |users| && Named(users[j], Lower(rec.user))) ==> |r| == |users|)
      && (!(exists j :: 0 <= j < |users| && Named(users[j], Lower(rec.user))) ==> r == users + [rec])
    ensures var r := Upserted(users, rec);
      forall j :: 0 <= j < |users| && FirstNamed(users, Lower(rec.user)) != Some(j) ==> r[j] == users[j]
    ensures var r := Upserted(users, rec);
      FirstNamed(users, Lower(rec.user)).Some? ==>
        var i := FirstNamed(users, Lower(rec.user)).value;
        r[i] == UserRecord(users[i].user, rec.password, rec.expires, rec.port, rec.bindIp)
  {
  }

  /** Upserting keeps names unique, and afterwards the name is present exactly once. */
  lemma UpsertKeepsNamesUnique(users: seq<UserRecord>, rec: UserRecord)
    requires UniqueNames(users)
    ensures UniqueNames(Upserted(users, rec))
    ensures var r := Upserted(users, rec);
      exists i :: 0 <= i < |r| && Named(r[i], Lower(rec.user)) &&
        forall j :: 0 <= j < |r| && j != i ==> !Named(r[j], Lower(rec.user))
  {
    var key := Lower(rec.user);
    var r := Upserted(users, rec);
    match FirstNamed(users, key)
    case Some(i) =>
      assert forall j :: 0 <= j < |r| ==> Lower(r[j].user) == Lower(users[j].user);
      forall j | 0 <= j < |r| && j != i ensures !Named(r[j], key) {
        if j < i { } else { assert Lower(users[i].user) != Lower(users[j].user); }
      }
    case None =>
      assert r[|users|] == rec;
  }

  // ----- delete -----

  /** The records whose name differs from `key` (up to case), in their order. */
  function Remain(users: seq<UserRecord>, key: string): (r: seq<UserRecord>)
    ensures |r| <= |users|
    ensures forall u :: u in r <==> u in users && !Named(u, key)
  {
    if users == [] then []
    else if Named(users[0], key) then Remain(users[1..], key)
    else [users[0]] + Remain(users[1..], key)
  }

  /** The last record named `key`: `removed` after the delete loop. */
  function LastNamed(users: seq<UserRecord>, key: string): (r: Option<UserRecord>)
    ensures r.Some? ==> Named(r.value, key) && r.value in users
    ensures r.None? <==> forall j :: 0 <= j < |users| ==> !Named(users[j], key)
  {
    if users == [] then None
    else
      var last := users[|users| - 1];
      if Named(last, key) then Some(last)
      else
        var r := LastNamed(users[..|users| - 1], key);
        assert forall j :: 0 <= j < |users| - 1 ==> users[..|users| - 1][j] == users[j];
        r
  }

  lemma {:induction false} RemainAppend(users: seq<UserRecord>, u: UserRecord, key: string)
    ensures Remain(users + [u], key) == Remain(users, key) + (if Named(u, key) then [] else [u])
  {
    if users != [] {
      assert (users + [u])[1..] == users[1..] + [u];
      RemainAppend(users[1..], u, key);
    }
  }

  /** The last match of a longer list is the new record when it matches, otherwise the earlier last match. */
  lemma LastNamedAppend(users: seq<UserRecord>, u: UserRecord, key: string)
    ensures LastNamed(users + [u], key) == if Named(u, key) then Some(u) else LastNamed(users, key)
  {
    assert (users + [u])[..|users|] == users;
  }

  /** The loop that builds `remain` and `removed` in `delete_user_html`. */
  method Partition(users: seq<UserRecord>, key: string) returns (remain: seq<UserRecord>, removed: Option<UserRecord>)
    ensures remain == Remain(users, key)
    ensures removed == LastNamed(users, key)
  {
    remain, removed := [], None;
    var i := 0;
    while i < |users|
      invariant 0 <= i <= |users|
      invariant remain == Remain(users[..i], key)
      invariant removed == LastNamed(users[..i], key)
    {
      var u := users[i];
      ghost var done := users[..i];
      assert users[..i + 1] == done + [u];
      RemainAppend(done, u, key);
      LastNamedAppend(done, u, key);
      if Named(u, key) {
        removed := Some(u);
      } else {
        remain := remain + [u];
      }
      i := i + 1;
    }
    assert users[..i] == users;
  }

  /** Deleting keeps every other record, in order, and drops every record with that name. */
  lemma {:induction false} RemainCount(users: seq<UserRecord>, key: string)
    ensures |Remain(users, key)| + CountNamed(users, key) == |users|
    ensures forall j :: 0 <= j < |Remain(users, key)| ==> !Named(Remain(users, key)[j], key)
  {
    if users != [] {
      RemainCount(users[1..], key);
    }
  }

  function CountNamed(users: seq<UserRecord>, key: string): nat {
    if users == [] then 0 else (if Named(users[0], key) then 1 else 0) + CountNamed(users[1..], key)
  }

  /** With unique names there is at most one record to delete, and deleting keeps names unique. */
  lemma {:induction false} RemainUnique(users: seq<UserRecord>, key: string)
    requires UniqueNames(users)
    ensures CountNamed(users, key) <= 1
    ensures UniqueNames(Remain(users, key))
  {
    if users != [] {
      UniqueTail(users);
      RemainUnique(users[1..], key);
      if Named(users[0], key) {
        NoneNamedInTail(users, key);
        CountNamedNone(users[1..], key);
      } else {
        var rest := Remain(users[1..], key);
        var r := [users[0]] + rest;
        forall j | 0 <= j < |rest| ensures Lower(users[0].user) != Lower(rest[j].user) {
          assert rest[j] in users[1..];
          var k :| 0 <= k < |users[1..]| && users[1..][k] == rest[j];
          assert users[k + 1] == rest[j];
        }
        forall i, j | 0 <= i < j < |r| ensures Lower(r[i].user) != Lower(r[j].user) {
          assert r[j] == rest[j - 1];
          if i > 0 { assert r[i] == rest[i - 1]; }
        }
      }
    }
  }

  /** With unique names, the record delete releases is the one lookup finds. */
  lemma {:induction false} LastNamedIsFirst(users: seq<UserRecord>, key: string)
    requires UniqueNames(users)
    ensures FirstNamed(users, key).Some? ==> LastNamed(users, key) == Some(users[FirstNamed(users, key).value])
  {
    if users != [] {
      if Named(users[0], key) {
        NoneNamedInTail(users, key);
        LastNamedSingle(users, key);
      } else {
        UniqueTail(users);
        LastNamedIsFirst(users[1..], key);
        LastNamedDropFirst(users, key);
        if FirstNamed(users, key).Some? {
          var i := FirstNamed(users[1..], key).value;
          assert users[1..][i] == users[i + 1];
        }
      }
    }
  }

  lemma UniqueTail(users: seq<UserRecord>)
    requires UniqueNames(users) && users != []
    ensures UniqueNames(users[1..])
  {
    forall i, j | 0 <= i < j < |users[1..]| ensures Lower(users[1..][i].user) != Lower(users[1..][j].user) {
      assert users[1..][i] == users[i + 1] && users[1..][j] == users[j + 1];
    }
  }

  lemma {:induction false} CountNamedNone(users: seq<UserRecord>, key: string)
    requires forall j :: 0 <= j < |users| ==> !Named(users[j], key)
    ensures CountNamed(users, key) == 0
  {
    if users != [] {
      CountNamedNone(users[1..], key);
    }
  }

  lemma NoneNamedInTail(users: seq<UserRecord>, key: string)
    requires UniqueNames(users) && users != [] && Named(users[0], key)
    ensures forall j :: 0 <= j < |users[1..]| ==> !Named(users[1..][j], key)
  {
    forall j | 0 <= j < |users[1..]| ensures !Named(users[1..][j], key) {
      assert users[1..][j] == users[j + 1];
      assert Lower(users[0].user) != Lower(users[j + 1].user);
    }
  }

  lemma {:induction false} LastNamedSingle(users: seq<UserRecord>, key: string)
    requires users != [] && Named(users[0], key)
    requires forall j :: 0 <= j < |users[1..]| ==> !Named(users[1..][j], key)
    ensures LastNamed(users, key) == Some(users[0])
  {
    if |users| > 1 {
      var init := users[..|users| - 1];
      assert init[0] == users[0];
      assert init[1..] == users[1..|users| - 1];
      assert !Named(users[|users| - 1], key) by { assert users[1..][|users| - 2] == users[|users| - 1]; }
      forall j | 0 <= j < |init[1..]| ensures !Named(init[1..][j], key) {
        assert init[1..][j] == users[1..][j];
      }
      LastNamedSingle(init, key);
    }
  }

  lemma {:induction false} LastNamedDropFirst(users: seq<UserRecord>, key: string)
    requires users != [] && !Named(users[0], key)
    ensures LastNamed(users, key) == LastNamed(users[1..], key)
    decreases |users|
  {
    if |users| > 1 {
      var init := users[..|users| - 1];
      assert users[1..][..|users[1..]| - 1] == init[1..];
      assert users[1..][|users[1..]| - 1] == users[|users| - 1];
      LastNamedDropFirst(init, key);
    }
  }

  // ----- ports in use -----

  /** `{str(u["port"]) for u in load_users() if str(u["port"])}`. */
  function RegistryPorts(users: seq<UserRecord>): (ports: set<string>)
    ensures forall u :: u in users && u.port != "" ==> u.port in ports
    ensures "" !in ports
    ensures forall p :: p in ports ==> exists u :: u in users && u.port == p
  {
    set u | u in users && u.port != "" :: u.port
  }
}
