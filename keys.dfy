/**
 * The one-time key service: an administrator creates keys with a time to
 * live, lists them and revokes them; a client consumes a key, once. The key
 * file is the map `entries` (token -> record) together with `order`, the
 * insertion order of the JSON object, which is the order `status` visits it
 * in. The clock, the token generator and the request headers and bodies are
 * parameters.
 */
module OneTimeKeys {
  import opened Optional
  import opened Text
  import opened Sorting

  /** The stored "used" value: `false` as created, or the time of a consume or a revoke. */
  datatype Used = Unused | UsedAt(at: int)

  /** `used not in (False, None)`: a time of 0 compares equal to False, so it reads as unused. */
  predicate IsUsed(u: Used) {
    u.UsedAt? && u.at != 0
  }

  datatype KeyInfo = KeyInfo(note: string, exp: int, used: Used, createdAt: int)

  /** One element of the status listing; times are the stored epoch seconds. */
  datatype StatusItem = StatusItem(token: string, note: string, expiresAt: int, usedAt: int, used: bool)

  datatype Reply =
    | Created(token: string, expiresInMin: int, note: string)
    | Listed(items: seq<StatusItem>)
    | Done
    | Failed(code: nat, err: string)

  const DefaultTtlMinutes: int := 60
  const NoteLimit: nat := 200

  const Unauthorized: Reply := Failed(401, "unauthorized")
  const TokenRequired: Reply := Failed(400, "token required")
  const Invalid: Reply := Failed(404, "invalid")
  const AlreadyUsed: Reply := Failed(409, "used")
  const Expired: Reply := Failed(410, "expired")

  /** `hmac.compare_digest(headers.get("X-Admin-Secret", ""), ADMIN_SECRET)`: a missing header is "". */
  predicate IsAdmin(header: Option<string>, secret: string)
    ensures header.None? ==> (IsAdmin(header, secret) <==> secret == "")
  {
    header.GetOr("") == secret
  }

  /** `note[:200]`. */
  function Truncated(s: string): (r: string)
    ensures |r| <= NoteLimit && |r| <= |s| && r == s[..|r|]
    ensures |r| == NoteLimit || r == s
  {
    if |s| <= NoteLimit then s else s[..NoteLimit]
  }

  /** The record `create_key` stores: expiry `ttl` minutes from now, not used. */
  function NewKey(ttl: int, note: string, now: int): (k: KeyInfo)
    ensures !IsUsed(k.used) && k.exp - k.createdAt == ttl * 60
  {
    KeyInfo(note, now + ttl * 60, Unused, now)
  }

  /** The record after a consume or a revoke at `now`: only its "used" value changes. */
  function MarkUsed(entries: map<string, KeyInfo>, tok: string, now: int): (r: map<string, KeyInfo>)
    requires tok in entries
    ensures r.Keys == entries.Keys && r[tok].used == UsedAt(now)
    ensures r[tok].(used := entries[tok].used) == entries[tok]
    ensures forall t :: t in entries && t != tok ==> r[t] == entries[t]
  {
    entries[tok := entries[tok].(used := UsedAt(now))]
  }

  /** The refusal `consume` answers with; None when the key may be consumed. */
  function ConsumeCheck(entries: map<string, KeyInfo>, tok: string, now: int): (r: Option<Reply>)
    ensures r.None? ==> tok != "" && tok in entries && !IsUsed(entries[tok].used) && now <= entries[tok].exp
    ensures r.Some? ==> r.value.Failed?
  {
    if tok == "" then Some(TokenRequired)
    else if tok !in entries then Some(Invalid)
    else if IsUsed(entries[tok].used) then Some(AlreadyUsed)
    else if now > entries[tok].exp then Some(Expired)
    else None
  }

  /**
   * The checks of `consume` and their order: an empty token, then an unknown
   * one, then a used one, then an expired one; a key that passes all four is
   * unused and its expiry is not before `now`.
   */
  lemma ConsumePrecedence(entries: map<string, KeyInfo>, tok: string, now: int)
    ensures var r := ConsumeCheck(entries, tok, now);
      && (r == Some(TokenRequired) <==> tok == "")
      && (r == Some(Invalid) <==> tok != "" && tok !in entries)
      && (r == Some(AlreadyUsed) <==> tok != "" && tok in entries && IsUsed(entries[tok].used))
      && (r == Some(Expired) <==> tok != "" && tok in entries && !IsUsed(entries[tok].used) && now > entries[tok].exp)
      && (r.None? <==> tok != "" && tok in entries && !IsUsed(entries[tok].used) && now <= entries[tok].exp)
  {
  }

  /** "used" is reported before "expired": a used key that has also expired answers 409. */
  lemma UsedBeforeExpired(entries: map<string, KeyInfo>, tok: string, now: int)
    requires tok != "" && tok in entries && IsUsed(entries[tok].used) && now > entries[tok].exp
    ensures ConsumeCheck(entries, tok, now) == Some(AlreadyUsed)
  {
  }

  /** Expiry is strict: an unused key is still accepted in the very second it expires. */
  lemma ExpiryInclusive(entries: map<string, KeyInfo>, tok: string)
    requires tok != "" && tok in entries && !IsUsed(entries[tok].used)
    ensures ConsumeCheck(entries, tok, entries[tok].exp).None?
    ensures ConsumeCheck(entries, tok, entries[tok].exp + 1) == Some(Expired)
  {
  }

  /**
   * A key is one-time: once consumed (or revoked) at a time other than 0,
   * every later consume of it answers "used", and every other key answers
   * as before.
   */
  lemma MarkUsedIsFinal(entries: map<string, KeyInfo>, tok: string, now: int, later: int)
    requires tok != "" && tok in entries && now != 0
    ensures ConsumeCheck(MarkUsed(entries, tok, now), tok, later) == Some(AlreadyUsed)
    ensures forall t :: t != tok ==> ConsumeCheck(MarkUsed(entries, tok, now), t, later) == ConsumeCheck(entries, t, later)
  {
  }

  /** A consume at time 0 stores 0, which reads as unused: the key stays consumable. */
  lemma MarkUsedAtEpoch(entries: map<string, KeyInfo>, tok: string)
    requires ConsumeCheck(entries, tok, 0).None?
    ensures ConsumeCheck(MarkUsed(entries, tok, 0), tok, 0).None?
  {
  }

  /**
   * A key created at `now` with a non-negative time to live can be consumed
   * from `now` until `ttl` minutes later, and is expired after that.
   */
  lemma FreshKeyConsumable(entries: map<string, KeyInfo>, tok: string, ttl: int, note: string, now: int, at: int)
    requires tok != "" && ttl >= 0 && now <= at
    ensures var d := entries[tok := NewKey(ttl, note, now)];
      && (at <= now + ttl * 60 ==> ConsumeCheck(d, tok, at).None?)
      && (at > now + ttl * 60 ==> ConsumeCheck(d, tok, at) == Some(Expired))
  {
  }

  // ----- status -----

  /** The listing entry for one stored key; an unused key reports time 0 as its use time. */
  function ItemOf(t: string, info: KeyInfo): StatusItem {
    StatusItem(t, info.note, info.exp, if info.used.UsedAt? then info.used.at else 0, IsUsed(info.used))
  }

  /** The listing before sorting: one entry per key, in the file's order. */
  function Items(order: seq<string>, entries: map<string, KeyInfo>): (r: seq<StatusItem>)
    requires forall t :: t in order ==> t in entries
    ensures |r| == |order|
  {
    seq(|order|, i requires 0 <= i < |order| => ItemOf(order[i], entries[order[i]]))
  }

  /** `sort(key=expires_at, reverse=True)`: a later expiry may stand first. */
  predicate Later(a: StatusItem, b: StatusItem) {
    a.expiresAt >= b.expiresAt
  }

  lemma LaterIsPreorder()
    ensures Total(Later) && Transitive(Later)
  {
  }

  /**
   * The listing has one entry per stored key, latest expiry first; each
   * entry carries its key's note and expiry, and its "used" flag is set
   * exactly when the stored value reads as used; an unused key reports use
   * time 0. Keys with the same expiry keep the file's order.
   */
  lemma StatusShown(order: seq<string>, entries: map<string, KeyInfo>)
    requires forall t :: t in order ==> t in entries
    ensures var items := SortBy(Items(order, entries), Later);
      && |items| == |order|
      && SortedBy(items, Later)
      && (forall it :: it in items ==>
            && it.token in order
            && it.note == entries[it.token].note
            && it.expiresAt == entries[it.token].exp
            && (it.used <==> IsUsed(entries[it.token].used))
            && (entries[it.token].used == Unused ==> it.usedAt == 0))
      && (forall t :: t in order ==> exists it :: it in items && it.token == t)
      && (forall e :: LevelWith(items, Later, e) == LevelWith(Items(order, entries), Later, e))
  {
    var raw := Items(order, entries);
    var items := SortBy(raw, Later);
    LaterIsPreorder();
    SortBySorted(raw, Later);
    forall e ensures LevelWith(items, Later, e) == LevelWith(raw, Later, e) {
      SortByStable(raw, Later, e);
    }
    forall it | it in items
      ensures it.token in order && it == ItemOf(it.token, entries[it.token])
    {
      assert it in multiset(raw);
      var i :| 0 <= i < |raw| && raw[i] == it;
    }
    forall t | t in order ensures exists it :: it in items && it.token == t {
      var i :| 0 <= i < |order| && order[i] == t;
      assert raw[i] in multiset(items);
    }
  }

  // ----- the key file -----

  class KeyStore {
    var order: seq<string>                 // the tokens, in insertion order
    var entries: map<string, KeyInfo>      // keys.json
    const secret: string                   // ADMIN_SECRET

    /** Every key is listed in `order` exactly once. */
    ghost predicate Valid()
      reads this
    {
      && (forall t :: t in entries <==> t in order)
      && (forall i, j :: 0 <= i < j < |order| ==> order[i] != order[j])
    }

    /** Start-up with no key file: the empty object is written. */
    constructor(adminSecret: string)
      ensures Valid() && order == [] && entries == map[] && secret == adminSecret
    {
      order := [];
      entries := map[];
      secret := adminSecret;
    }

    /**
     * POST /api/keys/create: store a fresh, unused key that expires `ttl`
     * minutes from now (60 by default), with the note cut to 200 characters.
     */
    method Create(header: Option<string>, ttlIn: Option<int>, noteIn: Option<string>, token: string, now: int)
      returns (reply: Reply)
      requires Valid()
      modifies this
      ensures Valid()
      ensures !IsAdmin(header, secret) ==> reply == Unauthorized && entries == old(entries) && order == old(order)
      ensures IsAdmin(header, secret) ==>
        var ttl, note := ttlIn.GetOr(DefaultTtlMinutes), Truncated(noteIn.GetOr(""));
        && entries == old(entries)[token := NewKey(ttl, note, now)]
        && order == (if token in old(entries) then old(order) else old(order) + [token])
        && reply == Created(token, ttl, note)
    {
      if !IsAdmin(header, secret) {
        return Unauthorized;
      }
      var ttl := ttlIn.GetOr(DefaultTtlMinutes);
      var note := Truncated(noteIn.GetOr(""));
      if token !in entries {
        order := order + [token];
      }
      entries := entries[token := NewKey(ttl, note, now)];
      reply := Created(token, ttl, note);
    }

    /** POST /api/keys/revoke: mark a known key used at `now`; an unknown token answers 404. */
    method Revoke(header: Option<string>, tokenIn: Option<string>, now: int) returns (reply: Reply)
      requires Valid()
      modifies this
      ensures Valid() && order == old(order)
      ensures !IsAdmin(header, secret) ==> reply == Unauthorized && entries == old(entries)
      ensures IsAdmin(header, secret) ==>
        var tok := Strip(tokenIn.GetOr(""));
        && (tok !in old(entries) ==> reply == Invalid && entries == old(entries))
        && (tok in old(entries) ==> reply == Done && entries == MarkUsed(old(entries), tok, now))
    {
      if !IsAdmin(header, secret) {
        return Unauthorized;
      }
      var tok := Strip(tokenIn.GetOr(""));
      if tok !in entries {
        return Invalid;
      }
      entries := MarkUsed(entries, tok, now);
      reply := Done;
    }

    /** POST /api/keys/consume: no secret needed; the checks of `ConsumeCheck`, then mark the key used. */
    method Consume(tokenIn: Option<string>, now: int) returns (reply: Reply)
      requires Valid()
      modifies this
      ensures Valid() && order == old(order)
      ensures var tok := Strip(tokenIn.GetOr(""));
        match ConsumeCheck(old(entries), tok, now)
        case Some(refusal) => reply == refusal && entries == old(entries)
        case None => reply == Done && entries == MarkUsed(old(entries), tok, now)
    {
      var tok := Strip(tokenIn.GetOr(""));
      var check := ConsumeCheck(entries, tok, now);
      if check.Some? {
        return check.value;
      }
      entries := MarkUsed(entries, tok, now);
      reply := Done;
    }

    /** GET /api/keys/status: the loop that builds the listing, then the sort by expiry. */
    method Status(header: Option<string>) returns (reply: Reply)
      requires Valid()
      ensures !IsAdmin(header, secret) ==> reply == Unauthorized
      ensures IsAdmin(header, secret) ==> reply == Listed(SortBy(Items(order, entries), Later))
    {
      if !IsAdmin(header, secret) {
        return Unauthorized;
      }
      var items: seq<StatusItem> := [];
      var i := 0;
      while i < |order|
        invariant 0 <= i <= |order|
        invariant items == Items(order[..i], entries)
      {
        var t := order[i];
        items := items + [ItemOf(t, entries[t])];
        i := i + 1;
      }
      assert order[..i] == order;
      reply := Listed(SortBy(items, Later));
    }
  }
}
