# ZIVPN panel and one-time key service, modelled in Dafny

This project models the logic of two small Flask services that sit next to a
ZIVPN UDP server.

**The admin panel (`web.py`).** It keeps a registry of credentials in
users.json (user, password, expiry, UDP port, bind IP). It mirrors the
passwords into the server's config.json and restarts the server. It hands out
ports from the pool 6000..19999. It reports each credential as
Online/Offline/Unknown from the host's sockets and connection tracking. It is
meant to enforce a one-device lock with two iptables rules per port: ACCEPT
from the bound address, DROP from every other source. As written, the lock
never takes effect: the insert is never run, the removal query never matches,
and the source-address probe prints nothing (see "## Findings"). The model
states both: the intended behaviour, which the handlers use, and the code as
written, with lemmas showing that it changes nothing. The model covers:

- the registry loader;
- the port allocator and validator;
- the listen-port parser;
- the status rule;
- the source-address probe's output filter;
- the iptables rule maintenance over an abstract INPUT chain;
- the password mirror;
- the page counters and the sort;
- the add, edit, lock, delete, index and JSON-list handlers, as methods of a
  `Panel` class. Its fields are the registry, the config, the chain and the
  number of server restarts.

**The one-time key API (`api.py`, the Python embedded in the installer).** It
stores tokens with a note, an expiry and a "used" value. The model is a
`KeyStore` class with the create, revoke, consume and status handlers and the
admin-secret check.

The modules follow the program's structure:

| file | module | covers |
|---|---|---|
| text.dfy | `Optional`, `Text` | Python's `strip()`, `lower()`, string `<`, `str(int)`, `int(str)` |
| sorting.dfy | `Sorting` | `list.sort(key=...)` as a stable insertion sort |
| registry.dfy | `Registry` | `load_users`/`save_users`, lookup by name, upsert, delete |
| ports.dfy | `Ports` | port validation, `pick_free_port` |
| liveness.dfy | `Liveness` | listen port, `status_for_user`, `first_recent_src_ip` |
| firewall.dfy | `Firewall` | `ensure_limit_rules`, `remove_limit_rules`, `apply_device_limits` |
| vpnconfig.dfy | `VpnConfig` | `sync_config_passwords` |
| panel.dfy | `WebPanel` | `build_view` and the request handlers |
| keys.dfy | `OneTimeKeys` | the one-time key API |

These are parameters rather than I/O:

- The outside world during one request is a `Host` value:
  - the set of ports `ss` shows listening;
  - the set of ports with a tracked flow;
  - per port, the text the conntrack/awk probe prints.
- The date is `today` plus `dateAfter(n)`, the date n days from now.
- The key API takes the clock value `now` and the freshly generated token.
- Form fields and JSON bodies are strings (`Option<string>` where a key can
  be missing).

## Model

| member | source | states |
|---|---|---|
| Registry.Normalize | web.py:58-69 | Each missing key reads as "", and each present string field is kept. A stored port becomes `str(port)`: a string is kept, JSON null becomes "None", a non-negative integer becomes its decimal digits, and a negative one starts with '-'. |
| Registry.Upserted | web.py:381-389 | "add" either keeps the length or appends one record, and every existing record keeps its name. |
| Registry.Loaded | web.py:35-40 | A file that does not parse loads as the empty registry. Otherwise there is one record per stored object. |
| Registry.LoadUsers | web.py:58-69 | The loading loop returns exactly `Loaded(doc)`. |
| Registry.Stored | web.py:42-56 | Saving writes one object per record with every key present: user, password, expiry and bind IP as they are, and the port as a string. |
| Registry.LoadStoredRoundTrip | web.py:58-71 | Loading what was saved gives back the same registry. |
| Registry.FirstNamed | web.py:383-387 | The index of the first record whose lower-cased name matches, with no match before it. None exactly when no record matches. |
| Registry.FindUser | web.py:435-443 | The search loop with `break` returns `FirstNamed`. |
| Registry.UpsertedShape | web.py:381-389 | On "add", a name match keeps the length, and the first match takes the new password, expiry, port and bind IP while keeping its own spelling of the name. Without a match, exactly the new record is appended. Every other record is unchanged. |
| Registry.UpsertKeepsNamesUnique | web.py:381-389 | If names were unique up to case, they stay unique after "add", and the name is present exactly once. |
| Registry.Remain | web.py:480-487 | The records left after "delete" are exactly the old ones whose name does not match. |
| Registry.LastNamed | web.py:483-484 | `removed` is the last matching record. It is None exactly when nothing matches. |
| Registry.LastNamedAppend | web.py:483-484 | One more loop turn sets `removed` to the record exactly when it matches, and otherwise keeps the earlier value. |
| Registry.Partition | web.py:480-487 | The delete loop builds `Remain` and `LastNamed`. |
| Registry.RemainAppend | web.py:481-487 | One more loop turn appends the record to `remain` exactly when it does not match. |
| Registry.RemainCount | web.py:480-487 | Kept plus deleted records make up the whole registry, and no kept record matches. |
| Registry.RemainUnique | web.py:480-487 | With unique names at most one record is deleted, and names stay unique. |
| Registry.LastNamedIsFirst | web.py:483-489 | With unique names, the record whose port delete releases is the one a lookup finds. |
| Registry.RegistryPorts | web.py:84 | The taken ports are exactly the non-empty registry ports: every one of them is taken, every taken port is some record's port, and "" never is. |
| Text.StripSpec | web.py:364-368 | `strip()` leaves no whitespace at either end. The result is what lies between a leading and a trailing run of whitespace. It is the input itself when the input has none at either end, and empty for all-whitespace input. |
| Text.StripIdempotent | web.py:364-368 | Stripping twice is stripping once. |
| Text.TrimStartSpec | web.py:364 | The front trim removes exactly a run of whitespace and stops at the first other character. |
| Text.TrimEndSpec | web.py:364 | The back trim removes exactly a run of whitespace and stops at the last other character. |
| Text.Lower | web.py:384 | `lower()` keeps the length, maps A-Z to a-z and leaves every other character alone. |
| Text.LowerIdempotent | web.py:384 | Lower-casing twice is lower-casing once. |
| Text.LexLessTrichotomy | web.py:314 | Python's string `<` is a strict total order: exactly one of a<b, a=b, b<a holds. |
| Text.LexLessTransitive | web.py:314 | String `<` is transitive. |
| Text.LexLeqTotal | web.py:324 | The sort key order is total. |
| Text.LexLeqTransitive | web.py:324 | The sort key order is transitive. |
| Text.NatToDecimal | web.py:87 | `str(p)` is a non-empty digit string without a leading zero whose value is p. |
| Text.NatToDecimalInjective | web.py:87 | Distinct numbers have distinct decimal strings. |
| Text.NatToDecimalLength | web.py:376 | `str(n)` has at most k digits exactly when n < 10^k. |
| Text.DecimalValue | web.py:376 | `int(s)` of a k-digit string is below 10^k. |
| Text.LeadingZero | web.py:376 | A leading zero does not change `int(s)`. |
| Sorting.SortBy | web.py:324 | The sort returns a permutation of its input. |
| Sorting.SortBySorted | web.py:324 | Under a total preorder the result is sorted. |
| Sorting.SortByKeepsSorted | web.py:324 | A list already in order is returned unchanged. |
| Sorting.InsertByStable | web.py:324 | Inserting an element in front of its equals keeps their relative order. |
| Sorting.SortByStable | web.py:324 | The sort is stable: the elements equal to any given one appear in their input order. |
| Ports.PortAccepted | web.py:376 | An accepted port has 4 or 5 characters. |
| Ports.FreePort | web.py:83-89 | A port the allocator returns is not taken. |
| Ports.PoolPortAccepted | web.py:86-88 | Every port the allocator can return passes the manual validation of web.py:376 and has no leading zero. |
| Ports.AcceptedCanonical | web.py:376 | An accepted port without a leading zero is `str(int(port))`. |
| Ports.SmallestFreeFromSpec | web.py:86-89 | The scan returns the least pool value whose string is untaken, and none exactly when all are taken. |
| Ports.FreePortSpec | web.py:83-89 | `pick_free_port` returns an accepted, untaken port, or "" exactly when every pool port is taken. |
| Ports.PickFreePort | web.py:83-89 | The loop with early return yields `FreePort` of the registry ports plus the listening ports. |
| Ports.LeadingZeroPortDoesNotBlock | web.py:84-88 | "06000" passes validation as 6000, yet with it in the registry the allocator still hands out "6000". |
| Liveness.ListenPort | web.py:73-77 | The listen port is never empty. |
| Liveness.TrailingDigits | web.py:75 | The longest all-digit suffix. The character before it is not a digit. |
| Liveness.ListenPortShape | web.py:73-77 | The listen port is always a digit string: the digits after the stripped value's final ':', or "5667". |
| Liveness.ListenPortOfAddress | web.py:73-77 | For "host:digits" the listen port is those digits. |
| Liveness.ListenPortWithoutColon | web.py:73-77 | A value without ':' falls back to "5667". |
| Liveness.StatusFor | web.py:110-116 | A record is Online exactly when a flow is tracked on its probe port. |
| Liveness.StatusCases | web.py:92-116 | Online iff a flow is tracked on the probe port. Offline iff there is no flow and the port is listening. Unknown iff neither. An empty record port is probed on the listen port. |
| Liveness.SplitDots | web.py:108 | A helper for `IsDottedQuad`, which models the regex filter: each field of the split at '.' is dot-free, and there is at least one field. |
| Liveness.JoinSplit | web.py:108 | A helper for `IsDottedQuad`: joining the fields of a split gives back the string. |
| Liveness.SplitJoin | web.py:108 | A helper for `IsDottedQuad`: splitting dot-free fields that were joined gives them back. |
| Liveness.DottedQuadIff | web.py:108 | The address filter accepts exactly the strings a.b.c.d of four runs of 1 to 3 digits. |
| Liveness.FirstRecentSrcIp | web.py:101-108 | The probe result is "" or a dotted quad. It is "" for an empty port, and the stripped probe output when that is a dotted quad. A non-empty result is always the stripped output of a probed, non-empty port. |
| Liveness.SrcProbeProgramExpanded | web.py:104-106 | The shell expands the unset `$i` in the double-quoted awk program to nothing, which leaves `if(~/src=/)` and `split(,a,'=')`. |
| Liveness.FirstRecentSrcIpAsWritten | web.py:101-108 | As written, the probe prints nothing (awk rejects the expanded program), so the result is always "". |
| Liveness.SrcProbeAsWrittenCounterexample | web.py:101-108 | With connection tracking showing src=10.0.0.2 on port 6000, the intended probe returns "10.0.0.2" and the written one returns "". |
| Firewall.Others | web.py:131-139 | Every rule it keeps is a rule of the chain that is not a limit rule of the port. |
| Firewall.OthersExactly | web.py:131-139 | Every rule of the chain that is not a limit rule of the port is kept, and exactly the limit rules are dropped (the lengths add up). |
| Firewall.OthersAppend | web.py:131-139 | The kept rules keep chain order: those of a + b are those of a, then those of b. |
| Firewall.OthersSingle | web.py:131-139 | A single rule is kept exactly when it is not a limit rule of the port. |
| Firewall.FirstLimit | web.py:134-136 | The first rule the removal query matches, with none before it. None exactly when there is none. |
| Firewall.DropFirstLimitsSpec | web.py:133-139 | Dropping n limit rules removes that many (all if at most n), keeps the other rules in order, and adds nothing. |
| Firewall.DropNothing | web.py:137-138 | With nothing to remove, the chain is unchanged. |
| Firewall.DeleteFirstIsDropOne | web.py:139 | Deleting the matched line is dropping one limit rule. |
| Firewall.DropCompose | web.py:133-139 | Dropping a rules, then b rules, drops a+b. |
| Firewall.GrepFirst | web.py:134-136 | The line grep picks is a limit rule of the port. A query beginning with '-' is read as options and picks nothing. |
| Firewall.RemovedBy | web.py:133-139 | The removal loop with a given query never lengthens the chain. |
| Firewall.RemovedByStep | web.py:133-139 | With a query grep accepts, one turn deletes the first limit rule of the port, or stops when there is none. |
| Firewall.RemovedByAcceptedPattern | web.py:133-139 | With a query grep accepts, n turns of the loop drop the first n limit rules of the port. |
| Firewall.RemoveAsWrittenNeverDeletes | web.py:129-139 | As written, the query begins with "-p", so removal never deletes a rule. |
| Firewall.RemoveAsWrittenCounterexample | web.py:129-139 | On a chain holding one ACCEPT rule for port 6000, the written removal keeps it and the intended one removes it. |
| Firewall.RemoveLimitRules | web.py:129-139 | The bounded loop leaves the chain unchanged for "" and otherwise drops the first 30 limit rules of the port. |
| Firewall.RemovalClearsPort | web.py:129-139 | With at most 30 limit rules none remain. Other rules are kept in order and nothing is added. |
| Firewall.EnsureLimits | web.py:121-127 | Intended behaviour: both the ACCEPT and the DROP rule are present afterwards. An empty port or ip changes nothing. At most two rules are inserted, at the top. A rule already present is not duplicated. |
| Firewall.EnsureIdempotent | web.py:121-127 | Ensuring twice is ensuring once. |
| Firewall.EnsureExactlyOnce | web.py:121-127 | From a chain without them, ensuring leaves exactly one ACCEPT and one DROP rule. |
| Firewall.CheckRule | web.py:121-127 | `iptables -C` exits 0 exactly when the rule is in the chain. |
| Firewall.EnsureLimitsAsWritten | web.py:121-127 | As written, an empty port or ip returns before any command. |
| Firewall.EnsureAsWrittenNeverInserts | web.py:121-127 | As written, ensuring never changes the chain. |
| Firewall.EnsureAsWrittenCounterexample | web.py:121-127 | On an empty chain, port "6000" and ip "10.0.0.2", the written code installs no ACCEPT rule, while the intended code does. |
| Firewall.LimitStep | web.py:143-148 | A record without a port leaves the chain alone. |
| Firewall.LimitsApplied | web.py:141-148 | A registry without ports leaves the chain alone. |
| Firewall.AppliedAsWrittenChangesNothing | web.py:141-148 | As written, `apply_device_limits` never changes the chain. |
| Firewall.ApplyDeviceLimits | web.py:141-148 | The loop over the registry yields `LimitsApplied`: each record's ensure, remove or nothing, in order. |
| Firewall.RulesFor | web.py:141-148 | The rules on one destination port. |
| Firewall.AppliedOtherPorts | web.py:141-148 | Records on other ports leave a port's rules alone. |
| Firewall.AppliedSplit | web.py:142 | Applying to a+b is applying to a, then to b. |
| Firewall.OnlyOwnStep | web.py:141-148 | With distinct ports, a port's rules after the loop come from its own record's step. |
| Firewall.DeviceLimitsEnforced | web.py:141-148 | With distinct ports, every record with a port and a bind IP has its ACCEPT and DROP rules afterwards. A record with a port and no bind IP has no limit rule left, when at most 30 were there before. |
| VpnConfig.InsertUnique | web.py:154 | Inserting into a sorted duplicate-free list keeps it so and adds exactly the element. |
| VpnConfig.SortedUnique | web.py:154-159 | `sorted(set(xs))` is ascending, duplicate-free, with exactly the elements of xs. |
| VpnConfig.SortedSetUnique | web.py:154-159 | Two ascending duplicate-free lists with the same elements are equal. |
| VpnConfig.UserPasswords | web.py:154 | The collected passwords are exactly the non-empty passwords of the registry. |
| VpnConfig.Synced | web.py:151-171 | The sync fails exactly in merge mode against a non-object "auth". Otherwise every other member of the config is kept. |
| VpnConfig.MirrorExact | web.py:151-171 | Mirror mode: "auth" becomes an object with mode "passwords" and exactly the registry's distinct non-empty passwords, ascending. Other members are untouched. |
| VpnConfig.MergeUnion | web.py:155-165 | Merge mode with an absent or object "auth": "auth" becomes an object with mode "passwords", and its list is the union of the old list and the registry's passwords, ascending. |
| VpnConfig.MergeRejectsNonObjectAuth | web.py:156-157 | Merge mode with an "auth" that is not an object fails before writing, and mirror mode does not. |
| VpnConfig.SettingsDefaulted | web.py:166-169 | listen, cert, key and obfs keep a set value, or get their defaults. |
| VpnConfig.SyncIdempotent | web.py:151-171 | Syncing again with the same registry changes nothing, in either mode. |
| WebPanel.Rows | web.py:307-323 | One row per record. |
| WebPanel.CountOfAppend | web.py:307-315 | The counters of a concatenation are the sum of the parts' counters. |
| WebPanel.CountsOrderFree | web.py:307-324 | The counters do not depend on the order of the rows, so counting before the sort is counting the shown list. |
| WebPanel.CountBounds | web.py:306-315 | total is the number of rows. online+offline and expired are at most total. |
| WebPanel.ByNameIsPreorder | web.py:324 | The sort key order is a total preorder. |
| WebPanel.ViewOf | web.py:304-328 | The page shows the notice and one row per record. |
| WebPanel.ViewShown | web.py:304-328 | The page lists every record once, sorted by lower-cased name. Records whose names are equal up to case keep their registry order. Its counters agree with the listed rows: total is the registry size, online+offline ≤ total, expired ≤ total. |
| WebPanel.AutoBound | web.py:289-295 | Auto-binding keeps the length. |
| WebPanel.AutoBoundAsWrittenNeverBinds | web.py:289-295 | As written, the probe prints nothing, so auto-binding never binds a record. |
| WebPanel.AutoBoundOnlyFills | web.py:290-294 | Auto-binding changes only an empty bind IP of a record with a port, and only to a dotted quad seen on that port. |
| WebPanel.AutoBoundIdempotent | web.py:289-297 | A second auto-bind against the same snapshot changes nothing. |
| WebPanel.AutoBoundKeepsNames | web.py:289-297 | Names, and so their uniqueness, are kept. |
| WebPanel.ClearRebinds | web.py:460-464 | A cleared lock is rebound by the page that follows when the device still sends. |
| WebPanel.BindIfSeen | web.py:291-295 | One loop turn binds per `BindOne` and reports whether the record changed. |
| WebPanel.AutoBind | web.py:289-295 | The loop yields `AutoBound`. `changed` is set only if a record changed, and unset means nothing changed. |
| WebPanel.CountRow | web.py:309-315 | One counting turn adds 1 to total, to online or offline by status, and to expired. |
| WebPanel.Summarize | web.py:304-324 | The counting loop yields the counters of the rows, then the rows sorted by name. |
| WebPanel.ExpiresField | web.py:370-371 | An expiry that is empty or not all digits is kept as typed. A whole number of days becomes the date that many days ahead. |
| WebPanel.AddedRecord | web.py:375-389 | The saved record keeps the typed user, password and bind IP, and a typed port. An allocated port is not taken. |
| WebPanel.AddCheck | web.py:373-377 | "add" is refused exactly when user or password is empty or a typed port fails validation. An empty user or password gives the "User/Password" notice, checked first. Otherwise a bad typed port gives the "Port 6000–19999" notice. |
| WebPanel.AddedPortValid | web.py:375-379 | The saved port is the typed valid port or the allocator's choice. It is "" only when none was typed and the pool is full. |
| WebPanel.EditCheck | web.py:428-431 | "edit" is refused on the same conditions as "add", with the same notices in the same order. |
| WebPanel.EditCanDuplicateNames | web.py:435-441 | Renaming through "edit" can give two records the same name up to case. |
| WebPanel.Panel.constructor | web.py:58-69 | The panel starts from the loaded registry. |
| WebPanel.Panel.SyncConfigPasswords | web.py:151-171 | config.json becomes `Synced` and the server restarts once, or in merge mode against a non-object "auth" nothing changes. |
| WebPanel.Panel.SaveAutoBound | web.py:289-297 | The registry becomes its auto-bound form. |
| WebPanel.Panel.BuildView | web.py:277-328 | The registry is auto-bound, and the chain gets the limits of the bound registry. The page is `ViewOf` the bound registry. config and restarts are unchanged. |
| WebPanel.Panel.Index | web.py:356-358 | GET "/" is `build_view` without a notice. |
| WebPanel.Panel.AddUser | web.py:360-393 | A refused form changes nothing but the auto-bind and shows the error. Otherwise the upserted registry is saved and mirrored (one restart), and the page says "Saved & Synced". |
| WebPanel.Panel.EditUser | web.py:419-448 | A refused form or an unknown `orig` shows the error. Otherwise the first match is replaced with all five fields. Its old port's limit rules are dropped when port or bind IP changes. The registry is mirrored and the reply redirects to "/". |
| WebPanel.Panel.LockNow | web.py:450-472 | Unknown user: "not found". "clear": the bind IP is emptied, then limits and page. No source seen: error with the registry unsaved. Otherwise: bound to the seen address, then limits and page. |
| WebPanel.Panel.DeleteUser | web.py:474-492 | An empty name is refused. Otherwise all matching records go, and the last one's port loses its limit rules. The registry is mirrored and the page says "Deleted: user". |
| WebPanel.Panel.ApiUsers | web.py:494-503 | The JSON list is every record in registry order with its status. |
| OneTimeKeys.IsAdmin | api.py:66-67 | A missing header reads as "", so it passes exactly when the secret is empty. |
| OneTimeKeys.NewKey | api.py:85-90 | A new key is unused and expires ttl*60 seconds after its creation. |
| OneTimeKeys.MarkUsed | api.py:123 | Marking sets only this key's "used" to now. The token set and every other key are unchanged. |
| OneTimeKeys.ConsumeCheck | api.py:131-143 | No refusal means a non-empty, known, unused, unexpired token. A refusal is a failure reply. |
| OneTimeKeys.Truncated | api.py:86 | The note is the first 200 characters, or all of it when shorter. |
| OneTimeKeys.ConsumePrecedence | api.py:131-143 | consume answers 400 for an empty token, else 404 for an unknown one, else 409 for a used one, else 410 when now > exp, else succeeds. Each case holds exactly under its condition. |
| OneTimeKeys.UsedBeforeExpired | api.py:139-143 | A used and expired key answers "used". |
| OneTimeKeys.ExpiryInclusive | api.py:142 | An unused key is accepted at now == exp and expired one second later. |
| OneTimeKeys.MarkUsedIsFinal | api.py:139-147 | After a consume or revoke at a time other than 0, every later consume of that key answers "used", and every other key answers as before. |
| OneTimeKeys.MarkUsedAtEpoch | api.py:139-145 | A consume at time 0 stores 0, which reads as unused, so the key stays consumable. |
| OneTimeKeys.FreshKeyConsumable | api.py:85-90 | A key created with ttl ≥ 0 is consumable until ttl minutes after creation, and expired after. |
| OneTimeKeys.Items | api.py:101-109 | One listing entry per token. |
| OneTimeKeys.LaterIsPreorder | api.py:110 | "Later expiry first" is a total preorder. |
| OneTimeKeys.StatusShown | api.py:101-110 | The listing has one entry per token, latest expiry first, with each key's note and expiry. Keys with equal expiry keep their file order. `used` is true iff the stored value reads as used. An unused key reports use time 0. |
| OneTimeKeys.KeyStore.constructor | api.py:154-157 | Starting without a key file, the service starts from the empty key store. |
| OneTimeKeys.KeyStore.Create | api.py:78-92 | Without the secret: 401 and no change. Otherwise the token maps to {note[:200], now+ttl*60, unused, now} (ttl defaults to 60), and no other entry changes. |
| OneTimeKeys.KeyStore.Revoke | api.py:113-125 | Without the secret: 401. An unknown stripped token: 404 and no change. Otherwise the key is marked used at now. |
| OneTimeKeys.KeyStore.Consume | api.py:127-148 | The answer is `ConsumeCheck`'s refusal with no change, or success with only this key marked used at now. |
| OneTimeKeys.KeyStore.Status | api.py:94-111 | Without the secret: 401. Otherwise the listing is built by the loop and sorted latest expiry first. |

## Left out

- Rendering: HTML templates and Flask routing. The login form, sessions and the `hmac` password check (web.py:24-30, 331-354). The 405 redirect. The GET branch of "/edit", which splices a form into the page (web.py:398-417). CORS headers and OPTIONS answers in the key API.
- File and process plumbing: `read_json`/`write_json_atomic` temp-file-and-rename, `load_db`/`save_db`, `sh`/`subprocess`, `systemctl`. A restart is a counter. The probes (`ss -uHln`, grep or conntrack for flows, the awk source-address probe) are the `Host` snapshot, one per request.
- WebPanel.ExpiresField: `dateAfter` is total. In the source, `datetime.now() + timedelta(days=int(expires))` (web.py:371 and web.py:427) raises OverflowError once the date would pass the year 9999, that is for about 2.9 million days or more. "add" and "edit" then answer a server error and save nothing. In the model they save the record.
- Clocks and randomness: `datetime.now()`, `timedelta`, `strftime`, `time.time()`, `secrets.token_urlsafe` and `utcfromtimestamp().isoformat()` are parameters. The model keeps epoch seconds.
- Concurrency: the services take no locks, and the model adds none.
- Python quirks outside ASCII: `str.isdigit()` and the regex `\d` accept Unicode digits, and `lower()` folds non-ASCII letters. The model takes ASCII digits and ASCII case folding.
- JSON values of other types are outside the model types:
  - `int(ttl_minutes)` also accepts a numeric string ("30"), a float (30.7 gives 30) and a bool; the model takes an integer.
  - A list note is sliced like a string and stored as a list; the model takes a string note.
  - `str()` turns every "auth"."config" item into text; the model takes string items.
  - A non-string user, password, expiry or bind IP in users.json is kept as is; the model takes strings.
  - A stored port is a string, an integer, a bool or null (`Registry.Scalar`). A float port ("6000.0") is not modelled.
  - A users.json entry that is not an object makes the loader raise; it is not modelled.
- `hmac.compare_digest` raises on non-ASCII strings. `IsAdmin` is plain equality.
- iptables text: rules are values, not the lines `iptables -S` prints. iptables canonicalises ports, so a rule's port string is taken as given. Two further defects of the removal text are not modelled, since `Firewall.RemoveAsWrittenNeverDeletes` already shows that nothing is deleted: the query needs two spaces before "-j", which `iptables -S` never prints; and the delete command reads "-D INPUT INPUT ...".
- Firewall.LimitStep: states the intended ensure and removal, which the handlers use. As written the insert never runs (`Firewall.EnsureAsWrittenNeverInserts`) and the removal never deletes, so the chain never changes (`Firewall.AppliedAsWrittenChangesNothing`).
- Firewall.RemoveLimitRules: states the intended removal. As written, grep reads the query as options and nothing is deleted (`Firewall.RemoveAsWrittenNeverDeletes`).
- WebPanel.AutoBound: states the intended auto-bind, and `WebPanel.Panel.LockNow` uses the intended probe. As written the probe prints nothing, so nothing is ever bound (`WebPanel.AutoBoundAsWrittenNeverBinds`) and "lock" without "clear" always answers that no UDP traffic was seen.
- web.py:511-773 (a pasted second copy of the panel) and web2day.py (template only) are not part of this model.
- OneTimeKeys.StatusShown: sorts by the expiry in epoch seconds, where the source sorts by its ISO-8601 text. The two orders agree for fixed-width years 0001-9999. "One entry per token" is stated as equal length, every token covered and every entry's token in the file.
- OneTimeKeys.KeyStore.constructor: models start-up without keys.json, when api.py:156-157 writes `{}`. With an existing file the service starts from its keys; the handlers then work on any `KeyStore` state.
- OneTimeKeys.KeyStore.Status: the listing's `expires_at_utc` and `used_at_utc` text is left as epoch seconds. A missing "used" value (None) is never produced by these handlers and is not modelled. `utcfromtimestamp` raises for an expiry or use time outside the years 1-9999, so the status listing fails with a server error. The model lists such keys as usual.
- Firewall.DeviceLimitsEnforced: is stated for distinct registry ports only. With a shared port, the later record's step wins. The source does not prevent that, because "add" does not check it.

Where the specification and the code differ, the model follows the code:

- Expired credentials are counted, never pruned. No periodic sweep re-applies the locks: limits are applied on each page view.
- "delete" of an unknown name still saves, mirrors and answers "Deleted: name".
- "add" over an existing name does not release the old port or its rules.
- A full pool stores the port "".
- "edit" does not check the new name against the others (`WebPanel.EditCanDuplicateNames`).

## Findings

| source | as written | input that shows it | evidently intended | confidence | as-written member | corrected member |
|---|---|---|---|---|---|---|
| web.py:121-127 | `ipt(check) or ipt(insert)`: `sh` returns a `CompletedProcess`, which is always truthy, so the insert never runs and no lock is installed | empty INPUT chain, port "6000", bind IP "10.0.0.2": no ACCEPT rule appears | insert each rule when `iptables -C` reports it missing (non-zero exit) | high (not executed) | Firewall.EnsureAsWrittenCounterexample | Firewall.EnsureLimits |
| web.py:129-139 | the grep pattern is passed as `"-p udp ..."`, so grep reads it as options, fails, and prints nothing; the loop stops at once | INPUT holding one ACCEPT rule for port 6000: `remove_limit_rules("6000")` keeps it | delete the port's ACCEPT and DROP rules one at a time (a pattern after `-e` or `--`) | high (not executed) | Firewall.RemoveAsWrittenCounterexample | Firewall.RemoveLimitRules |
| web.py:101-108 | inside the double-quoted awk program the shell expands `$i` to the empty string, so awk gets `if(~/src=/)` and `split(,a,'=')`, rejects it, and prints nothing | connection tracking shows src=10.0.0.2 towards port 6000: the probe returns "" | escape the dollars (`\$i`) and quote "=" with double quotes, so the first src= address is printed | high (not executed) | Liveness.SrcProbeAsWrittenCounterexample | Liveness.FirstRecentSrcIp |
