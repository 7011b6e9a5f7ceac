/**
 * The worker's tables, held in memory: users, the allow-list, its
 * enforcement flag, the configured redirect suffixes, the per-(user,
 * origin) last-seen counters, the capped request log and the IP-to-city
 * cache. Each method performs what one SQL statement sequence of the
 * worker does. Times are whole seconds (the worker stores local-time
 * strings of one fixed format, which order the same way).
 */
module Store {
  import opened Wrappers
  import opened Gate
  import opened Redirect
  import opened Urls

  /** The number of log rows kept. */
  const LogMax := 2000

  /** How long logs, last-seen rows and cached cities are kept: seven days. */
  const DataTtlDays := 7
  const DataTtlMs := DataTtlDays * 86400000

  datatype UserRow = UserRow(enabled: bool, note: string, createdAt: int, updatedAt: int)

  datatype SeenRow = SeenRow(lastTs: int, count: nat, lastIp: string, lastColo: string)

  datatype LogRow = LogRow(id: nat, ts: int, entry: LogEntry, ip: string, city: string, colo: string, ua: string)

  datatype GeoRow = GeoRow(city: string, updatedAt: int)

  /** Log ids strictly increase along the table. */
  predicate IdsIncreasing(rows: seq<LogRow>)
  {
    forall i, j :: 0 <= i < j < |rows| ==> rows[i].id < rows[j].id
  }

  /** The rows that satisfy `keep`, in order: what a `DELETE ... WHERE not keep` leaves. */
  function Filter(rows: seq<LogRow>, keep: LogRow -> bool): (r: seq<LogRow>)
    ensures |r| <= |rows|
    ensures forall x :: x in r <==> x in rows && keep(x)
    ensures IdsIncreasing(rows) ==> IdsIncreasing(r)
  {
    if |rows| == 0 then []
    else
      var rest := Filter(rows[1..], keep);
      assert forall x :: x in rows <==> x == rows[0] || x in rows[1..];
      if keep(rows[0]) then
        assert forall x :: x in rest ==> x in rows[1..];
        assert IdsIncreasing(rows) ==> forall j :: 0 <= j < |rest| ==> rows[0].id < rest[j].id by {
          if IdsIncreasing(rows) {
            forall j | 0 <= j < |rest|
              ensures rows[0].id < rest[j].id
            {
              assert rest[j] in rows[1..];
            }
          }
        }
        [rows[0]] + rest
      else rest
  }

  /** Strictly increasing ids that all lie in `[lo, hi)` number at most `hi - lo`. */
  lemma {:induction false} IncreasingWithinWindow(rows: seq<LogRow>, lo: int, hi: int)
    requires IdsIncreasing(rows)
    requires forall i :: 0 <= i < |rows| ==> lo <= rows[i].id < hi
    ensures |rows| <= if hi - lo < 0 then 0 else hi - lo
  {
    if |rows| > 0 {
      IncreasingWithinWindow(rows[1..], rows[0].id + 1, hi);
    }
  }

  /** The rows of the log that survive the prune after row `newId` was inserted. */
  function Pruned(rows: seq<LogRow>, newId: nat): seq<LogRow>
  {
    Filter(rows, (r: LogRow) => r.id > newId - LogMax)
  }

  /** The last-seen table after one more request of `user` to `origin`. */
  function Touched(seen: map<(string, string), SeenRow>, user: string, origin: string,
                   ts: int, ip: string, colo: string): map<(string, string), SeenRow>
  {
    var key := (user, origin);
    seen[key := SeenRow(ts, if key in seen then seen[key].count + 1 else 1, ip, colo)]
  }

  /**
   * One more request adds a row with count 1 or adds exactly 1 to the
   * existing row's count; every other row is untouched.
   */
  lemma TouchCounts(seen: map<(string, string), SeenRow>, user: string, origin: string, ts: int, ip: string, colo: string)
    ensures var t := Touched(seen, user, origin, ts, ip, colo);
      && (user, origin) in t
      && t[(user, origin)].count == (if (user, origin) in seen then seen[(user, origin)].count + 1 else 1)
      && t[(user, origin)].lastTs == ts
      && t.Keys == seen.Keys + {(user, origin)}
      && (forall k :: k in seen && k != (user, origin) ==> t[k] == seen[k])
  {
  }

  /** The contents of every table at one moment. */
  datatype Db = Db(
    users: map<string, UserRow>,
    whitelist: map<string, int>,              // origin key -> created_at
    whitelistFlag: Option<bool>,              // the 'whitelistEnabled' config row
    manualDomains: Option<seq<string>>,       // the 'manualRedirectDomains' config row
    lastSeen: map<(string, string), SeenRow>,
    logs: seq<LogRow>,                        // ascending id
    nextLogId: nat,                           // the AUTOINCREMENT counter
    ipGeo: map<string, GeoRow>)

  /** `getWhitelistEnabled`: only a stored "1" enforces the allow-list. */
  predicate WhitelistEnabled(d: Db)
  {
    d.whitelistFlag == Some(true)
  }

  /** The allow-list as the gate sees it. */
  function PolicyOf(d: Db): (p: Policy)
    ensures forall key :: Permits(p, key) <==> !WhitelistEnabled(d) || key in d.whitelist
  {
    Policy(WhitelistEnabled(d), d.whitelist.Keys)
  }

  /** `getUser`, reduced to what the gate reads: the enabled flag per user. */
  function EnabledOf(d: Db): (m: map<string, bool>)
    ensures forall u :: UserEnabled(m, u) <==> u in d.users && d.users[u].enabled
  {
    map u | u in d.users :: d.users[u].enabled
  }

  /** The tables after the seeding of `ensureDb`. */
  function Seeded(d: Db, now: int): Db
  {
    d.(manualDomains := if d.manualDomains.None? then Some(DefaultManualDomains()) else d.manualDomains,
       whitelistFlag := if d.whitelistFlag.None? then Some(false) else d.whitelistFlag,
       users := if "ikun" in d.users then d.users else d.users["ikun" := UserRow(true, "", now, now)])
  }

  /** The user table after `upsertUser`. */
  function Upserted(users: map<string, UserRow>, user: string, note: string, now: int): map<string, UserRow>
  {
    users[user := if user in users then users[user].(note := note, updatedAt := now) else UserRow(true, note, now, now)]
  }

  /** The tables after `deleteUser`. */
  function WithoutUser(d: Db, user: string): Db
  {
    d.(users := d.users - {user},
       lastSeen := map k | k in d.lastSeen && k.0 != user :: d.lastSeen[k])
  }

  /** The tables after `writeLog`: the row appended under the next id, then the log pruned. */
  function Logged(d: Db, entry: LogEntry, ts: int, ip: string, city: string, colo: string, ua: string): Db
  {
    d.(nextLogId := d.nextLogId + 1,
       logs := Pruned(d.logs + [LogRow(d.nextLogId, ts, entry, ip, city, colo, ua)], d.nextLogId))
  }

  /** The user table after `toggleUser`. */
  function Toggled(users: map<string, UserRow>, user: string, now: int): map<string, UserRow>
  {
    if user in users then users[user := users[user].(enabled := !users[user].enabled, updatedAt := now)]
    else users
  }

  /** The last-seen rows touched at or after `cut`. */
  function SeenSince(seen: map<(string, string), SeenRow>, cut: int): map<(string, string), SeenRow>
  {
    map k | k in seen && seen[k].lastTs >= cut :: seen[k]
  }

  /** The geo cache rows refreshed at or after `cut`. */
  function GeoSince(geo: map<string, GeoRow>, cut: int): map<string, GeoRow>
  {
    map ip | ip in geo && geo[ip].updatedAt >= cut :: geo[ip]
  }

  /** The tables after `cleanupOldData`. */
  function Cleaned(d: Db, nowMs: int): Db
  {
    d.(logs := Filter(d.logs, (r: LogRow) => r.ts >= Cutoff(nowMs)),
       lastSeen := SeenSince(d.lastSeen, Cutoff(nowMs)),
       ipGeo := GeoSince(d.ipGeo, GeoCutoff(nowMs)))
  }

  class Store {
    var users: map<string, UserRow>
    var whitelist: map<string, int>
    var whitelistFlag: Option<bool>
    var manualDomains: Option<seq<string>>
    var lastSeen: map<(string, string), SeenRow>
    var logs: seq<LogRow>
    var nextLogId: nat
    var ipGeo: map<string, GeoRow>

    function State(): Db
      reads this
    {
      Db(users, whitelist, whitelistFlag, manualDomains, lastSeen, logs, nextLogId, ipGeo)
    }

    /** Log ids strictly increase, stay below the counter, and at most `LogMax` rows are kept. */
    ghost predicate Valid()
      reads this
    {
      && IdsIncreasing(logs)
      && (forall i :: 0 <= i < |logs| ==> logs[i].id < nextLogId)
      && |logs| <= LogMax
    }

    /** Freshly created, empty tables. */
    constructor ()
      ensures Valid()
      ensures State() == Db(map[], map[], None, None, map[], [], 1, map[])
    {
      users := map[];
      whitelist := map[];
      whitelistFlag := None;
      manualDomains := None;
      lastSeen := map[];
      logs := [];
      nextLogId := 1;
      ipGeo := map[];
    }

    /**
     * The seeding of `ensureDb`: missing config rows get their defaults
     * (the built-in suffix list, the allow-list off), and user `ikun` is
     * inserted unless present.
     */
    method EnsureSeeded(now: int)
      requires Valid()
      modifies this
      ensures Valid()
      ensures State() == Seeded(old(State()), now)
    {
      if manualDomains.None? {
        manualDomains := Some(DefaultManualDomains());
      }
      if whitelistFlag.None? {
        whitelistFlag := Some(false);
      }
      if "ikun" !in users {
        users := users["ikun" := UserRow(true, "", now, now)];
      }
    }

    /** `setWhitelistEnabled`. */
    method SetWhitelistEnabled(enabled: bool)
      requires Valid()
      modifies this
      ensures Valid()
      ensures State() == old(State()).(whitelistFlag := Some(enabled))
      ensures WhitelistEnabled(State()) == enabled
    {
      whitelistFlag := Some(enabled);
    }

    /** `setManualRedirectDomains`. */
    method SetManualDomains(list: seq<string>)
      requires Valid()
      modifies this
      ensures Valid()
      ensures State() == old(State()).(manualDomains := Some(list))
    {
      manualDomains := Some(list);
    }

    /** `upsertUser`: a new user starts enabled; an existing one keeps its flag and creation time. */
    method UpsertUser(user: string, note: string, now: int)
      requires Valid()
      modifies this
      ensures Valid()
      ensures State() == old(State()).(users := Upserted(old(users), user, note, now))
    {
      if user in users {
        users := users[user := users[user].(note := note, updatedAt := now)];
      } else {
        users := users[user := UserRow(true, note, now, now)];
      }
    }

    /** `toggleUser`: flips the flag of a present user; an absent user changes nothing. */
    method ToggleUser(user: string, now: int)
      requires Valid()
      modifies this
      ensures Valid()
      ensures State() == old(State()).(users := Toggled(old(users), user, now))
    {
      if user !in users {
        return;
      }
      var row := users[user];
      users := users[user := row.(enabled := !row.enabled, updatedAt := now)];
    }

    /** `deleteUser`: removes the user and, with it, every last-seen row of that user; logs stay. */
    method DeleteUser(user: string)
      requires Valid()
      modifies this
      ensures Valid()
      ensures State() == WithoutUser(old(State()), user)
    {
      users := users - {user};
      lastSeen := map k | k in lastSeen && k.0 != user :: lastSeen[k];
    }

    /** `addWhitelist`: insert-or-ignore, so an existing entry keeps its creation time. */
    method AddWhitelist(origin: string, now: int)
      requires Valid()
      modifies this
      ensures Valid()
      ensures State() == old(State()).(whitelist :=
                if origin in old(whitelist) then old(whitelist) else old(whitelist)[origin := now])
    {
      if origin !in whitelist {
        whitelist := whitelist[origin := now];
      }
    }

    /** `deleteWhitelist`. */
    method DeleteWhitelist(origin: string)
      requires Valid()
      modifies this
      ensures Valid()
      ensures State() == old(State()).(whitelist := old(whitelist) - {origin})
    {
      whitelist := whitelist - {origin};
    }

    /** `isWhitelisted`. */
    function IsWhitelisted(origin: string): (r: bool)
      reads this
      ensures r <==> Permits(Policy(true, State().whitelist.Keys), origin)
    {
      origin in whitelist
    }

    /**
     * The gate's test `getWhitelistEnabled() && !isWhitelisted(key)` refuses
     * exactly the keys the stored policy does not permit.
     */
    lemma LookupAgreesWithPolicy()
      ensures forall key :: Permits(PolicyOf(State()), key) <==> !WhitelistEnabled(State()) || IsWhitelisted(key)
    {
    }

    /** `touchLastSeen`: the upsert of the (user, origin) counter. */
    method TouchLastSeen(user: string, origin: string, ts: int, ip: string, colo: string)
      requires Valid()
      modifies this
      ensures Valid()
      ensures State() == old(State()).(lastSeen := Touched(old(lastSeen), user, origin, ts, ip, colo))
    {
      var key := (user, origin);
      if key in lastSeen {
        lastSeen := lastSeen[key := SeenRow(ts, lastSeen[key].count + 1, ip, colo)];
      } else {
        lastSeen := lastSeen[key := SeenRow(ts, 1, ip, colo)];
      }
    }

    /**
     * `writeLog`: appends a row under the next id, then deletes every row
     * whose id is at most the new maximum minus `LogMax`.
     */
    method WriteLog(entry: LogEntry, ts: int, ip: string, city: string, colo: string, ua: string)
      requires Valid()
      modifies this
      ensures Valid()
      ensures State() == Logged(old(State()), entry, ts, ip, city, colo, ua)
    {
      var id := nextLogId;
      var row := LogRow(id, ts, entry, ip, city, colo, ua);
      var grown := logs + [row];
      assert IdsIncreasing(grown);
      nextLogId := nextLogId + 1;
      logs := Pruned(grown, id);
      PrunedKeepsNewest(grown, id);
      forall i | 0 <= i < |logs|
        ensures logs[i].id < nextLogId
      {
        assert logs[i] in logs;
      }
    }

    /**
     * `cleanupOldData`: drops log and last-seen rows older than seven days
     * and cached cities older than seven days.
     */
    method CleanupOldData(nowMs: int)
      requires Valid()
      modifies this
      ensures Valid()
      ensures State() == Cleaned(old(State()), nowMs)
    {
      var cutoff := Cutoff(nowMs);
      var old_logs := logs;
      logs := Filter(logs, (r: LogRow) => r.ts >= cutoff);
      forall i | 0 <= i < |logs|
        ensures logs[i].id < nextLogId
      {
        assert logs[i] in old_logs;
      }
      lastSeen := map k | k in lastSeen && lastSeen[k].lastTs >= cutoff :: lastSeen[k];
      var geoCutoff := GeoCutoff(nowMs);
      ipGeo := map ip | ip in ipGeo && ipGeo[ip].updatedAt >= geoCutoff :: ipGeo[ip];
    }
  }

  /** The cutoff of logs and last-seen rows: the time seven days ago, in whole seconds. */
  function Cutoff(nowMs: int): int
  {
    (nowMs - DataTtlMs) / 1000
  }

  /** The cutoff of cached cities: `floor(now / 1000) - 7 * 86400`. */
  function GeoCutoff(nowMs: int): int
  {
    nowMs / 1000 - DataTtlDays * 86400
  }

  /** The two cutoffs, computed differently, are the same instant. */
  lemma CutoffsAgree(nowMs: int)
    ensures Cutoff(nowMs) == GeoCutoff(nowMs)
  {
  }

  /**
   * After a prune, the log holds at most `LogMax` rows; they are exactly the
   * rows whose id is among the last `LogMax` ids handed out, the new row
   * among them.
   */
  lemma PrunedKeepsNewest(rows: seq<LogRow>, newId: nat)
    requires IdsIncreasing(rows) && |rows| > 0 && rows[|rows| - 1].id == newId
    ensures |Pruned(rows, newId)| <= LogMax
    ensures forall r :: r in Pruned(rows, newId) <==> r in rows && r.id > newId - LogMax
    ensures rows[|rows| - 1] in Pruned(rows, newId)
  {
    var p := Pruned(rows, newId);
    forall i | 0 <= i < |p|
      ensures newId - LogMax < p[i].id < newId + 1
    {
      assert p[i] in p;
      var j :| 0 <= j < |rows| && rows[j] == p[i];
      assert j == |rows| - 1 || rows[j].id < rows[|rows| - 1].id;
    }
    IncreasingWithinWindow(p, newId - LogMax + 1, newId + 1);
  }

  /** Toggling the same user twice restores its flag; toggling an absent user changes nothing. */
  lemma ToggleTwice(users: map<string, UserRow>, user: string, t1: int, t2: int)
    ensures user in users ==> Toggled(Toggled(users, user, t1), user, t2) == users[user := users[user].(updatedAt := t2)]
    ensures user !in users ==> Toggled(users, user, t1) == users
  {
  }

  /** After a toggle the gate admits the user exactly when it did not before. */
  lemma ToggleFlipsAdmission(d: Db, user: string, now: int)
    requires user in d.users
    ensures UserEnabled(EnabledOf(d.(users := Toggled(d.users, user, now))), user)
       <==> !UserEnabled(EnabledOf(d), user)
  {
  }

  /**
   * Seeding fills only what is missing: a second seeding changes nothing,
   * afterwards user `ikun` exists and both config rows are present, and a
   * stored `ikun` keeps its flag, so a disabled `ikun` stays disabled.
   */
  lemma SeedingFillsGaps(d: Db, t1: int, t2: int)
    ensures Seeded(Seeded(d, t1), t2) == Seeded(d, t1)
    ensures var s := Seeded(d, t1);
      "ikun" in s.users && s.manualDomains.Some? && s.whitelistFlag.Some?
      && ("ikun" in d.users ==> s.users["ikun"] == d.users["ikun"])
      && ("ikun" !in d.users ==> s.users["ikun"].enabled)
    ensures d.whitelistFlag.None? ==> !WhitelistEnabled(Seeded(d, t1))
  {
  }

  /**
   * An upsert sets the note; an existing user keeps its flag and creation
   * time, and a new user starts enabled; nobody else changes.
   */
  lemma UpsertKeepsFlag(users: map<string, UserRow>, user: string, note: string, now: int)
    ensures var u := Upserted(users, user, note, now);
      && user in u && u[user].note == note && u[user].updatedAt == now
      && (user in users ==> u[user].enabled == users[user].enabled && u[user].createdAt == users[user].createdAt)
      && (user !in users ==> u[user].enabled && u[user].createdAt == now)
      && u.Keys == users.Keys + {user}
      && (forall k :: k in users && k != user ==> u[k] == users[k])
  {
  }

  /** Once a user is deleted, every proxy request under that user's path is refused with 403. */
  lemma DeletedUserRefused(d: Db, user: string, pathname: string, search: string, policy: Policy, parse: Parser)
    requires |Segments(pathname)| >= 2 && Segments(pathname)[0] == user
    ensures var a := Decide(pathname, search, EnabledOf(WithoutUser(d, user)), policy, parse);
      a.Refused? && a.entry.status == 403 && a.entry.reason == UserDenied
  {
    var m := EnabledOf(WithoutUser(d, user));
    assert !UserEnabled(m, user);
  }

  /** An origin just added to the allow-list passes the gate; one just deleted fails it while the list is enforced. */
  lemma AllowListEditsReachGate(d: Db, origin: string, now: int)
    ensures Permits(PolicyOf(d.(whitelist := if origin in d.whitelist then d.whitelist else d.whitelist[origin := now])), origin)
    ensures WhitelistEnabled(d) ==> !Permits(PolicyOf(d.(whitelist := d.whitelist - {origin})), origin)
  {
  }

  /** Filtering twice by the same test is filtering once. */
  lemma {:induction false} FilterTwice(rows: seq<LogRow>, keep: LogRow -> bool)
    ensures Filter(Filter(rows, keep), keep) == Filter(rows, keep)
  {
    if |rows| > 0 {
      FilterTwice(rows[1..], keep);
      if keep(rows[0]) {
        assert ([rows[0]] + Filter(rows[1..], keep))[1..] == Filter(rows[1..], keep);
      }
    }
  }

  /**
   * Cleanup keeps, in all three tables, exactly the rows stamped at or after
   * one instant: seven days before `nowMs`, in whole seconds.
   */
  lemma CleanupExactly(d: Db, nowMs: int)
    ensures var since := nowMs / 1000 - DataTtlDays * 86400;
      forall r :: r in Cleaned(d, nowMs).logs <==> r in d.logs && r.ts >= since
    ensures var since := nowMs / 1000 - DataTtlDays * 86400;
      forall k :: k in Cleaned(d, nowMs).lastSeen <==> k in d.lastSeen && d.lastSeen[k].lastTs >= since
    ensures var since := nowMs / 1000 - DataTtlDays * 86400;
      forall ip :: ip in Cleaned(d, nowMs).ipGeo <==> ip in d.ipGeo && d.ipGeo[ip].updatedAt >= since
  {
    CutoffsAgree(nowMs);
  }

  /** A second cleanup at the same instant removes nothing more. */
  lemma CleanupIdempotent(d: Db, nowMs: int)
    ensures Cleaned(Cleaned(d, nowMs), nowMs) == Cleaned(d, nowMs)
  {
    var c := Cleaned(d, nowMs);
    FilterTwice(d.logs, (r: LogRow) => r.ts >= Cutoff(nowMs));
    SinceTwice(d.lastSeen, Cutoff(nowMs));
    GeoSinceTwice(d.ipGeo, GeoCutoff(nowMs));
    assert Cleaned(c, nowMs) == c.(logs := c.logs, lastSeen := c.lastSeen, ipGeo := c.ipGeo);
  }

  lemma SinceTwice(seen: map<(string, string), SeenRow>, cut: int)
    ensures SeenSince(SeenSince(seen, cut), cut) == SeenSince(seen, cut)
  {
  }

  lemma GeoSinceTwice(geo: map<string, GeoRow>, cut: int)
    ensures GeoSince(GeoSince(geo, cut), cut) == GeoSince(geo, cut)
  {
  }

  /** In a table of increasing ids, a row whose id no other row exceeds is the last one. */
  lemma MaxIsLast(rows: seq<LogRow>, row: LogRow)
    requires IdsIncreasing(rows) && row in rows
    requires forall i :: 0 <= i < |rows| ==> rows[i].id <= row.id
    ensures rows[|rows| - 1] == row
  {
    var j :| 0 <= j < |rows| && rows[j] == row;
    if j < |rows| - 1 {
      assert rows[j].id < rows[|rows| - 1].id;
    }
  }

  /**
   * A log write keeps the table within `LogMax` rows, the new row last, and
   * removes only rows whose id is at least `LogMax` below the new one.
   */
  lemma LoggedRowIsNewest(d: Db, entry: LogEntry, ts: int, ip: string, city: string, colo: string, ua: string)
    requires IdsIncreasing(d.logs) && forall i :: 0 <= i < |d.logs| ==> d.logs[i].id < d.nextLogId
    ensures var after := Logged(d, entry, ts, ip, city, colo, ua).logs;
      && |after| <= LogMax
      && |after| > 0 && after[|after| - 1] == LogRow(d.nextLogId, ts, entry, ip, city, colo, ua)
      && (forall r :: r in d.logs && r.id > d.nextLogId - LogMax ==> r in after)
      && (forall r :: r in after ==> r in d.logs || r.id == d.nextLogId)
  {
    var row := LogRow(d.nextLogId, ts, entry, ip, city, colo, ua);
    var grown := d.logs + [row];
    AppendKeepsIncreasing(d.logs, row);
    PrunedKeepsNewest(grown, d.nextLogId);
    var after := Pruned(grown, d.nextLogId);
    assert after == Logged(d, entry, ts, ip, city, colo, ua).logs;
    NoneAbove(after, grown, row);
    MaxIsLast(after, row);
  }

  /** Appending a row whose id exceeds every stored id keeps the ids increasing. */
  lemma AppendKeepsIncreasing(rows: seq<LogRow>, row: LogRow)
    requires IdsIncreasing(rows) && forall i :: 0 <= i < |rows| ==> rows[i].id < row.id
    ensures IdsIncreasing(rows + [row])
    ensures forall r :: r in rows + [row] <==> r in rows || r == row
  {
  }

  /** Rows drawn from an increasing table that ends in `row` have ids no larger than its id. */
  lemma NoneAbove(sub: seq<LogRow>, rows: seq<LogRow>, row: LogRow)
    requires IdsIncreasing(rows) && |rows| > 0 && rows[|rows| - 1] == row
    requires forall r :: r in sub ==> r in rows
    ensures forall i :: 0 <= i < |sub| ==> sub[i].id <= row.id
  {
    forall i | 0 <= i < |sub|
      ensures sub[i].id <= row.id
    {
      assert sub[i] in rows;
      var j :| 0 <= j < |rows| && rows[j] == sub[i];
      assert j == |rows| - 1 || rows[j].id < row.id;
    }
  }
}
