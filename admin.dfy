/**
 * The per-isolate state of the worker and the admin console's POST
 * actions. A `Service` owns the store plus the module-level variables the
 * worker reassigns: the one-time initialisation flag, the time of the last
 * periodic cleanup and the cached list of redirect suffixes.
 */
module Admin {
  import opened Text
  import opened Wrappers
  import opened Urls
  import opened Gate
  import opened Redirect
  import opened Lists
  import opened Session
  import opened Store

  /** Periodic cleanup runs at most once every thirty minutes. */
  const CleanupIntervalMs := 30 * 60000

  /** The cached suffix list is trusted for one minute. */
  const ManualCacheTtlMs := 60000

  // ------------------------------------------------------------ admin input

  /** `x.replace(/^https?:\/\//i, "")`. */
  function DropScheme(s: string): string
  {
    if |s| >= 8 && Lower(s[..8]) == "https://" then s[8..]
    else if |s| >= 7 && Lower(s[..7]) == "http://" then s[7..]
    else s
  }

  /** `x.replace(/^www\./i, "")`. */
  function DropWww(s: string): string
  {
    if |s| >= 4 && Lower(s[..4]) == "www." then s[4..] else s
  }

  /** One entry of the suffix list as the admin form stores it. */
  function CleanDomain(x: string): (r: string)
    ensures IsTrimmed(r)
  {
    TrimIsTrimmed(DropWww(Trim(DropScheme(x))));
    Trim(DropWww(Trim(DropScheme(x))))
  }

  /** `.map(cleanDomain).filter(Boolean)`. */
  function CleanDomains(xs: seq<string>): (r: seq<string>)
    ensures |r| <= |xs|
    ensures forall k :: 0 <= k < |r| ==> |r[k]| > 0
  {
    NonEmpty(seq(|xs|, i requires 0 <= i < |xs| => CleanDomain(xs[i])))
  }

  /** Every stored suffix is trimmed and comes from one of the input items. */
  lemma CleanDomainsTrimmed(xs: seq<string>)
    ensures forall d :: d in CleanDomains(xs) ==> IsTrimmed(d) && exists i :: 0 <= i < |xs| && d == CleanDomain(xs[i])
  {
    var cleaned := seq(|xs|, i requires 0 <= i < |xs| => CleanDomain(xs[i]));
    assert CleanDomains(xs) == NonEmpty(cleaned);
    NonEmptyMembers(cleaned);
    forall d | d in cleaned
      ensures IsTrimmed(d) && exists i :: 0 <= i < |xs| && d == CleanDomain(xs[i])
    {
      var i :| 0 <= i < |cleaned| && cleaned[i] == d;
      CleanedEntry(xs, i);
    }
  }

  lemma CleanedEntry(xs: seq<string>, i: int)
    requires 0 <= i < |xs|
    ensures IsTrimmed(CleanDomain(xs[i]))
  {
  }

  /** The suffix list parsed from the admin form's text area. */
  function DomainList(raw: string): seq<string>
  {
    CleanDomains(SplitList(raw))
  }

  predicate StartsWithAnyCase(s: string, prefix: string)
  {
    |prefix| <= |s| && Lower(s[..|prefix|]) == prefix
  }

  lemma LowerLength(s: string)
    ensures |Lower(s)| == |s|
  {
  }

  /** A string whose first character is not `h` or `H` has no `http(s)://` prefix, so `DropScheme` leaves it unchanged. */
  lemma NoSchemeAfter(prefix: string, rest: string)
    requires |prefix| > 0 && LowerChar(prefix[0]) != 'h'
    ensures DropScheme(prefix + rest) == prefix + rest
  {
    var s := prefix + rest;
    if |s| >= 8 {
      assert Lower(s[..8])[0] == LowerChar(prefix[0]);
    }
    if |s| >= 7 {
      assert Lower(s[..7])[0] == LowerChar(prefix[0]);
    }
  }

  /** `DropScheme` removes a scheme written in any case, and only that. */
  lemma DropSchemeOf(scheme: string, rest: string)
    requires Lower(scheme) == "https://" || Lower(scheme) == "http://"
    ensures DropScheme(scheme + rest) == rest
  {
    LowerLength(scheme);
    var s := scheme + rest;
    if Lower(scheme) == "https://" {
      assert s[..8] == scheme;
    } else {
      assert s[..7] == scheme;
      if |s| >= 8 {
        assert Lower(s[..8])[4] == LowerChar(scheme[4]) == Lower(scheme)[4] == ':';
      }
    }
  }

  lemma LowerOfPrefix(s: string, n: nat)
    requires n <= |s|
    ensures Lower(s[..n]) == Lower(s)[..n]
  {
  }

  lemma DropSchemeNone(d: string)
    requires !HasHttpSchemeAnyCase(d)
    ensures DropScheme(d) == d
  {
    if |d| >= 8 {
      LowerOfPrefix(d, 8);
    }
    if |d| >= 7 {
      LowerOfPrefix(d, 7);
    }
  }

  lemma DropWwwOf(www: string, rest: string)
    requires Lower(www) == "www."
    ensures DropWww(www + rest) == rest
  {
    LowerLength(www);
    assert (www + rest)[..4] == www;
  }

  lemma DropWwwNone(d: string)
    requires !StartsWithAnyCase(d, "www.")
    ensures DropWww(d) == d
  {
  }

  /**
   * An entry written as a domain behind any of the prefixes the form
   * tolerates (`http://` or `https://` in any case, then `www.` in any
   * case) is stored as the bare domain.
   */
  lemma CleanDomainStripsPrefixes(scheme: string, www: string, d: string)
    requires scheme == "" || Lower(scheme) == "http://" || Lower(scheme) == "https://"
    requires www == "" || Lower(www) == "www."
    requires |d| > 0 && IsTrimmed(d) && !HasHttpSchemeAnyCase(d) && !StartsWithAnyCase(d, "www.")
    ensures CleanDomain(scheme + www + d) == d
  {
    var t := www + d;
    if scheme == "" {
      assert scheme + www + d == t;
      if www == "" {
        assert t == d;
        DropSchemeNone(d);
      } else {
        LowerLength(www);
        assert LowerChar(www[0]) == Lower(www)[0] == 'w';
        NoSchemeAfter(www, d);
      }
    } else {
      assert scheme + www + d == scheme + t;
      DropSchemeOf(scheme, t);
    }
    assert DropScheme(scheme + www + d) == t;
    if www == "" {
      assert t == d;
      TrimOfTrimmed(d);
      DropWwwNone(d);
    } else {
      LowerLength(www);
      assert LowerChar(www[0]) == Lower(www)[0] == 'w';
      assert !IsSpace(t[0]) by {
        assert t[0] == www[0];
      }
      assert t[|t| - 1] == d[|d| - 1];
      assert IsTrimmed(t);
      TrimOfTrimmed(t);
      DropWwwOf(www, d);
    }
    TrimOfTrimmed(d);
  }

  /**
   * `.map(normalizeOrigin).filter(Boolean)` run to completion before any
   * insert: `None` when some item throws, the keys otherwise.
   */
  function NormalizeAll(items: seq<string>, parse: Parser): (r: Option<seq<string>>)
    ensures r.Some? ==> |r.value| <= |items|
  {
    if |items| == 0 then Some([])
    else
      var rest := NormalizeAll(items[1..], parse);
      match NormalizeOrigin(items[0], parse)
      case Unparsable => None
      case Blank => rest
      case Origin(key) => if rest.None? then None else Some([key] + rest.value)
  }

  predicate SomeUnparsable(items: seq<string>, parse: Parser)
  {
    exists k :: 0 <= k < |items| && NormalizeOrigin(items[k], parse).Unparsable?
  }

  predicate KeyOfSome(items: seq<string>, parse: Parser, x: string)
  {
    exists k :: 0 <= k < |items| && NormalizeOrigin(items[k], parse) == Origin(x)
  }

  lemma SomeUnparsableSplit(items: seq<string>, parse: Parser)
    requires |items| > 0
    ensures SomeUnparsable(items, parse) <==>
      NormalizeOrigin(items[0], parse).Unparsable? || SomeUnparsable(items[1..], parse)
  {
    if SomeUnparsable(items[1..], parse) {
      var k :| 0 <= k < |items[1..]| && NormalizeOrigin(items[1..][k], parse).Unparsable?;
      assert items[k + 1] == items[1..][k];
    }
    if SomeUnparsable(items, parse) && !NormalizeOrigin(items[0], parse).Unparsable? {
      var k :| 0 <= k < |items| && NormalizeOrigin(items[k], parse).Unparsable?;
      assert k > 0;
      assert items[1..][k - 1] == items[k];
    }
  }

  lemma KeyOfSomeSplit(items: seq<string>, parse: Parser, x: string)
    requires |items| > 0
    ensures KeyOfSome(items, parse, x) <==>
      NormalizeOrigin(items[0], parse) == Origin(x) || KeyOfSome(items[1..], parse, x)
  {
    if KeyOfSome(items[1..], parse, x) {
      var k :| 0 <= k < |items[1..]| && NormalizeOrigin(items[1..][k], parse) == Origin(x);
      assert items[k + 1] == items[1..][k];
    }
    if KeyOfSome(items, parse, x) && NormalizeOrigin(items[0], parse) != Origin(x) {
      var k :| 0 <= k < |items| && NormalizeOrigin(items[k], parse) == Origin(x);
      assert k > 0;
      assert items[1..][k - 1] == items[k];
    }
  }

  /**
   * The batch fails exactly when some item is unparsable, and otherwise
   * holds exactly the keys of the items.
   */
  lemma {:induction false} NormalizeAllSpec(items: seq<string>, parse: Parser)
    ensures NormalizeAll(items, parse).None? <==> SomeUnparsable(items, parse)
    ensures NormalizeAll(items, parse).Some? ==>
      forall x :: x in NormalizeAll(items, parse).value <==> KeyOfSome(items, parse, x)
  {
    if |items| > 0 {
      NormalizeAllSpec(items[1..], parse);
      SomeUnparsableSplit(items, parse);
      forall x
        ensures KeyOfSome(items, parse, x) <==>
          NormalizeOrigin(items[0], parse) == Origin(x) || KeyOfSome(items[1..], parse, x)
      {
        KeyOfSomeSplit(items, parse, x);
      }
    }
  }

  /** The allow-list after inserting `items` one by one with insert-or-ignore. */
  function AddedAll(wl: map<string, int>, items: seq<string>, now: int): map<string, int>
    decreases |items|
  {
    if |items| == 0 then wl
    else AddedAll(if items[0] in wl then wl else wl[items[0] := now], items[1..], now)
  }

  /** One insert-or-ignore followed by the rest of the batch is the batch from position `i`. */
  lemma AddedAllStep(wl: map<string, int>, items: seq<string>, i: nat, now: int)
    requires i < |items|
    ensures AddedAll(wl, items[i..], now)
         == AddedAll(if items[i] in wl then wl else wl[items[i] := now], items[i + 1..], now)
  {
    assert items[i..][1..] == items[i + 1..];
  }

  /** Every item ends up in the allow-list; entries already present keep their creation time. */
  lemma {:induction false} AddedAllSpec(wl: map<string, int>, items: seq<string>, now: int)
    ensures forall k :: k in AddedAll(wl, items, now) <==> k in wl || k in items
    ensures forall k :: k in wl ==> AddedAll(wl, items, now)[k] == wl[k]
    decreases |items|
  {
    if |items| > 0 {
      var next := if items[0] in wl then wl else wl[items[0] := now];
      AddedAllSpec(next, items[1..], now);
      assert forall k :: k in items <==> k == items[0] || k in items[1..];
    }
  }

  /**
   * After `add_wl` succeeds, every origin typed into the form passes the
   * gate, and every origin allowed before still does.
   */
  lemma AddedOriginsPermitted(d: Db, raw: string, parse: Parser, now: int)
    requires NormalizeAll(SplitList(raw), parse).Some?
    ensures var after := d.(whitelist := AddedAll(d.whitelist, NormalizeAll(SplitList(raw), parse).value, now));
      && (forall x :: KeyOfSome(SplitList(raw), parse, x) ==> Permits(PolicyOf(after), x))
      && (forall key :: Permits(PolicyOf(d), key) ==> Permits(PolicyOf(after), key))
  {
    NormalizeAllSpec(SplitList(raw), parse);
    AddedAllSpec(d.whitelist, NormalizeAll(SplitList(raw), parse).value, now);
  }

  // -------------------------------------------------------- suffix list

  /** The suffix list read from the store: the stored list without empty entries, or the built-in one. */
  function StoredDomains(stored: Option<seq<string>>): (r: seq<string>)
    ensures forall i :: 0 <= i < |r| ==> |r[i]| > 0
  {
    if stored.None? then DefaultManualDomains() else NonEmpty(stored.value)
  }

  /** An empty suffix would hand back the redirects of every host, which is why empty entries are dropped. */
  lemma EmptySuffixMatchesAll(host: string, domains: seq<string>)
    requires "" in domains
    ensures MatchesManual(host, domains)
  {
    var i :| 0 <= i < |domains| && domains[i] == "";
    assert EndsWith(host, domains[i]);
  }

  // ------------------------------------------------------------- requests

  /** A form field, `""` when absent (`String(form.get(name) || "")`). */
  function Field(form: map<string, string>, name: string): string
  {
    if name in form then form[name] else ""
  }

  /** The user name `add_user` creates: the trimmed field, `ikun` when blank. */
  function NewUserName(field: string): (u: string)
    ensures |u| > 0
    ensures |Trim(field)| > 0 ==> u == Trim(field)
    ensures |Trim(field)| == 0 ==> u == "ikun"
  {
    if |Trim(field)| == 0 then "ikun" else Trim(field)
  }

  /** The cookie `logout` sets: an empty `adm` value that expires at once. */
  function LogoutCookie(): string
  {
    "adm=; Path=/admin; Max-Age=0; HttpOnly; Secure; SameSite=Lax"
  }

  /** A browser sends the cleared cookie back as an empty `adm` value, which is refused. */
  lemma LoggedOutRejected(password: string, nowMs: int, mac: Mac)
    ensures !Verdict(Some("adm="), password, nowMs, mac)
  {
    var c := "adm=";
    assert c[4..] == "";
    assert UntilSemicolon(c[4..]) == "";
    assert ValueAt(c, 0) == None;
    assert AdmCookieFrom(c, 4) == None;
    assert AdmCookieFrom(c, 3) == None;
    assert AdmCookieFrom(c, 2) == None;
    assert AdmCookieFrom(c, 1) == None;
    assert AdmCookieFrom(c, 0) == None;
  }

  /**
   * The tables after an authorized admin action named by the form's
   * `action` field; `None` when the action throws (an unparsable origin
   * under an enforced allow-list), which is answered 500. Any other action
   * name, `set_base_domains` among them, changes nothing here.
   */
  function Acted(d: Db, form: map<string, string>, nowMs: int, parse: Parser): (r: Option<Db>)
    ensures r.None? ==> (Field(form, "action") == "add_wl" || Field(form, "action") == "del_wl") && WhitelistEnabled(d)
    ensures r.Some? ==> r.value.logs == d.logs && r.value.nextLogId == d.nextLogId && r.value.ipGeo == d.ipGeo
  {
    var action := Field(form, "action");
    var user := Trim(Field(form, "user"));
    if action == "set_wl_enabled" then Some(d.(whitelistFlag := Some(Field(form, "wl_enabled") == "1")))
    else if action == "set_manual_domains" then Some(d.(manualDomains := Some(DomainList(Field(form, "manual_domains")))))
    else if action == "add_user" then
      Some(d.(users := Upserted(d.users, NewUserName(Field(form, "user")), Trim(Field(form, "note")), Seconds(nowMs))))
    else if action == "toggle_user" then
      Some(if |user| == 0 then d else d.(users := Toggled(d.users, user, Seconds(nowMs))))
    else if action == "del_user" then
      Some(if |user| == 0 then d else WithoutUser(d, user))
    else if action == "add_wl" then
      if !WhitelistEnabled(d) then Some(d)
      else match NormalizeAll(SplitList(Field(form, "origin")), parse)
        case None => None
        case Some(keys) => Some(d.(whitelist := AddedAll(d.whitelist, keys, Seconds(nowMs))))
    else if action == "del_wl" then
      if !WhitelistEnabled(d) then Some(d)
      else match NormalizeOrigin(Field(form, "origin"), parse)
        case Unparsable => None
        case Blank => Some(d)
        case Origin(key) => Some(d.(whitelist := d.whitelist - {key}))
    else Some(d)
  }

  /** The client details `getClientMeta` reads, and the city the geo lookup settled on. */
  datatype Meta = Meta(ip: string, colo: string, city: string, ua: string)

  /** What the admin endpoint answers to a POST. */
  datatype Reply = Reply(status: int, setCookie: Option<string>)

  class Service {
    const store: Store
    var initialized: bool
    var lastCleanupMs: int
    var manualCache: Option<seq<string>>
    var manualCacheTs: int

    /** The store keeps its own invariant, and a cached list never holds an empty suffix. */
    ghost predicate Valid()
      reads this, store
    {
      && store.Valid()
      && (manualCache.Some? ==> forall i :: 0 <= i < |manualCache.value| ==> |manualCache.value[i]| > 0)
    }

    /** A fresh isolate over an existing database. */
    constructor (db: Store)
      requires db.Valid()
      ensures Valid()
      ensures store == db && !initialized && lastCleanupMs == 0 && manualCache == None && manualCacheTs == 0
    {
      store := db;
      initialized := false;
      lastCleanupMs := 0;
      manualCache := None;
      manualCacheTs := 0;
    }

    /** `ensureDb`: the first request of an isolate seeds missing rows and cleans old data. */
    method EnsureDb(nowMs: int)
      requires Valid()
      modifies this, store
      ensures Valid() && initialized
      ensures store.State() == if old(initialized) then old(store.State())
                               else Cleaned(Seeded(old(store.State()), Seconds(nowMs)), nowMs)
      ensures lastCleanupMs == old(lastCleanupMs) && manualCache == old(manualCache) && manualCacheTs == old(manualCacheTs)
    {
      if !initialized {
        store.EnsureSeeded(Seconds(nowMs));
        store.CleanupOldData(nowMs);
        initialized := true;
      }
    }

    /** The periodic cleanup check made on every request. */
    method MaybeCleanup(nowMs: int) returns (ran: bool)
      requires Valid()
      modifies this, store
      ensures Valid()
      ensures ran <==> nowMs - old(lastCleanupMs) > CleanupIntervalMs
      ensures lastCleanupMs == if ran then nowMs else old(lastCleanupMs)
      ensures store.State() == if ran then Cleaned(old(store.State()), nowMs) else old(store.State())
      ensures initialized == old(initialized) && manualCache == old(manualCache) && manualCacheTs == old(manualCacheTs)
    {
      ran := nowMs - lastCleanupMs > CleanupIntervalMs;
      if ran {
        lastCleanupMs := nowMs;
        store.CleanupOldData(nowMs);
      }
    }

    /**
     * The proxy entry's checks against the current tables, with their
     * effect on the store: a refused request leaves a log row, an admitted
     * one is counted for its (user, origin) pair, and a malformed path
     * leaves no trace.
     */
    method Admit(pathname: string, search: string, meta: Meta, nowMs: int, parse: Parser) returns (a: Admission)
      requires Valid()
      modifies store
      ensures Valid()
      ensures a == Decide(pathname, search, EnabledOf(old(store.State())), PolicyOf(old(store.State())), parse)
      ensures a.MalformedPath? ==> store.State() == old(store.State())
      ensures a.Refused? ==>
        store.State() == Logged(old(store.State()), a.entry, Seconds(nowMs), meta.ip, meta.city, meta.colo, meta.ua)
      ensures a.Admitted? ==>
        store.State() == old(store.State()).(lastSeen :=
          Touched(old(store.lastSeen), a.user, a.originKey, Seconds(nowMs), meta.ip, meta.colo))
      ensures a.Admitted? ==> !WhitelistEnabled(old(store.State())) || old(store.IsWhitelisted(a.originKey))
      ensures a.Refused? && a.entry.reason == NotWhitelisted ==>
        WhitelistEnabled(old(store.State())) && !old(store.IsWhitelisted(a.entry.origin))
    {
      store.LookupAgreesWithPolicy();
      var d := store.State();
      a := Decide(pathname, search, EnabledOf(d), PolicyOf(d), parse);
      match a
      case MalformedPath =>
      case Refused(entry) =>
        store.WriteLog(entry, Seconds(nowMs), meta.ip, meta.city, meta.colo, meta.ua);
      case Admitted(user, _, key) =>
        store.TouchLastSeen(user, key, Seconds(nowMs), meta.ip, meta.colo);
    }

    /** Writes the log row of an admitted request once the upstream's answer is settled. */
    method Record(entry: LogEntry, meta: Meta, nowMs: int)
      requires Valid()
      modifies store
      ensures Valid()
      ensures store.State() == Logged(old(store.State()), entry, Seconds(nowMs), meta.ip, meta.city, meta.colo, meta.ua)
    {
      store.WriteLog(entry, Seconds(nowMs), meta.ip, meta.city, meta.colo, meta.ua);
    }

    predicate CacheFresh(nowMs: int)
      reads this
    {
      manualCache.Some? && nowMs - manualCacheTs < ManualCacheTtlMs
    }

    /**
     * `getManualRedirectDomains`: the cached list while it is younger than
     * a minute, otherwise the stored list (re-cached).
     */
    method ManualDomains(nowMs: int) returns (list: seq<string>)
      requires Valid()
      modifies this
      ensures Valid()
      ensures forall i :: 0 <= i < |list| ==> |list[i]| > 0
      ensures old(CacheFresh(nowMs)) ==>
        list == old(manualCache).value && manualCache == old(manualCache) && manualCacheTs == old(manualCacheTs)
      ensures !old(CacheFresh(nowMs)) ==>
        list == StoredDomains(store.manualDomains) && manualCache == Some(list) && manualCacheTs == nowMs
      ensures initialized == old(initialized) && lastCleanupMs == old(lastCleanupMs)
    {
      if CacheFresh(nowMs) {
        list := manualCache.value;
        return;
      }
      list := StoredDomains(store.manualDomains);
      manualCache := Some(list);
      manualCacheTs := nowMs;
    }

    /** `set_wl_enabled`: only the value "1" turns the allow-list on. */
    method SetWhitelistEnabledAction(v: string)
      requires Valid()
      modifies store
      ensures Valid()
      ensures store.State() == old(store.State()).(whitelistFlag := Some(v == "1"))
    {
      store.SetWhitelistEnabled(v == "1");
    }

    /**
     * `set_manual_domains`: stores the list the handler cleaned from the
     * form (`DomainList`, which has no empty entry) and caches it at once.
     */
    method SetManualDomainsAction(list: seq<string>, nowMs: int)
      requires Valid()
      requires forall i :: 0 <= i < |list| ==> |list[i]| > 0
      modifies this, store
      ensures Valid()
      ensures store.State() == old(store.State()).(manualDomains := Some(list))
      ensures manualCache == Some(list) && manualCacheTs == nowMs
      ensures initialized == old(initialized) && lastCleanupMs == old(lastCleanupMs)
    {
      store.SetManualDomains(list);
      manualCache := Some(list);
      manualCacheTs := nowMs;
    }

    /** `add_user`. */
    method AddUserAction(user: string, note: string, nowMs: int)
      requires Valid()
      modifies store
      ensures Valid()
      ensures store.State() == old(store.State()).(users :=
                Upserted(old(store.users), NewUserName(user), Trim(note), Seconds(nowMs)))
    {
      store.UpsertUser(NewUserName(user), Trim(note), Seconds(nowMs));
    }

    /** `toggle_user`: a blank name does nothing. */
    method ToggleUserAction(user: string, nowMs: int)
      requires Valid()
      modifies store
      ensures Valid()
      ensures store.State() == if |Trim(user)| == 0 then old(store.State())
                               else old(store.State()).(users := Toggled(old(store.users), Trim(user), Seconds(nowMs)))
    {
      var u := Trim(user);
      if |u| > 0 {
        store.ToggleUser(u, Seconds(nowMs));
      }
    }

    /** `del_user`: a blank name does nothing. */
    method DeleteUserAction(user: string)
      requires Valid()
      modifies store
      ensures Valid()
      ensures store.State() == if |Trim(user)| == 0 then old(store.State()) else WithoutUser(old(store.State()), Trim(user))
    {
      var u := Trim(user);
      if |u| > 0 {
        store.DeleteUser(u);
      }
    }

    /**
     * `add_wl`: ignored while the allow-list is off; otherwise every item
     * is normalised first, and one unparsable item fails the whole action
     * before anything is inserted.
     */
    method AddWhitelistAction(raw: string, nowMs: int, parse: Parser) returns (ok: bool)
      requires Valid()
      modifies store
      ensures Valid()
      ensures var n := NormalizeAll(SplitList(raw), parse);
        ok <==> !(WhitelistEnabled(old(store.State())) && n.None?)
      ensures var n := NormalizeAll(SplitList(raw), parse);
        store.State() == if WhitelistEnabled(old(store.State())) && n.Some?
                         then old(store.State()).(whitelist := AddedAll(old(store.whitelist), n.value, Seconds(nowMs)))
                         else old(store.State())
    {
      if !WhitelistEnabled(store.State()) {
        return true;
      }
      var n := NormalizeAll(SplitList(raw), parse);
      if n.None? {
        return false;
      }
      var items := n.value;
      var now := Seconds(nowMs);
      ghost var start := store.State();
      var i := 0;
      while i < |items|
        invariant 0 <= i <= |items|
        invariant store.Valid()
        invariant store.State() == start.(whitelist := store.whitelist)
        invariant AddedAll(store.whitelist, items[i..], now) == AddedAll(start.whitelist, items, now)
      {
        ghost var before := store.whitelist;
        AddedAllStep(before, items, i, now);
        store.AddWhitelist(items[i], now);
        i := i + 1;
      }
      assert items[i..] == [];
      ok := true;
    }

    /** `del_wl`: ignored while the allow-list is off; the field is one origin, normalised. */
    method DeleteWhitelistAction(raw: string, parse: Parser) returns (ok: bool)
      requires Valid()
      modifies store
      ensures Valid()
      ensures ok <==> !(WhitelistEnabled(old(store.State())) && NormalizeOrigin(raw, parse).Unparsable?)
      ensures store.State() == if WhitelistEnabled(old(store.State())) && NormalizeOrigin(raw, parse).Origin?
                               then old(store.State()).(whitelist := old(store.whitelist) - {NormalizeOrigin(raw, parse).key})
                               else old(store.State())
    {
      if !WhitelistEnabled(store.State()) {
        return true;
      }
      match NormalizeOrigin(raw, parse)
      case Unparsable => ok := false;
      case Blank => ok := true;
      case Origin(key) =>
        store.DeleteWhitelist(key);
        ok := true;
    }

    /**
     * An authorized action other than `set_manual_domains` (which also
     * fills the cache), dispatched on the form's `action` field; false
     * when it throws.
     */
    method Perform(form: map<string, string>, nowMs: int, parse: Parser) returns (ok: bool)
      requires Valid()
      requires Field(form, "action") != "set_manual_domains"
      modifies store
      ensures Valid()
      ensures var r := Acted(old(store.State()), form, nowMs, parse);
        && (ok <==> r.Some?)
        && store.State() == (if r.Some? then r.value else old(store.State()))
    {
      var action := Field(form, "action");
      ok := true;
      if action == "set_wl_enabled" {
        SetWhitelistEnabledAction(Field(form, "wl_enabled"));
      } else if action == "add_user" {
        AddUserAction(Field(form, "user"), Field(form, "note"), nowMs);
      } else if action == "toggle_user" {
        ToggleUserAction(Field(form, "user"), nowMs);
      } else if action == "del_user" {
        DeleteUserAction(Field(form, "user"));
      } else if action == "add_wl" {
        ok := AddWhitelistAction(Field(form, "origin"), nowMs, parse);
      } else if action == "del_wl" {
        ok := DeleteWhitelistAction(Field(form, "origin"), parse);
      }
    }

    /**
     * A POST to the admin endpoint: `login` and `logout` need no session;
     * every other action runs only behind a valid session cookie, and a
     * failed action answers 500.
     */
    method HandlePost(form: map<string, string>, cookieHeader: Option<string>, password: string,
                      nowMs: int, nonce: seq<byte>, mac: Mac, parse: Parser) returns (reply: Reply)
      requires Valid()
      requires |nonce| == 16
      modifies this, store
      ensures Valid()
      ensures |password| == 0 ==> reply == Reply(500, None)
      ensures var action := Field(form, "action");
        |password| > 0 && action == "login" ==>
          reply == if Field(form, "password") == password
                   then Reply(303, Some(AdminCookie(password, nowMs, nonce, mac))) else Reply(401, None)
      ensures |password| > 0 && Field(form, "action") == "logout" ==> reply == Reply(303, Some(LogoutCookie()))
      ensures reply.status != 303 || reply.setCookie.Some? || Verdict(cookieHeader, password, nowMs, mac)
      ensures !(|password| > 0 && Verdict(cookieHeader, password, nowMs, mac)) ==>
        store.State() == old(store.State()) && manualCache == old(manualCache)
      ensures reply.status in {303, 401, 500}
      ensures var action := Field(form, "action");
        |password| > 0 && action != "login" && action != "logout" && Verdict(cookieHeader, password, nowMs, mac) ==>
          var r := Acted(old(store.State()), form, nowMs, parse);
          && (r.Some? ==> reply == Reply(303, None) && store.State() == r.value)
          && (r.None? ==> reply == Reply(500, None) && store.State() == old(store.State()))
      ensures if |password| > 0 && Field(form, "action") == "set_manual_domains" && Verdict(cookieHeader, password, nowMs, mac)
              then manualCache == Some(DomainList(Field(form, "manual_domains"))) && manualCacheTs == nowMs
              else manualCache == old(manualCache) && manualCacheTs == old(manualCacheTs)
      ensures initialized == old(initialized) && lastCleanupMs == old(lastCleanupMs)
    {
      if |password| == 0 {
        return Reply(500, None);
      }
      var action := Field(form, "action");
      if action == "login" {
        if Field(form, "password") == password {
          return Reply(303, Some(AdminCookie(password, nowMs, nonce, mac)));
        }
        return Reply(401, None);
      }
      if action == "logout" {
        return Reply(303, Some(LogoutCookie()));
      }
      var authorized := IsAdmin(cookieHeader, password, nowMs, mac);
      if !authorized {
        return Reply(401, None);
      }
      var ok := true;
      if action == "set_manual_domains" {
        SetManualDomainsAction(DomainList(Field(form, "manual_domains")), nowMs);
      } else {
        ok := Perform(form, nowMs, parse);
      }
      reply := if ok then Reply(303, None) else Reply(500, None);
    }
  }
}
