/**
 * The request-decision pipeline of the proxy entry `/{user}/{target...}`:
 * routing, the path check, the user check, target parsing and the allow-list
 * gate, in the order the worker applies them. The store is abstracted as a
 * map from user to its enabled flag and an allow-list policy.
 */
module Gate {
  import opened Text
  import opened Wrappers
  import opened Urls

  /** The allow-list as read from the store: the enforcement flag and the set of origin keys. */
  datatype Policy = Policy(enabled: bool, allowed: set<string>)

  /** A disabled allow-list permits every origin; an enabled one exactly its members. */
  predicate Permits(policy: Policy, key: string)
  {
    !policy.enabled || key in policy.allowed
  }

  /** Where the worker sends a request before any proxy logic runs. */
  datatype Route =
    | Preflight               // OPTIONS: 204, nothing else happens
    | StoreMissing            // no database bound: 500
    | Overview                // "/"
    | Admin                   // "/admin" and below
    | ProxyEntry              // everything else: /{user}/{target...}

  function RouteOf(verb: string, pathname: string, storeBound: bool): (r: Route)
    ensures r.Preflight? <==> verb == "OPTIONS"
    ensures r.ProxyEntry? ==> storeBound && pathname != "/" && pathname != "/admin" && !StartsWith(pathname, "/admin/")
  {
    if verb == "OPTIONS" then Preflight
    else if !storeBound then StoreMissing
    else if pathname == "/" then Overview
    else if pathname == "/admin" || StartsWith(pathname, "/admin/") then Admin
    else ProxyEntry
  }

  /** `filter(Boolean)` on a list of strings. */
  function NonEmpty(xs: seq<string>): (r: seq<string>)
    ensures forall k :: 0 <= k < |r| ==> |r[k]| > 0
    ensures |r| <= |xs|
  {
    if |xs| == 0 then []
    else if |xs[0]| == 0 then NonEmpty(xs[1..])
    else [xs[0]] + NonEmpty(xs[1..])
  }

  /** `pathname.split("/").filter(Boolean)`. */
  function Segments(pathname: string): seq<string>
  {
    NonEmpty(Split(pathname, '/'))
  }

  /** `"/" + parts.slice(1).join("/")`: the target part of the entry path. */
  function RestPath(parts: seq<string>): string
    requires |parts| >= 1
  {
    "/" + Join(parts[1..], '/')
  }

  datatype Action = Deny | Proxy

  /** Why a log row was written; one value per reason string of the worker. */
  datatype Reason =
    | UserDenied | BadTarget | NotWhitelisted
    | WebSocket | ManualRedirect | RedirectNotWhitelisted | FollowRedirect | BadRedirectUrl | Forwarded

  /** The fields the proxy path passes to the log writer. */
  datatype LogEntry = LogEntry(user: string, origin: string, status: int, action: Action, reason: Reason, path: string)

  /** The outcome of the checks before the upstream is contacted. */
  datatype Admission =
    | MalformedPath                                      // 400, nothing logged
    | Refused(entry: LogEntry)                           // the entry's status is the response status
    | Admitted(user: string, target: Url, originKey: string)

  /** The status the client receives when the request stops at the gate. */
  function StatusOf(a: Admission): int
    requires !a.Admitted?
  {
    if a.MalformedPath? then 400 else a.entry.status
  }

  predicate UserEnabled(users: map<string, bool>, user: string)
  {
    user in users && users[user]
  }

  /** The checks of the proxy entry, in the worker's order. */
  function Decide(pathname: string, search: string, users: map<string, bool>, policy: Policy, parse: Parser): (a: Admission)
    ensures a.Refused? ==> a.entry.action == Deny && (a.entry.status == 400 || a.entry.status == 403)
    ensures a.Refused? ==> |Segments(pathname)| >= 2 && a.entry.user == Segments(pathname)[0]
    ensures a.Admitted? ==> UserEnabled(users, a.user) && Permits(policy, a.originKey)
  {
    var parts := Segments(pathname);
    if |parts| < 2 then MalformedPath
    else
      var user := parts[0];
      var restPath := RestPath(parts);
      if !UserEnabled(users, user) then Refused(LogEntry(user, "", 403, Deny, UserDenied, restPath))
      else
        match ParseUpstreamUrl(restPath, search, parse)
        case None => Refused(LogEntry(user, "", 400, Deny, BadTarget, restPath))
        case Some(target) =>
          var key := CanonicalOrigin(target);
          if !Permits(policy, key) then Refused(LogEntry(user, key, 403, Deny, NotWhitelisted, target.pathname))
          else Admitted(user, target, key)
  }

  /** Fewer than two path segments is answered with 400 before anything else is looked at. */
  lemma PathCheckedFirst(pathname: string, search: string, users: map<string, bool>, policy: Policy, parse: Parser)
    ensures Decide(pathname, search, users, policy, parse).MalformedPath? <==> |Segments(pathname)| < 2
    ensures Decide(pathname, search, users, policy, parse).MalformedPath? ==>
      StatusOf(Decide(pathname, search, users, policy, parse)) == 400
  {
  }

  /**
   * An absent or disabled user is refused with 403 before the target is
   * parsed or the allow-list read: the outcome depends on neither.
   */
  lemma UserCheckedBeforeTarget(pathname: string, search: string, users: map<string, bool>,
                                policy1: Policy, parse1: Parser, policy2: Policy, parse2: Parser)
    requires |Segments(pathname)| >= 2 && !UserEnabled(users, Segments(pathname)[0])
    ensures Decide(pathname, search, users, policy1, parse1) == Decide(pathname, search, users, policy2, parse2)
    ensures var a := Decide(pathname, search, users, policy1, parse1);
      a.Refused? && a.entry.status == 403 && a.entry.reason == UserDenied
  {
  }

  /**
   * For an enabled user, an unparsable target is 400; otherwise the request
   * is refused with 403 exactly when the allow-list is enforced and the
   * target's key is not in it, and admitted otherwise.
   */
  lemma TargetGate(pathname: string, search: string, users: map<string, bool>, policy: Policy, parse: Parser)
    requires |Segments(pathname)| >= 2 && UserEnabled(users, Segments(pathname)[0])
    ensures var a := Decide(pathname, search, users, policy, parse);
      var t := ParseUpstreamUrl(RestPath(Segments(pathname)), search, parse);
      && (t.None? <==> a.Refused? && a.entry.status == 400)
      && (t.Some? ==> (a.Refused? <==> policy.enabled && CanonicalOrigin(t.value) !in policy.allowed))
      && (t.Some? && !policy.enabled ==> a.Admitted?)
      && (t.Some? && a.Refused? ==>
            a.entry.status == 403 && a.entry.reason == NotWhitelisted
            && a.entry.origin == CanonicalOrigin(t.value) && a.entry.path == t.value.pathname)
      && (t.Some? && a.Admitted? ==> a.target == t.value && a.originKey == CanonicalOrigin(t.value))
  {
  }

  /** A refusal for the allow-list names a key the policy does not permit. */
  lemma NotWhitelistedMeansUnpermitted(pathname: string, search: string, users: map<string, bool>, policy: Policy, parse: Parser)
    requires var a := Decide(pathname, search, users, policy, parse); a.Refused? && a.entry.reason == NotWhitelisted
    ensures var a := Decide(pathname, search, users, policy, parse);
      policy.enabled && !Permits(policy, a.entry.origin) && a.entry.status == 403
  {
  }

  /** Whatever is admitted passed every check: enabled user, parsed target carrying the request's query, permitted key. */
  lemma AdmittedMeansPermitted(pathname: string, search: string, users: map<string, bool>, policy: Policy, parse: Parser)
    requires Decide(pathname, search, users, policy, parse).Admitted?
    ensures var a := Decide(pathname, search, users, policy, parse);
      && a.user == Segments(pathname)[0] && UserEnabled(users, a.user)
      && Some(a.target) == ParseUpstreamUrl(RestPath(Segments(pathname)), search, parse)
      && a.target.search == search
      && a.originKey == CanonicalOrigin(a.target)
      && Permits(policy, a.originKey)
  {
  }

  /** Every segment of `x` is non-empty: no leading, trailing or doubled slash. */
  predicate CleanPath(x: string)
  {
    forall k :: 0 <= k < |Split(x, '/')| ==> |Split(x, '/')[k]| > 0
  }

  /** `filter(Boolean)` keeps exactly the non-empty items: none is dropped, none is added. */
  lemma {:induction false} NonEmptyMembers(xs: seq<string>)
    ensures forall x :: x in NonEmpty(xs) <==> x in xs && |x| > 0
  {
    if |xs| > 0 {
      NonEmptyMembers(xs[1..]);
      assert forall x :: x in xs <==> x == xs[0] || x in xs[1..];
    }
  }

  lemma {:induction false} NonEmptyKeeps(xs: seq<string>)
    requires forall k :: 0 <= k < |xs| ==> |xs[k]| > 0
    ensures NonEmpty(xs) == xs
  {
    if |xs| > 0 {
      NonEmptyKeeps(xs[1..]);
    }
  }

  /** Filtering distributes over concatenation. */
  lemma {:induction false} NonEmptyAppend(a: seq<string>, b: seq<string>)
    ensures NonEmpty(a + b) == NonEmpty(a) + NonEmpty(b)
  {
    if |a| > 0 {
      NonEmptyAppend(a[1..], b);
      assert (a + b)[1..] == a[1..] + b;
    } else {
      assert a + b == b;
    }
  }

  /** The pieces of an entry link: an empty piece before the user and one inside `://`. */
  lemma {:induction false} SplitEntryLink(user: string, head: string, rest: string)
    requires '/' !in user && '/' !in head
    ensures Split("/" + user + "/" + head + "//" + rest, '/') == ["", user, head, ""] + Split(rest, '/')
  {
    var tail3 := "/" + rest;
    var tail2 := head + "/" + tail3;
    var tail1 := user + "/" + tail2;
    SplitPrefix("", rest, '/');
    assert tail3 == "" + ['/'] + rest;
    SplitPrefix(head, tail3, '/');
    assert tail2 == head + ['/'] + tail3;
    SplitPrefix(user, tail2, '/');
    assert tail1 == user + ['/'] + tail2;
    SplitPrefix("", tail1, '/');
    assert "/" + user + "/" + head + "//" + rest == "" + ['/'] + tail1;
  }

  lemma NonEmptyOfEntryPieces(user: string, head: string, pieces: seq<string>)
    requires |user| > 0 && |head| > 0
    requires forall k :: 0 <= k < |pieces| ==> |pieces[k]| > 0
    ensures NonEmpty(["", user, head, ""] + pieces) == [user, head] + pieces
  {
    NonEmptyKeeps(pieces);
    NonEmptyAppend(["", user, head, ""], pieces);
    var front := ["", user, head, ""];
    assert NonEmpty([""]) == [] by { assert [""][1..] == []; }
    assert NonEmpty([head, ""]) == [head] by { assert [head, ""][1..] == [""]; }
    assert NonEmpty([user, head, ""]) == [user, head] by { assert [user, head, ""][1..] == [head, ""]; }
    assert NonEmpty(front) == [user, head] by { assert front[1..] == [user, head, ""]; }
  }

  /** Only a string that starts with a slash has an empty first piece. */
  lemma FirstPieceEmpty(rest: string)
    ensures rest != [] ==> (|Split(rest, '/')[0]| == 0 <==> rest[0] == '/')
  {
  }

  lemma RestPathOfEntry(head: string, parts: seq<string>, rest: string)
    requires |parts| >= 2 && parts[1..] == [head] + Split(rest, '/')
    ensures RestPath(parts) == "/" + head + "/" + rest
  {
    var pieces := Split(rest, '/');
    JoinSplit(rest, '/');
    assert ([head] + pieces)[1..] == pieces;
    assert Join([head] + pieces, '/') == head + "/" + rest;
  }

  /**
   * The entry link `/{user}/{scheme}://{rest}` loses one slash of the scheme
   * when the path is split into segments; the repair puts it back, so the
   * parser receives `{scheme}://{rest}`.
   */
  lemma EntryLinkReachesTarget(user: string, scheme: string, rest: string)
    requires |user| > 0 && '/' !in user
    requires scheme == "http" || scheme == "https"
    requires CleanPath(rest)
    ensures var parts := Segments("/" + user + "/" + scheme + "://" + rest);
      && |parts| >= 2 && parts[0] == user
      && RepairTarget(RestPath(parts)) == scheme + "://" + rest
  {
    var head := scheme + ":";
    var pathname := "/" + user + "/" + head + "//" + rest;
    assert pathname == "/" + user + "/" + scheme + "://" + rest;
    SplitEntryLink(user, head, rest);
    NonEmptyOfEntryPieces(user, head, Split(rest, '/'));
    var parts := Segments(pathname);
    assert parts == [user, head] + Split(rest, '/');
    assert parts[1..] == [head] + Split(rest, '/');
    RestPathOfEntry(head, parts, rest);
    assert "/" + head + "/" + rest == "/" + (scheme + ":/" + rest);
    FirstPieceEmpty(rest);
    assert rest == [] || rest[0] != '/';
    RepairColonForm(scheme, rest);
  }
}
