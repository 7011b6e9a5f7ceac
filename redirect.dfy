/**
 * What the proxy does with the upstream's answer once a request has been
 * admitted: a WebSocket upgrade is handed through, an ordinary answer is
 * forwarded, and a redirect is either passed back to the client (when its
 * host ends with a configured suffix), refused (when the allow-list rejects
 * its origin) or followed inside the proxy. Anything that fails while a
 * redirect is being handled falls back to forwarding the upstream's answer.
 */
module Redirect {
  import opened Text
  import opened Wrappers
  import opened Urls
  import opened Gate

  /** `new URL(location, base)`: `None` where it throws. */
  type Resolver = (string, Url) -> Option<Url>

  /** The suffixes whose redirects are handed back to the client when no list is stored. */
  function DefaultManualDomains(): seq<string>
  {
    [ "ap-cn01.emby.bangumi.ca", "ap-cn02.emby.bangumi.ca", "ap-cn03.emby.bangumi.ca",
      "quark.cn", "mini189.cn", "189.cn", "ctyunxs.cn", "telecomjs.com", "xunlei.com",
      "115.com", "115cdn.com", "115cdn.net", "uc.cn", "aliyundrive.com", "aliyundrive.net",
      "voicehub.top", "xiaoya.pro" ]
  }

  /** `domains.some(d => host.endsWith(d))`: a plain suffix test, with no dot boundary. */
  predicate MatchesManual(host: string, domains: seq<string>)
  {
    exists i :: 0 <= i < |domains| && EndsWith(host, domains[i])
  }

  /** `upgrade && upgrade.toLowerCase() === "websocket"`. */
  predicate IsWebSocketUpgrade(upgrade: Option<string>)
  {
    upgrade.Some? && Lower(upgrade.value) == "websocket"
  }

  function UpperChar(c: char): char
  {
    if 'a' <= c <= 'z' then (c as int - 32) as char else c
  }

  /** `toUpperCase`, on the ASCII letters. */
  function Upper(s: string): (r: string)
    ensures |r| == |s|
  {
    seq(|s|, i requires 0 <= i < |s| => UpperChar(s[i]))
  }

  /** Whether the request body is read and forwarded: every method but GET and HEAD, in any case. */
  predicate SendsBody(verb: string)
  {
    var m := Upper(verb);
    m != "GET" && m != "HEAD"
  }

  /** The upgrade test ignores case, and a missing header is no upgrade. */
  lemma WebSocketAnyCase(upgrade: Option<string>)
    ensures IsWebSocketUpgrade(upgrade) <==> upgrade.Some? && EqualIgnoringCase(upgrade.value, "websocket")
  {
    assert Lower("websocket") == "websocket";
    if upgrade.Some? {
      LowerEqualIff(upgrade.value, "websocket");
    }
  }

  /** Upper-casing into a word without lower-case letters is matching it ignoring case. */
  lemma {:induction false} UpperMatches(s: string, w: string)
    requires forall i :: 0 <= i < |w| ==> !('a' <= w[i] <= 'z')
    ensures Upper(s) == w <==> EqualIgnoringCase(s, w)
  {
    if EqualIgnoringCase(s, w) {
      forall i | 0 <= i < |s|
        ensures Upper(s)[i] == w[i]
      {
        assert LowerChar(s[i]) == LowerChar(w[i]);
      }
    }
    if Upper(s) == w {
      forall i | 0 <= i < |s|
        ensures LowerChar(s[i]) == LowerChar(w[i])
      {
        assert UpperChar(s[i]) == w[i];
      }
    }
  }

  /** GET and HEAD, in any case, are sent without a body; every other method carries its body. */
  lemma BodylessMethods(verb: string)
    ensures !SendsBody(verb) <==> EqualIgnoringCase(verb, "GET") || EqualIgnoringCase(verb, "HEAD")
  {
    UpperMatches(verb, "GET");
    UpperMatches(verb, "HEAD");
  }

  /** The upstream's answer is treated as a redirect only for a 3xx status with a non-empty Location. */
  predicate IsRedirect(status: int, location: Option<string>)
  {
    location.Some? && location.value != "" && 300 <= status < 400
  }

  datatype Outcome =
    | Forward                        // not a redirect: the upstream's answer, framing headers removed ("ok")
    | ManualPassthrough(location: string)
                                     // the upstream's status and headers, Location made absolute ("manual redirect")
    | RedirectDenied                 // 403 ("redirect target not whitelisted")
    | Followed(target: Url)          // the answer of the followed request ("follow redirect")
    | RawForward                     // something failed: the upstream's answer ("bad redirect url")

  /**
   * The redirect branch. The failure points inside it are inputs:
   * `resolve` fails on a bad Location, `domains` is `None` when reading the
   * configured suffixes fails, `policy` is `None` when reading the
   * allow-list fails, and `followed` is false when the followed fetch fails.
   */
  function Resolve(status: int, location: Option<string>, base: Url, resolve: Resolver,
                   domains: Option<seq<string>>, policy: Option<Policy>, followed: bool): (o: Outcome)
    ensures o.Forward? <==> !IsRedirect(status, location)
    ensures o.RedirectDenied? ==> policy.Some? && domains.Some?
    ensures o.Followed? ==> followed && policy.Some? && Permits(policy.value, CanonicalOrigin(o.target))
  {
    if !IsRedirect(status, location) then Forward
    else
      match resolve(location.value, base)
      case None => RawForward
      case Some(r) =>
        if domains.None? then RawForward
        else if MatchesManual(r.hostname, domains.value) then ManualPassthrough(Href(r))
        else if policy.None? then RawForward
        else if !Permits(policy.value, CanonicalOrigin(r)) then RedirectDenied
        else if !followed then RawForward
        else Followed(r)
  }

  /** The redirect branch is entered exactly for a 3xx answer with a non-empty Location. */
  lemma RedirectBranchOnlyFor3xx(status: int, location: Option<string>, base: Url, resolve: Resolver,
                                 domains: Option<seq<string>>, policy: Option<Policy>, followed: bool)
    ensures Resolve(status, location, base, resolve, domains, policy, followed).Forward? <==> !IsRedirect(status, location)
  {
  }

  /**
   * A redirect is followed only to a resolved target whose host matches no
   * configured suffix and whose origin the allow-list permits.
   */
  lemma FollowedTargetPermitted(status: int, location: Option<string>, base: Url, resolve: Resolver,
                                domains: Option<seq<string>>, policy: Option<Policy>, followed: bool)
    requires Resolve(status, location, base, resolve, domains, policy, followed).Followed?
    ensures var t := Resolve(status, location, base, resolve, domains, policy, followed).target;
      && IsRedirect(status, location)
      && resolve(location.value, base) == Some(t)
      && domains.Some? && !MatchesManual(t.hostname, domains.value)
      && policy.Some? && Permits(policy.value, CanonicalOrigin(t))
      && followed
  {
  }

  /**
   * A suffix match hands the redirect back with the absolute Location,
   * whatever the allow-list says and without contacting the target.
   */
  lemma PassthroughBeforeAllowList(status: int, location: Option<string>, base: Url, resolve: Resolver,
                                   domains: seq<string>, policy1: Option<Policy>, followed1: bool,
                                   policy2: Option<Policy>, followed2: bool)
    requires IsRedirect(status, location)
    requires resolve(location.value, base).Some?
    requires MatchesManual(resolve(location.value, base).value.hostname, domains)
    ensures Resolve(status, location, base, resolve, Some(domains), policy1, followed1)
         == Resolve(status, location, base, resolve, Some(domains), policy2, followed2)
         == ManualPassthrough(Href(resolve(location.value, base).value))
  {
  }

  /** The redirect is refused exactly when it is not passed back and the allow-list rejects its origin. */
  lemma DeniedExactly(status: int, location: Option<string>, base: Url, resolve: Resolver,
                      domains: seq<string>, policy: Policy, followed: bool)
    requires IsRedirect(status, location) && resolve(location.value, base).Some?
    ensures var r := resolve(location.value, base).value;
      Resolve(status, location, base, resolve, Some(domains), Some(policy), followed).RedirectDenied?
      <==> !MatchesManual(r.hostname, domains) && !Permits(policy, CanonicalOrigin(r))
  {
  }

  /** Every failure inside the redirect branch, and only a failure, ends in forwarding the upstream's answer. */
  lemma RawForwardOnFailure(status: int, location: Option<string>, base: Url, resolve: Resolver,
                            domains: Option<seq<string>>, policy: Option<Policy>, followed: bool)
    requires IsRedirect(status, location)
    ensures var o := Resolve(status, location, base, resolve, domains, policy, followed);
      var r := resolve(location.value, base);
      o.RawForward? <==>
        || r.None?
        || domains.None?
        || (!MatchesManual(r.value.hostname, domains.value)
            && (policy.None? || (Permits(policy.value, CanonicalOrigin(r.value)) && !followed)))
  {
  }

  /**
   * The suffix test has no label boundary: with the default list, a redirect
   * to `evil115.com` is handed back just like one to `cdn.115.com`.
   */
  lemma SuffixWithoutBoundary()
    ensures MatchesManual("evil115.com", DefaultManualDomains())
    ensures MatchesManual("cdn.115.com", DefaultManualDomains())
    ensures !MatchesManual("example.com", DefaultManualDomains())
  {
    var ds := DefaultManualDomains();
    assert ds[9] == "115.com";
    assert EndsWith("evil115.com", ds[9]);
    assert EndsWith("cdn.115.com", ds[9]);
    assert forall i :: 0 <= i < |ds| ==> !EndsWith("example.com", ds[i]) by {
      forall i | 0 <= i < |ds| ensures !EndsWith("example.com", ds[i]) {
        assert "example.com"[10] == 'm';
      }
    }
  }

  /** The log row of a proxied request, by outcome. */
  function LogOf(o: Outcome, user: string, originKey: string, upstream: Url, upstreamStatus: int, followStatus: int): (e: LogEntry)
    ensures e.user == user && e.origin == originKey && e.path == upstream.pathname
    ensures e.action == Deny <==> o.RedirectDenied?
    ensures e.status == (if o.RedirectDenied? then 403 else if o.Followed? then followStatus else upstreamStatus)
  {
    match o
    case Forward => LogEntry(user, originKey, upstreamStatus, Proxy, Forwarded, upstream.pathname)
    case ManualPassthrough(_) => LogEntry(user, originKey, upstreamStatus, Proxy, ManualRedirect, upstream.pathname)
    case RedirectDenied => LogEntry(user, originKey, 403, Deny, RedirectNotWhitelisted, upstream.pathname)
    case Followed(_) => LogEntry(user, originKey, followStatus, Proxy, FollowRedirect, upstream.pathname)
    case RawForward => LogEntry(user, originKey, upstreamStatus, Proxy, BadRedirectUrl, upstream.pathname)
  }
}
