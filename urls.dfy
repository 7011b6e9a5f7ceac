/**
 * Upstream URL rewriting and origin canonicalisation.
 *
 * The WHATWG URL parser is not modelled: callers pass it in as `parse`, which
 * answers `None` where `new URL(...)` throws. A parsed URL is the record of the
 * parts the proxy reads back from it.
 */
module Urls {
  import opened Text
  import opened Wrappers

  /**
   * The parts of a parsed URL that the proxy reads, as the URL object reports
   * them: `protocol` carries its colon ("https:"), `hostname` carries the
   * brackets of an IPv6 literal, `port` is "" or decimal digits, `search` is
   * "" or starts with "?".
   */
  datatype Url = Url(protocol: string, hostname: string, port: string, pathname: string, search: string)

  /** `new URL(s)`: `None` where the parser throws. */
  type Parser = string -> Option<Url>

  /** The URL's `host`: the host name with the port when there is one. */
  function Host(u: Url): string
  {
    if u.port == "" then u.hostname else u.hostname + ":" + u.port
  }

  /** The URL's serialisation `toString()` (no credentials and no fragment in this model). */
  function Href(u: Url): string
  {
    u.protocol + "//" + Host(u) + u.pathname + u.search
  }

  // ---------------------------------------------------------------- rewriting

  function StripLeadingSlash(p: string): string
  {
    if StartsWith(p, "/") then p[1..] else p
  }

  /** `p.replace(/^(https?):\/(?!\/)/, "$1://")`: a scheme whose second slash was lost. */
  function RepairColonSlash(p: string): string
  {
    if StartsWith(p, "https:/") && !StartsWith(p, "https://") then "https://" + p[7..]
    else if StartsWith(p, "http:/") && !StartsWith(p, "http://") then "http://" + p[6..]
    else p
  }

  /** `p.replace(/^(https?)\/(?!\/)/, "$1://")`: a scheme whose colon and a slash were lost. */
  function RepairBareSlash(p: string): string
  {
    if StartsWith(p, "https/") && !StartsWith(p, "https//") then "https://" + p[6..]
    else if StartsWith(p, "http/") && !StartsWith(p, "http//") then "http://" + p[5..]
    else p
  }

  predicate HasHttpScheme(p: string)
  {
    StartsWith(p, "http://") || StartsWith(p, "https://")
  }

  /**
   * The string `parseUpstreamUrl` hands to the URL parser: the rest of the
   * request path with its scheme repaired, defaulting to https.
   */
  function RepairTarget(restPath: string): (r: string)
    ensures HasHttpScheme(r)
  {
    var p := RepairBareSlash(RepairColonSlash(StripLeadingSlash(restPath)));
    if HasHttpScheme(p) then p else "https://" + p
  }

  lemma PrefixOf(a: string, b: string)
    ensures StartsWith(a + b, a)
  {
    assert (a + b)[..|a|] == a;
  }

  /** A string that differs from `p` at position `k` does not start with `p`. */
  lemma NotPrefixAt(s: string, p: string, k: nat)
    requires k < |p| && k < |s| && s[k] != p[k]
    ensures !StartsWith(s, p)
  {
    assert |p| <= |s| ==> s[..|p|][k] == s[k];
  }

  /** A string that does not start with `short` starts with nothing that extends it. */
  lemma NotPrefixLonger(s: string, short: string, q: string)
    requires StartsWith(q, short) && !StartsWith(s, short)
    ensures !StartsWith(s, q)
  {
    if |q| <= |s| {
      assert s[..|q|][..|short|] == s[..|short|];
    }
  }

  /** A string that starts with `p` has `p`'s characters in front. */
  lemma PrefixAt(s: string, p: string, k: nat)
    requires StartsWith(s, p) && k < |p|
    ensures s[k] == p[k]
  {
    assert s[..|p|][k] == s[k];
  }

  lemma ColonSlashRepairs(scheme: string, h: string)
    requires scheme == "http" || scheme == "https"
    requires h == [] || h[0] != '/'
    ensures RepairColonSlash(scheme + ":/" + h) == scheme + "://" + h
  {
    var lead := scheme + ":/";
    var p := lead + h;
    assert scheme + ":/" + h == p;
    PrefixOf(lead, h);
    NotDoubled(lead, h);
    assert p[|lead|..] == h;
    if scheme == "http" {
      assert p[4] == ':';
      NotPrefixAt(p, "https:/", 4);
      assert RepairColonSlash(p) == "http://" + h;
    } else {
      assert RepairColonSlash(p) == "https://" + h;
    }
  }

  /** `lead + h` does not start with `lead + "/"` when `h` does not start with a slash. */
  lemma NotDoubled(lead: string, h: string)
    requires h == [] || h[0] != '/'
    ensures !StartsWith(lead + h, lead + "/")
  {
    if |h| > 0 {
      assert (lead + h)[|lead|] == h[0];
      NotPrefixAt(lead + h, lead + "/", |lead|);
    }
  }

  lemma BareSlashRepairs(scheme: string, h: string)
    requires scheme == "http" || scheme == "https"
    requires h == [] || h[0] != '/'
    ensures RepairBareSlash(scheme + "/" + h) == scheme + "://" + h
  {
    var lead := scheme + "/";
    var p := lead + h;
    PrefixOf(lead, h);
    if |h| > 0 {
      assert p[|lead|] == h[0];
      NotPrefixAt(p, lead + "/", |lead|);
    }
    assert p[|lead|..] == h;
    if scheme == "http" {
      assert p[4] == '/';
      NotPrefixAt(p, "https/", 4);
      assert RepairBareSlash(p) == "http://" + h;
    } else {
      assert RepairBareSlash(p) == "https://" + h;
    }
  }

  lemma ColonSlashSkipsBare(scheme: string, h: string)
    requires scheme == "http" || scheme == "https"
    ensures RepairColonSlash(scheme + "/" + h) == scheme + "/" + h
  {
    var p := scheme + "/" + h;
    assert p[4] == (if scheme == "http" then '/' else 's');
    NotPrefixAt(p, "http:/", 4);
    if scheme == "https" {
      assert p[5] == '/';
      NotPrefixAt(p, "https:/", 5);
    } else {
      NotPrefixAt(p, "https:/", 4);
    }
  }

  /** Neither repair touches a target that already has `http://` or `https://`. */
  lemma RepairsKeepAbsolute(p: string)
    requires HasHttpScheme(p)
    ensures RepairColonSlash(p) == p && RepairBareSlash(p) == p
  {
    if StartsWith(p, "http://") {
      PrefixAt(p, "http://", 4);
      NotPrefixAt(p, "https:/", 4);
      NotPrefixAt(p, "https/", 4);
      NotPrefixAt(p, "http/", 4);
    } else {
      PrefixAt(p, "https://", 4);
      PrefixAt(p, "https://", 5);
      NotPrefixAt(p, "http:/", 4);
      NotPrefixAt(p, "https/", 5);
      NotPrefixAt(p, "http/", 4);
    }
  }

  /** One leading slash makes no difference to the target. */
  lemma LeadingSlashIgnored(p: string)
    requires p == [] || p[0] != '/'
    ensures RepairTarget("/" + p) == RepairTarget(p)
  {
    assert ("/" + p)[1..] == p;
    if p != [] {
      NotPrefixAt(p, "/", 0);
    }
  }

  /** `scheme:/host`, with or without a leading slash, becomes `scheme://host`. */
  lemma RepairColonForm(scheme: string, h: string)
    requires scheme == "http" || scheme == "https"
    requires h == [] || h[0] != '/'
    ensures RepairTarget(scheme + ":/" + h) == scheme + "://" + h
    ensures RepairTarget("/" + (scheme + ":/" + h)) == scheme + "://" + h
  {
    var colon := scheme + ":/" + h;
    ColonFormRepaired(scheme, h);
    NotPrefixAt(colon, "/", 0);
    LeadingSlashIgnored(colon);
  }

  lemma ColonFormRepaired(scheme: string, h: string)
    requires scheme == "http" || scheme == "https"
    requires h == [] || h[0] != '/'
    ensures RepairTarget(scheme + ":/" + h) == scheme + "://" + h
  {
    var fixed := scheme + "://" + h;
    var colon := scheme + ":/" + h;
    PrefixOf(scheme + "://", h);
    assert HasHttpScheme(fixed);
    RepairsKeepAbsolute(fixed);
    ColonSlashRepairs(scheme, h);
    NotPrefixAt(colon, "/", 0);
    assert StripLeadingSlash(colon) == colon;
  }

  /** `scheme/host`, with or without a leading slash, becomes `scheme://host`. */
  lemma RepairBareForm(scheme: string, h: string)
    requires scheme == "http" || scheme == "https"
    requires h == [] || h[0] != '/'
    ensures RepairTarget(scheme + "/" + h) == scheme + "://" + h
    ensures RepairTarget("/" + (scheme + "/" + h)) == scheme + "://" + h
  {
    var bare := scheme + "/" + h;
    BareFormRepaired(scheme, h);
    NotPrefixAt(bare, "/", 0);
    LeadingSlashIgnored(bare);
  }

  lemma BareFormRepaired(scheme: string, h: string)
    requires scheme == "http" || scheme == "https"
    requires h == [] || h[0] != '/'
    ensures RepairTarget(scheme + "/" + h) == scheme + "://" + h
  {
    var fixed := scheme + "://" + h;
    var bare := scheme + "/" + h;
    PrefixOf(scheme + "://", h);
    ColonSlashSkipsBare(scheme, h);
    BareSlashRepairs(scheme, h);
    assert HasHttpScheme(fixed);
    NotPrefixAt(bare, "/", 0);
    assert StripLeadingSlash(bare) == bare;
  }

  /** A target that already carries `http://` or `https://` reaches the parser unchanged. */
  lemma RepairKeepsAbsolute(p: string)
    requires HasHttpScheme(p)
    ensures RepairTarget(p) == p
    ensures RepairTarget("/" + p) == p
  {
    assert ("/" + p)[1..] == p;
    PrefixAt(p, if StartsWith(p, "http://") then "http://" else "https://", 0);
    NotPrefixAt(p, "/", 0);
    RepairsKeepAbsolute(p);
  }

  /** A target that does not start with "http" gets the https scheme prepended. */
  lemma RepairDefaultsToHttps(p: string)
    requires p == [] || p[0] != '/'
    requires !StartsWith(p, "http")
    ensures RepairTarget(p) == "https://" + p
    ensures RepairTarget("/" + p) == "https://" + p
  {
    assert ("/" + p)[1..] == p;
    NoHttpPrefix(p);
  }

  /** A string not starting with "http" starts with none of the repaired forms. */
  lemma NoHttpPrefix(p: string)
    requires !StartsWith(p, "http")
    ensures forall q :: q in ["http:/", "https:/", "http/", "https/", "http://", "https://"] ==> !StartsWith(p, q)
  {
    forall q | q in ["http:/", "https:/", "http/", "https/", "http://", "https://"]
      ensures !StartsWith(p, q)
    {
      PrefixOf("http", q[4..]);
      assert q == "http" + q[4..];
      NotPrefixLonger(p, "http", q);
    }
  }

  /**
   * `parseUpstreamUrl`: parse the repaired target, then overwrite its query
   * with the request's own `search` (the request's `url.search`, which the
   * setter reproduces). `None` where the parser throws.
   */
  function ParseUpstreamUrl(restPath: string, search: string, parse: Parser): (r: Option<Url>)
    ensures r.None? <==> parse(RepairTarget(restPath)).None?
    ensures r.Some? ==> r.value.search == search
    ensures r.Some? ==> var u := parse(RepairTarget(restPath)).value;
      && r.value.protocol == u.protocol && r.value.hostname == u.hostname
      && r.value.port == u.port && r.value.pathname == u.pathname
  {
    match parse(RepairTarget(restPath))
    case None => None
    case Some(u) => Some(u.(search := search))
  }

  /**
   * The query embedded in the path never survives: whatever query `q` the
   * parsed target carries, the result is the parsed URL with the request's
   * own query.
   */
  lemma EmbeddedQueryDiscarded(restPath: string, search: string, parse: Parser, u: Url, q: string)
    requires parse(RepairTarget(restPath)) == Some(u)
    ensures ParseUpstreamUrl(restPath, search, parse) == Some(u.(search := search))
    ensures ParseUpstreamUrl(restPath, search, parse) == ParseUpstreamUrl(restPath, search, _ => Some(u.(search := q)))
  {
  }

  // ----------------------------------------------------------- canonical key

  /** An IPv6 host name the parser reported without brackets gets them. */
  function BracketHost(h: string): string
  {
    if ':' in h && !StartsWith(h, "[") then "[" + h + "]" else h
  }

  function DefaultPort(proto: string): string
  {
    if proto == "https:" then "443" else if proto == "http:" then "80" else ""
  }

  /** The port the key shows: none when the URL's port is its scheme's default. */
  function EffectivePort(u: Url): string
  {
    if u.port == DefaultPort(Lower(u.protocol)) then "" else u.port
  }

  /** `canonicalOrigin`: `proto//host[:port]`, lower-cased, default ports folded. */
  function CanonicalOrigin(u: Url): string
  {
    var proto := Lower(u.protocol);
    var host := BracketHost(u.hostname);
    var port := if u.port == DefaultPort(proto) then "" else u.port;
    proto + "//" + Lower(host) + (if port != "" then ":" + port else "")
  }

  /** What the key is meant to identify: scheme, host and effective port, compared case-insensitively. */
  function OriginParts(u: Url): (string, string, string)
  {
    (Lower(u.protocol), Lower(BracketHost(u.hostname)), EffectivePort(u))
  }

  /**
   * The URLs the parser produces: no slash in the scheme or host, a host
   * starting with `[` and holding a colon is closed by `]`, a decimal port.
   */
  predicate WellFormed(u: Url)
  {
    && '/' !in u.protocol
    && '/' !in u.hostname
    && (':' in u.hostname && StartsWith(u.hostname, "[") ==> EndsWith(u.hostname, "]"))
    && AllDigits(u.port)
  }

  /** Position of the first `c` in `s`, or `|s|`. */
  function IndexOf(s: string, c: char): (i: nat)
    ensures i <= |s| && c !in s[..i] && (i < |s| ==> s[i] == c)
  {
    if |s| == 0 || s[0] == c then 0 else 1 + IndexOf(s[1..], c)
  }

  /** Position of the last `c` in `s`, or -1. */
  function LastIndexOf(s: string, c: char): (i: int)
    ensures -1 <= i < |s| && c !in s[i + 1..] && (0 <= i ==> s[i] == c)
  {
    if |s| == 0 then -1 else if s[|s| - 1] == c then |s| - 1 else LastIndexOf(s[..|s| - 1], c)
  }

  /** Reads a key back into scheme, host and port: the reference against which the key is checked. */
  function DecodeKey(key: string): Option<(string, string, string)>
  {
    var i := IndexOf(key, '/');
    if i + 2 > |key| || key[i..i + 2] != "//" then None
    else DecodeAuthority(key[..i], key[i + 2..])
  }

  /** Splits what follows `//` at its last `:` when only digits follow it. */
  function DecodeAuthority(proto: string, rest: string): Option<(string, string, string)>
  {
    var j := LastIndexOf(rest, ':');
    if 0 <= j && rest[j + 1..] != "" && AllDigits(rest[j + 1..]) then Some((proto, rest[..j], rest[j + 1..]))
    else Some((proto, rest, ""))
  }

  /** Lower-casing neither adds nor removes a character that is not a letter. */
  lemma LowerKeeps(s: string, c: char)
    requires !('A' <= c <= 'Z') && !('a' <= c <= 'z')
    ensures c in Lower(s) <==> c in s
  {
    if c in s {
      var k :| 0 <= k < |s| && s[k] == c;
      assert Lower(s)[k] == c;
    }
    if c in Lower(s) {
      var k :| 0 <= k < |s| && Lower(s)[k] == c;
      assert s[k] == c;
    }
  }

  lemma {:induction false} IndexOfAfter(a: string, b: string, c: char)
    requires c !in a && |b| > 0 && b[0] == c
    ensures IndexOf(a + b, c) == |a|
  {
    if |a| > 0 {
      assert (a + b)[1..] == a[1..] + b;
      IndexOfAfter(a[1..], b, c);
    } else {
      assert a + b == b;
    }
  }

  lemma {:induction false} LastIndexOfBefore(a: string, b: string, c: char)
    requires c !in b
    ensures LastIndexOf(a + [c] + b, c) == |a|
  {
    if |b| > 0 {
      assert (a + [c] + b)[..|a + [c] + b| - 1] == a + [c] + b[..|b| - 1];
      LastIndexOfBefore(a, b[..|b| - 1], c);
    } else {
      assert a + [c] + b == a + [c];
    }
  }

  /** The host part of a key never ends in `:digits`, so a port is read only where one was appended. */
  lemma TailNotPortAt(host: string, j: int)
    requires -1 <= j < |host| && (0 <= j ==> host[j] == ':')
    requires ':' !in host || (|host| > 0 && host[|host| - 1] == ']')
    ensures j < 0 || host[j + 1..] == "" || !AllDigits(host[j + 1..])
  {
    if 0 <= j && j < |host| - 1 {
      ColonMeansBracketed(host, j);
      BracketedTailNotDigits(host, j);
    }
  }

  lemma ColonMeansBracketed(host: string, j: int)
    requires 0 <= j < |host| && host[j] == ':'
    requires ':' !in host || (|host| > 0 && host[|host| - 1] == ']')
    ensures host[|host| - 1] == ']'
  {
    assert host[j] in host;
  }

  lemma BracketedTailNotDigits(host: string, j: int)
    requires 0 <= j < |host| - 1 && host[|host| - 1] == ']'
    ensures !AllDigits(host[j + 1..])
  {
    var tail := host[j + 1..];
    assert tail[|tail| - 1] == ']';
  }

  function PortSuffix(port: string): string
  {
    if port != "" then ":" + port else ""
  }

  /** The key is the rendering of the URL's origin parts. */
  lemma KeyLayout(u: Url)
    ensures CanonicalOrigin(u) == OriginParts(u).0 + "//" + OriginParts(u).1 + PortSuffix(OriginParts(u).2)
  {
  }

  /** Splitting a rendered key at its first `/` gives back the scheme. */
  lemma DecodeScheme(proto: string, rest: string)
    requires '/' !in proto
    ensures DecodeKey(proto + "//" + rest) == DecodeAuthority(proto, rest)
  {
    var key := proto + "//" + rest;
    assert key == proto + ("//" + rest);
    IndexOfAfter(proto, "//" + rest, '/');
    assert key[|proto|..|proto| + 2] == "//";
    assert key[..|proto|] == proto;
    assert key[|proto| + 2..] == rest;
  }

  lemma AuthorityWithPort(proto: string, host: string, port: string)
    requires AllDigits(port) && port != ""
    ensures DecodeAuthority(proto, host + [':'] + port) == Some((proto, host, port))
  {
    var rest := host + [':'] + port;
    assert ':' !in port by {
      assert forall k :: 0 <= k < |port| ==> port[k] != ':';
    }
    LastIndexOfBefore(host, port, ':');
    assert rest[..|host|] == host;
    assert rest[|host| + 1..] == port;
  }

  lemma AuthorityWithoutPort(proto: string, host: string)
    requires ':' !in host || (|host| > 0 && host[|host| - 1] == ']')
    ensures DecodeAuthority(proto, host) == Some((proto, host, ""))
  {
    var j := LastIndexOf(host, ':');
    TailNotPortAt(host, j);
  }

  /** A rendered key decodes to the scheme, host and port it was rendered from. */
  lemma DecodeRendered(proto: string, host: string, port: string)
    requires '/' !in proto && AllDigits(port)
    requires ':' !in host || (|host| > 0 && host[|host| - 1] == ']')
    ensures DecodeKey(proto + "//" + host + PortSuffix(port)) == Some((proto, host, port))
  {
    if port != "" {
      assert proto + "//" + host + PortSuffix(port) == proto + "//" + (host + [':'] + port);
      KeyWithPort(proto, host, port);
    } else {
      assert proto + "//" + host + PortSuffix(port) == proto + "//" + host;
      KeyWithoutPort(proto, host);
    }
  }

  lemma KeyWithPort(proto: string, host: string, port: string)
    requires '/' !in proto && AllDigits(port) && port != ""
    ensures DecodeKey(proto + "//" + (host + [':'] + port)) == Some((proto, host, port))
  {
    DecodeScheme(proto, host + [':'] + port);
    AuthorityWithPort(proto, host, port);
  }

  lemma KeyWithoutPort(proto: string, host: string)
    requires '/' !in proto
    requires ':' !in host || (|host| > 0 && host[|host| - 1] == ']')
    ensures DecodeKey(proto + "//" + host) == Some((proto, host, ""))
  {
    DecodeScheme(proto, host);
    AuthorityWithoutPort(proto, host);
  }

  /** The key decodes back to the parts it was built from. */
  lemma CanonicalOriginDecodes(u: Url)
    requires WellFormed(u)
    ensures DecodeKey(CanonicalOrigin(u)) == Some(OriginParts(u))
  {
    var (proto, host, port) := OriginParts(u);
    KeyLayout(u);
    LowerKeeps(u.protocol, '/');
    var b := BracketHost(u.hostname);
    LowerKeeps(b, ':');
    if ':' in b {
      assert |b| > 0 && b[|b| - 1] == ']';
      assert host[|host| - 1] == LowerChar(b[|b| - 1]);
    }
    DecodeRendered(proto, host, port);
  }

  /** Two well-formed URLs get the same key exactly when scheme, host and effective port agree. */
  lemma CanonicalOriginIdentifiesOrigin(u1: Url, u2: Url)
    requires WellFormed(u1) && WellFormed(u2)
    ensures CanonicalOrigin(u1) == CanonicalOrigin(u2) <==> OriginParts(u1) == OriginParts(u2)
  {
    if CanonicalOrigin(u1) == CanonicalOrigin(u2) {
      CanonicalOriginDecodes(u1);
      CanonicalOriginDecodes(u2);
    }
  }

  /** The default port of the scheme, written or not, gives the same key; any other port shows. */
  lemma DefaultPortFolds(u: Url)
    ensures Lower(u.protocol) == "https:" ==> CanonicalOrigin(u.(port := "443")) == CanonicalOrigin(u.(port := ""))
    ensures Lower(u.protocol) == "http:" ==> CanonicalOrigin(u.(port := "80")) == CanonicalOrigin(u.(port := ""))
    ensures u.port != "" && u.port != DefaultPort(Lower(u.protocol)) ==> EndsWith(CanonicalOrigin(u), ":" + u.port)
  {
  }

  /** The key is already lower-case and keeps the URL's scheme in front. */
  lemma CanonicalOriginShape(u: Url)
    ensures StartsWith(CanonicalOrigin(u), Lower(u.protocol) + "//")
    ensures ':' in u.hostname && !StartsWith(u.hostname, "[") ==>
      StartsWith(CanonicalOrigin(u), Lower(u.protocol) + "//[")
  {
    var proto := Lower(u.protocol);
    var key := CanonicalOrigin(u);
    if ':' in u.hostname && !StartsWith(u.hostname, "[") {
      assert Lower("[" + u.hostname + "]")[0] == '[';
      assert key == proto + "//" + Lower("[" + u.hostname + "]") + (if EffectivePort(u) != "" then ":" + EffectivePort(u) else "");
      assert key[..|proto| + 3] == proto + "//[";
    }
    assert key[..|proto| + 2] == proto + "//";
  }

  // ------------------------------------------------------- admin input keys

  /** The outcome of `normalizeOrigin`: `null`, a thrown parse error, or a key. */
  datatype Normalized = Blank | Unparsable | Origin(key: string)

  /** `/^https?:\/\//i`. */
  predicate HasHttpSchemeAnyCase(s: string)
  {
    HasHttpScheme(Lower(s))
  }

  /** `normalizeOrigin`: trim, default the scheme to https, parse, canonicalise. */
  function NormalizeOrigin(input: string, parse: Parser): (r: Normalized)
    ensures r.Blank? <==> Trim(input) == ""
  {
    var s := Trim(input);
    if s == "" then Blank
    else
      var t := if HasHttpSchemeAnyCase(s) then s else "https://" + s;
      match parse(t)
      case None => Unparsable
      case Some(u) => Origin(CanonicalOrigin(u))
  }

  /** Empty or all-white-space input gives no key, and only that input. */
  lemma NormalizeBlank(input: string, parse: Parser)
    ensures NormalizeOrigin(input, parse).Blank? <==> forall i :: 0 <= i < |input| ==> IsSpace(input[i])
  {
    TrimIsTrimmed(input);
  }

  /**
   * A bare host (surrounding white space allowed) is keyed as if written
   * with `https://`; a URL with a scheme gets the very key the gate computes.
   */
  lemma NormalizeBareHost(h: string, pad: string, parse: Parser)
    requires IsTrimmed(h) && h != "" && !HasHttpSchemeAnyCase(h)
    requires forall i :: 0 <= i < |pad| ==> IsSpace(pad[i])
    ensures NormalizeOrigin(pad + h + pad, parse) == NormalizeOrigin("https://" + h, parse)
  {
    TrimPadded(h, pad);
    HttpsPrefixed(h);
  }

  /** Prepending `https://` to a trimmed host gives a trimmed string the scheme test accepts. */
  lemma HttpsPrefixed(h: string)
    requires IsTrimmed(h) && h != ""
    ensures Trim("https://" + h) == "https://" + h
    ensures HasHttpSchemeAnyCase("https://" + h)
  {
    var t := "https://" + h;
    assert t[0] == 'h' && t[|t| - 1] == h[|h| - 1];
    TrimOfTrimmed(t);
    LowerAppend("https://", h);
    assert Lower("https://") == "https://";
    PrefixOf("https://", Lower(h));
  }

  lemma NormalizeAgreesWithGate(s: string, parse: Parser, u: Url)
    requires IsTrimmed(s) && HasHttpScheme(s)
    requires parse(s) == Some(u)
    ensures NormalizeOrigin(s, parse) == Origin(CanonicalOrigin(u))
  {
    TrimOfTrimmed(s);
    LowerPrefix(s, if StartsWith(s, "http://") then 7 else 8);
  }

  lemma LowerPrefix(s: string, n: nat)
    requires n <= |s| && Lower(s[..n]) == s[..n]
    ensures Lower(s)[..n] == s[..n]
  {
    assert forall k :: 0 <= k < n ==> Lower(s)[k] == Lower(s[..n])[k];
  }

  lemma {:induction false} TrimPadded(h: string, pad: string)
    requires IsTrimmed(h) && h != ""
    requires forall i :: 0 <= i < |pad| ==> IsSpace(pad[i])
    ensures Trim(pad + h + pad) == h
  {
    var s := pad + h + pad;
    assert s == pad + (h + pad);
    assert (h + pad)[0] == h[0];
    assert TrimStart(s) == h + pad by {
      TrimStartPadded(pad, h + pad);
    }
    assert TrimEnd(h + pad) == h by {
      TrimEndPadded(h, pad);
    }
  }

  lemma {:induction false} TrimStartPadded(pad: string, rest: string)
    requires forall i :: 0 <= i < |pad| ==> IsSpace(pad[i])
    requires rest != [] && !IsSpace(rest[0])
    ensures TrimStart(pad + rest) == rest
  {
    if |pad| > 0 {
      assert (pad + rest)[1..] == pad[1..] + rest;
      TrimStartPadded(pad[1..], rest);
    } else {
      assert pad + rest == rest;
    }
  }

  lemma {:induction false} TrimEndPadded(h: string, pad: string)
    requires forall i :: 0 <= i < |pad| ==> IsSpace(pad[i])
    requires h != [] && !IsSpace(h[|h| - 1])
    ensures TrimEnd(h + pad) == h
  {
    if |pad| > 0 {
      assert (h + pad)[..|h + pad| - 1] == h + pad[..|pad| - 1];
      TrimEndPadded(h, pad[..|pad| - 1]);
    } else {
      assert h + pad == h;
    }
  }
}
