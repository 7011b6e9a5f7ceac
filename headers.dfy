/**
 * Header sanitisation. A `HeaderMap` is the Fetch API's `Headers` object:
 * names are case-insensitive, so entries are stored under their lower-cased
 * name and every operation lower-cases the name it is given.
 */
module Headers {
  import opened Text
  import opened Wrappers

  type Fields = map<string, string>

  /** The client-address headers removed from every request sent upstream. */
  function ClientIpNames(): set<string>
  {
    {"x-forwarded-for", "x-real-ip", "true-client-ip", "cf-connecting-ip"}
  }

  /** The framing-policy headers removed from every response returned to the client. */
  function SecurityNames(): set<string>
  {
    {"content-security-policy", "x-frame-options"}
  }

  /** The headers of a request forwarded to `host`: Host replaced, Referer and client addresses removed. */
  function Upstream(f: Fields, host: string): Fields
  {
    f["host" := host] - {"referer"} - ClientIpNames()
  }

  /** The headers of the request that follows a redirect to `host`, built from the upstream request's headers. */
  function Follow(f: Fields, host: string): Fields
  {
    f["host" := host] - ClientIpNames()
  }

  /** A response's headers with the framing policy removed. */
  function Stripped(f: Fields): Fields
  {
    f - SecurityNames()
  }

  /** The headers of a redirect handed back to the client: Location made absolute, framing policy removed. */
  function Passthrough(f: Fields, location: string): Fields
  {
    Stripped(f["location" := location])
  }

  /** Every stored name is in lower case. */
  predicate LowerKeys(f: Fields)
  {
    forall k :: k in f ==> Lower(k) == k
  }

  /** A name without upper-case letters is its own lower-cased form. */
  lemma LowerOfLowerName(s: string)
    requires forall i :: 0 <= i < |s| ==> !('A' <= s[i] <= 'Z')
    ensures Lower(s) == s
  {
  }

  lemma RequestNames()
    ensures Lower("Host") == "host" && Lower("Referer") == "referer" && Lower("Location") == "location"
  {
  }

  lemma ClientIpSpellings()
    ensures Lower("x-forwarded-for") == "x-forwarded-for" && Lower("x-real-ip") == "x-real-ip"
    ensures Lower("true-client-ip") == "true-client-ip" && Lower("cf-connecting-ip") == "cf-connecting-ip"
  {
    LowerOfLowerName("x-forwarded-for");
    LowerOfLowerName("x-real-ip");
    LowerOfLowerName("true-client-ip");
    LowerOfLowerName("cf-connecting-ip");
  }

  lemma ClientIpCapitalised()
    ensures Lower("CF-Connecting-IP") == "cf-connecting-ip"
    ensures Lower("True-Client-IP") == "true-client-ip"
  {
  }

  lemma SecuritySpellings()
    ensures Lower("Content-Security-Policy") == "content-security-policy"
    ensures Lower("X-Frame-Options") == "x-frame-options"
  {
  }

  /** Header names are case-insensitive: two spellings of a name read the same entry. */
  lemma GetIgnoresCase(h: HeaderMap, a: string, b: string)
    requires EqualIgnoringCase(a, b)
    ensures h.Get(a) == h.Get(b)
  {
    LowerEqualIff(a, b);
  }

  class HeaderMap {
    var fields: Fields

    ghost predicate Valid()
      reads this
    {
      LowerKeys(fields)
    }

    /** `new Headers(init)`. */
    constructor (init: Fields)
      requires LowerKeys(init)
      ensures Valid() && fields == init
    {
      fields := init;
    }

    /** `headers.get(name)`. */
    function Get(name: string): (r: Option<string>)
      reads this
      ensures r.Some? <==> Lower(name) in fields
      ensures r.Some? ==> r.value == fields[Lower(name)]
    {
      if Lower(name) in fields then Some(fields[Lower(name)]) else None
    }

    /** `headers.set(name, value)`. */
    method Set(name: string, value: string)
      requires Valid()
      modifies this
      ensures Valid()
      ensures fields == old(fields)[Lower(name) := value]
      ensures forall n {:trigger Get(n)} :: Lower(n) == Lower(name) ==> Get(n) == Some(value)
      ensures forall n {:trigger Get(n)} :: Lower(n) != Lower(name) ==> Get(n) == old(Get(n))
    {
      LowerIdempotent(name);
      fields := fields[Lower(name) := value];
    }

    /** `headers.delete(name)`. */
    method Delete(name: string)
      requires Valid()
      modifies this
      ensures Valid()
      ensures fields == old(fields) - {Lower(name)}
      ensures forall n {:trigger Get(n)} :: Lower(n) == Lower(name) ==> Get(n) == None
      ensures forall n {:trigger Get(n)} :: Lower(n) != Lower(name) ==> Get(n) == old(Get(n))
    {
      fields := fields - {Lower(name)};
    }

    /** Removes the client-address headers, in both spellings the worker names. */
    method StripClientIp()
      requires Valid()
      modifies this
      ensures Valid()
      ensures fields == old(fields) - ClientIpNames()
    {
      ClientIpSpellings();
      ClientIpCapitalised();
      Delete("x-forwarded-for");
      Delete("x-real-ip");
      Delete("true-client-ip");
      Delete("cf-connecting-ip");
      Delete("CF-Connecting-IP");
      Delete("True-Client-IP");
    }

    /** Prepares a copy of the client's headers for the upstream request (also used for WebSocket upgrades). */
    method PrepareUpstream(host: string)
      requires Valid()
      modifies this
      ensures Valid()
      ensures fields == Upstream(old(fields), host)
    {
      RequestNames();
      Set("Host", host);
      Delete("Referer");
      StripClientIp();
    }

    /** Prepares a copy of the upstream request's headers for following a redirect. */
    method PrepareFollow(host: string)
      requires Valid()
      modifies this
      ensures Valid()
      ensures fields == Follow(old(fields), host)
    {
      RequestNames();
      Set("Host", host);
      StripClientIp();
    }

    /** Removes the framing-policy headers from a copy of a response's headers. */
    method StripSecurity()
      requires Valid()
      modifies this
      ensures Valid()
      ensures fields == Stripped(old(fields))
    {
      SecuritySpellings();
      Delete("Content-Security-Policy");
      Delete("X-Frame-Options");
    }

    /** Rewrites a copy of a redirect response's headers for a passthrough. */
    method PreparePassthrough(location: string)
      requires Valid()
      modifies this
      ensures Valid()
      ensures fields == Passthrough(old(fields), location)
    {
      RequestNames();
      Set("Location", location);
      StripSecurity();
    }
  }

  /**
   * The upstream request carries the target host, no Referer, no
   * client-address header, and every other header of the client unchanged.
   */
  lemma UpstreamSanitises(f: Fields, host: string)
    ensures var u := Upstream(f, host);
      && "host" in u && u["host"] == host
      && "referer" !in u
      && (forall k :: k in ClientIpNames() ==> k !in u)
      && (forall k :: k in f && k != "host" && k != "referer" && k !in ClientIpNames() ==> k in u && u[k] == f[k])
      && (forall k :: k in u ==> k == "host" || k in f)
  {
  }

  /**
   * Following a redirect sends the same headers as a request made directly
   * to the redirect's host: the second sanitisation only replaces Host.
   */
  lemma FollowIsUpstreamForNewHost(f: Fields, first: string, second: string)
    ensures Follow(Upstream(f, first), second) == Upstream(f, second)
  {
  }

  /** Response stripping removes exactly the framing-policy headers and keeps everything else. */
  lemma StrippedExactly(f: Fields)
    ensures forall k :: k in Stripped(f) <==> k in f && k != "content-security-policy" && k != "x-frame-options"
    ensures forall k :: k in Stripped(f) ==> Stripped(f)[k] == f[k]
    ensures Stripped(Stripped(f)) == Stripped(f)
  {
  }

  /** A passthrough keeps the rewritten Location and the upstream's other non-framing headers. */
  lemma PassthroughKeepsLocation(f: Fields, location: string)
    ensures var p := Passthrough(f, location);
      && "location" in p && p["location"] == location
      && (forall k :: k in p ==> k !in SecurityNames())
      && (forall k :: k in f && k != "location" && k !in SecurityNames() ==> k in p && p[k] == f[k])
  {
  }
}
