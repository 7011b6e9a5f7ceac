/**
 * The admin session token `{exp}.{nonce}.{sig}`, carried in the `adm`
 * cookie: `exp` is an expiry in seconds, `nonce` the base64url form of 16
 * random bytes and `sig` the base64url form of an HMAC of `{exp}.{nonce}`
 * keyed with the admin password. The HMAC, the random bytes and the clock
 * are inputs.
 */
module Session {
  import opened Text
  import opened Wrappers

  newtype byte = x: int | 0 <= x < 256

  /** HMAC-SHA256 of a message under a secret, as raw bytes. */
  type Mac = (string, string) -> seq<byte>

  // ---------------------------------------------------------------------
  // base64url, as `b64u` computes it: btoa, then `+`→`-`, `/`→`_`, and the
  // trailing `=` run dropped.
  // ---------------------------------------------------------------------

  /** The Base64 alphabet of section 4 of RFC 4648. */
  function StdChar(v: nat): char
    requires v < 64
  {
    if v < 26 then ('A' as int + v) as char
    else if v < 52 then ('a' as int + (v - 26)) as char
    else if v < 62 then ('0' as int + (v - 52)) as char
    else if v == 62 then '+'
    else '/'
  }

  /** The characters `btoa` accepts: one byte each. */
  predicate IsBinary(s: string)
  {
    forall i :: 0 <= i < |s| ==> s[i] as int < 256
  }

  /** The four characters encoding three bytes. */
  function Quad(b0: nat, b1: nat, b2: nat): string
    requires b0 < 256 && b1 < 256 && b2 < 256
  {
    [StdChar(b0 / 4), StdChar((b0 % 4) * 16 + b1 / 16), StdChar((b1 % 16) * 4 + b2 / 64), StdChar(b2 % 64)]
  }

  /** `btoa`: Base64 with `=` padding of a string of byte-valued characters. */
  function Btoa(s: string): string
    requires IsBinary(s)
  {
    if |s| == 0 then ""
    else if |s| == 1 then
      var b0 := s[0] as nat;
      [StdChar(b0 / 4), StdChar((b0 % 4) * 16), '=', '=']
    else if |s| == 2 then
      var b0, b1 := s[0] as nat, s[1] as nat;
      [StdChar(b0 / 4), StdChar((b0 % 4) * 16 + b1 / 16), StdChar((b1 % 16) * 4), '=']
    else
      Quad(s[0] as nat, s[1] as nat, s[2] as nat) + Btoa(s[3..])
  }

  function UrlSafeChar(c: char): char
  {
    if c == '+' then '-' else if c == '/' then '_' else c
  }

  /** `.replace(/\+/g, "-").replace(/\//g, "_")`. */
  function UrlSafe(s: string): string
  {
    seq(|s|, i requires 0 <= i < |s| => UrlSafeChar(s[i]))
  }

  /** `.replace(/=+$/g, "")`: drops the run of `=` at the end. */
  function StripPad(s: string): (r: string)
    ensures r == [] || r[|r| - 1] != '='
    ensures StartsWith(s, r)
  {
    if |s| > 0 && s[|s| - 1] == '=' then StripPad(s[..|s| - 1]) else s
  }

  /** `String.fromCharCode` of each byte, concatenated. */
  function Binary(bytes: seq<byte>): (r: string)
    ensures |r| == |bytes| && IsBinary(r)
    ensures forall i :: 0 <= i < |bytes| ==> r[i] as int == bytes[i] as int
  {
    seq(|bytes|, i requires 0 <= i < |bytes| => bytes[i] as int as char)
  }

  /** The base64url text of a byte string, as `b64u` produces it. */
  function B64uOf(bytes: seq<byte>): string
  {
    StripPad(UrlSafe(Btoa(Binary(bytes))))
  }

  /** `b64u`: the loop building the binary string, then the post-processing. */
  method B64u(bytes: seq<byte>) returns (r: string)
    ensures r == B64uOf(bytes)
  {
    var s := "";
    for i := 0 to |bytes|
      invariant s == Binary(bytes[..i])
    {
      s := s + [bytes[i] as int as char];
    }
    assert bytes[..|bytes|] == bytes;
    r := StripPad(UrlSafe(Btoa(s)));
  }

  /** The characters of the base64url alphabet. */
  predicate IsUrlSafe(c: char)
  {
    ('A' <= c <= 'Z') || ('a' <= c <= 'z') || ('0' <= c <= '9') || c == '-' || c == '_'
  }

  /** The index of a base64url character in the alphabet. */
  function UrlIndex(c: char): (r: Option<nat>)
    ensures r.Some? <==> IsUrlSafe(c)
    ensures r.Some? ==> r.value < 64
  {
    if 'A' <= c <= 'Z' then Some(c as int - 'A' as int)
    else if 'a' <= c <= 'z' then Some(c as int - 'a' as int + 26)
    else if '0' <= c <= '9' then Some(c as int - '0' as int + 52)
    else if c == '-' then Some(62)
    else if c == '_' then Some(63)
    else None
  }

  /** Decoding of unpadded base64url text; the inverse the worker never needs, stated to pin `b64u` down. */
  function B64uDecode(s: string): Option<seq<byte>>
  {
    if |s| == 0 then Some([])
    else if |s| == 1 then None
    else
      var i0, i1 := UrlIndex(s[0]), UrlIndex(s[1]);
      if i0.None? || i1.None? then None
      else if |s| == 2 then Some([(i0.value * 4 + i1.value / 16) as byte])
      else
        var i2 := UrlIndex(s[2]);
        if i2.None? then None
        else if |s| == 3 then
          Some([(i0.value * 4 + i1.value / 16) as byte, ((i1.value % 16) * 16 + i2.value / 4) as byte])
        else
          var i3 := UrlIndex(s[3]);
          if i3.None? then None
          else
            match B64uDecode(s[4..])
            case None => None
            case Some(rest) =>
              Some([(i0.value * 4 + i1.value / 16) as byte,
                    ((i1.value % 16) * 16 + i2.value / 4) as byte,
                    ((i2.value % 4) * 64 + i3.value) as byte] + rest)
  }

  lemma UrlIndexOfChar(v: nat)
    requires v < 64
    ensures UrlIndex(UrlSafeChar(StdChar(v))) == Some(v)
  {
  }

  lemma StripPadAppend(x: string, y: string)
    requires x != [] && x[|x| - 1] != '='
    ensures StripPad(x + y) == x + StripPad(y)
    decreases |y|
  {
    if |y| == 0 {
      assert x + y == x;
    } else if y[|y| - 1] == '=' {
      assert (x + y)[..|x + y| - 1] == x + y[..|y| - 1];
      StripPadAppend(x, y[..|y| - 1]);
    }
  }

  lemma UrlSafeAppend(x: string, y: string)
    ensures UrlSafe(x + y) == UrlSafe(x) + UrlSafe(y)
  {
  }

  /** Three bytes at a time: the encoding of a longer string is the group's four characters followed by the rest's. */
  lemma B64uStep(bytes: seq<byte>)
    requires |bytes| >= 3
    ensures B64uOf(bytes) == UrlSafe(Quad(bytes[0] as nat, bytes[1] as nat, bytes[2] as nat)) + B64uOf(bytes[3..])
  {
    var s := Binary(bytes);
    assert s[3..] == Binary(bytes[3..]);
    var q := Quad(bytes[0] as nat, bytes[1] as nat, bytes[2] as nat);
    assert Btoa(s) == q + Btoa(Binary(bytes[3..]));
    UrlSafeAppend(q, Btoa(Binary(bytes[3..])));
    var u := UrlSafe(q);
    assert u[3] == UrlSafeChar(StdChar(bytes[2] as nat % 64));
    StripPadAppend(u, UrlSafe(Btoa(Binary(bytes[3..]))));
  }

  lemma B64uShort(bytes: seq<byte>)
    requires 1 <= |bytes| <= 2
    ensures var b0 := bytes[0] as nat;
      |bytes| == 1 ==> B64uOf(bytes) == [UrlSafeChar(StdChar(b0 / 4)), UrlSafeChar(StdChar((b0 % 4) * 16))]
    ensures var b0 := bytes[0] as nat; var b1 := bytes[|bytes| - 1] as nat;
      |bytes| == 2 ==> B64uOf(bytes) == [UrlSafeChar(StdChar(b0 / 4)), UrlSafeChar(StdChar((b0 % 4) * 16 + b1 / 16)),
                                         UrlSafeChar(StdChar((b1 % 16) * 4))]
  {
    var u := UrlSafe(Btoa(Binary(bytes)));
    if |bytes| == 1 {
      assert StripPad(u) == StripPad(u[..3]);
      assert u[..3][..2] == u[..2];
    } else {
      assert u[..3] == u[..3];
    }
  }

  /** Every character is in the base64url alphabet. */
  predicate AllUrlSafe(s: string)
  {
    forall i :: 0 <= i < |s| ==> IsUrlSafe(s[i])
  }

  lemma UrlSafeCharOfStd(v: nat)
    requires v < 64
    ensures IsUrlSafe(UrlSafeChar(StdChar(v)))
  {
  }

  lemma QuadUrlSafe(b0: nat, b1: nat, b2: nat)
    requires b0 < 256 && b1 < 256 && b2 < 256
    ensures AllUrlSafe(UrlSafe(Quad(b0, b1, b2))) && |UrlSafe(Quad(b0, b1, b2))| == 4
  {
    UrlSafeCharOfStd(b0 / 4);
    UrlSafeCharOfStd((b0 % 4) * 16 + b1 / 16);
    UrlSafeCharOfStd((b1 % 16) * 4 + b2 / 64);
    UrlSafeCharOfStd(b2 % 64);
  }

  lemma ShortUrlSafe(bytes: seq<byte>)
    requires 1 <= |bytes| <= 2
    ensures AllUrlSafe(B64uOf(bytes)) && |B64uOf(bytes)| == |bytes| + 1
  {
    B64uShort(bytes);
    var b0 := bytes[0] as nat;
    var b1 := bytes[|bytes| - 1] as nat;
    UrlSafeCharOfStd(b0 / 4);
    UrlSafeCharOfStd((b0 % 4) * 16);
    UrlSafeCharOfStd((b0 % 4) * 16 + b1 / 16);
    UrlSafeCharOfStd((b1 % 16) * 4);
  }

  /** Every character `b64u` emits is in the base64url alphabet: in particular no `.`, `;` or `=`. */
  lemma {:induction false} B64uAlphabet(bytes: seq<byte>)
    ensures AllUrlSafe(B64uOf(bytes))
    ensures '.' !in B64uOf(bytes) && ';' !in B64uOf(bytes) && '=' !in B64uOf(bytes)
    ensures |B64uOf(bytes)| == (4 * |bytes| + 2) / 3
    decreases |bytes|
  {
    if |bytes| == 0 {
    } else if |bytes| <= 2 {
      ShortUrlSafe(bytes);
    } else {
      B64uStep(bytes);
      B64uAlphabet(bytes[3..]);
      QuadUrlSafe(bytes[0] as nat, bytes[1] as nat, bytes[2] as nat);
      var u := UrlSafe(Quad(bytes[0] as nat, bytes[1] as nat, bytes[2] as nat));
      var t := B64uOf(bytes[3..]);
      assert forall i :: 0 <= i < |u + t| ==> (u + t)[i] == (if i < |u| then u[i] else t[i - |u|]);
    }
    NoSeparatorsInAlphabet(B64uOf(bytes));
  }

  lemma NoSeparatorsInAlphabet(s: string)
    requires AllUrlSafe(s)
    ensures '.' !in s && ';' !in s && '=' !in s
  {
    forall i | 0 <= i < |s|
      ensures s[i] != '.' && s[i] != ';' && s[i] != '='
    {
      assert IsUrlSafe(s[i]);
    }
  }

  lemma DecodeOne(b0: nat)
    requires b0 < 256
    ensures B64uDecode([UrlSafeChar(StdChar(b0 / 4)), UrlSafeChar(StdChar((b0 % 4) * 16))]) == Some([b0 as byte])
  {
    UrlIndexOfChar(b0 / 4);
    UrlIndexOfChar((b0 % 4) * 16);
  }

  lemma DecodeTwo(b0: nat, b1: nat)
    requires b0 < 256 && b1 < 256
    ensures B64uDecode([UrlSafeChar(StdChar(b0 / 4)), UrlSafeChar(StdChar((b0 % 4) * 16 + b1 / 16)),
                        UrlSafeChar(StdChar((b1 % 16) * 4))]) == Some([b0 as byte, b1 as byte])
  {
    var s0, s1, s2 := b0 / 4, (b0 % 4) * 16 + b1 / 16, (b1 % 16) * 4;
    UrlIndexOfChar(s0);
    UrlIndexOfChar(s1);
    UrlIndexOfChar(s2);
    PairArithmetic(b0, b1);
    var s := [UrlSafeChar(StdChar(s0)), UrlSafeChar(StdChar(s1)), UrlSafeChar(StdChar(s2))];
    assert UrlIndex(s[0]) == Some(s0) && UrlIndex(s[1]) == Some(s1) && UrlIndex(s[2]) == Some(s2);
  }

  /** The bit arithmetic of a two-byte tail. */
  lemma PairArithmetic(b0: nat, b1: nat)
    requires b0 < 256 && b1 < 256
    ensures var s0, s1, s2 := b0 / 4, (b0 % 4) * 16 + b1 / 16, (b1 % 16) * 4;
      && s0 * 4 + s1 / 16 == b0
      && (s1 % 16) * 16 + s2 / 4 == b1
  {
  }

  /** The bit arithmetic of one group: the decoder's formulas undo the encoder's. */
  lemma GroupArithmetic(b0: nat, b1: nat, b2: nat)
    requires b0 < 256 && b1 < 256 && b2 < 256
    ensures var s0, s1, s2, s3 := b0 / 4, (b0 % 4) * 16 + b1 / 16, (b1 % 16) * 4 + b2 / 64, b2 % 64;
      && s0 * 4 + s1 / 16 == b0
      && (s1 % 16) * 16 + s2 / 4 == b1
      && (s2 % 4) * 64 + s3 == b2
  {
  }

  lemma DecodeQuad(b0: nat, b1: nat, b2: nat, rest: string, tail: seq<byte>)
    requires b0 < 256 && b1 < 256 && b2 < 256
    requires B64uDecode(rest) == Some(tail)
    ensures B64uDecode(UrlSafe(Quad(b0, b1, b2)) + rest) == Some([b0 as byte, b1 as byte, b2 as byte] + tail)
  {
    var s0, s1, s2, s3 := b0 / 4, (b0 % 4) * 16 + b1 / 16, (b1 % 16) * 4 + b2 / 64, b2 % 64;
    UrlIndexOfChar(s0);
    UrlIndexOfChar(s1);
    UrlIndexOfChar(s2);
    UrlIndexOfChar(s3);
    GroupArithmetic(b0, b1, b2);
    var s := UrlSafe(Quad(b0, b1, b2)) + rest;
    assert UrlIndex(s[0]) == Some(s0);
    assert UrlIndex(s[1]) == Some(s1);
    assert UrlIndex(s[2]) == Some(s2);
    assert UrlIndex(s[3]) == Some(s3);
    assert s[4..] == rest;
  }

  lemma RoundTripShort(bytes: seq<byte>)
    requires 1 <= |bytes| <= 2
    ensures B64uDecode(B64uOf(bytes)) == Some(bytes)
  {
    B64uShort(bytes);
    if |bytes| == 1 {
      DecodeOne(bytes[0] as nat);
      assert bytes == [bytes[0] as nat as byte];
    } else {
      DecodeTwo(bytes[0] as nat, bytes[1] as nat);
      assert bytes == [bytes[0] as nat as byte, bytes[1] as nat as byte];
    }
  }

  /** Decoding gives the bytes back: `b64u` loses nothing and never maps two byte strings to one text. */
  lemma {:induction false} B64uRoundTrip(bytes: seq<byte>)
    ensures B64uDecode(B64uOf(bytes)) == Some(bytes)
    decreases |bytes|
  {
    if |bytes| == 0 {
    } else if |bytes| <= 2 {
      RoundTripShort(bytes);
    } else {
      var b0, b1, b2 := bytes[0] as nat, bytes[1] as nat, bytes[2] as nat;
      var tail := bytes[3..];
      calc {
        B64uDecode(B64uOf(bytes));
        { B64uStep(bytes); }
        B64uDecode(UrlSafe(Quad(b0, b1, b2)) + B64uOf(tail));
        { B64uRoundTrip(tail); DecodeQuad(b0, b1, b2, B64uOf(tail), tail); }
        Some([b0 as byte, b1 as byte, b2 as byte] + tail);
        { assert bytes == [b0 as byte, b1 as byte, b2 as byte] + tail; }
        Some(bytes);
      }
    }
  }

  /** Two byte strings with the same base64url text are equal. */
  lemma B64uInjective(x: seq<byte>, y: seq<byte>)
    requires B64uOf(x) == B64uOf(y)
    ensures x == y
  {
    B64uRoundTrip(x);
    B64uRoundTrip(y);
  }

  // ---------------------------------------------------------------------
  // Constant-time comparison
  // ---------------------------------------------------------------------

  /** Bitwise exclusive or of two non-negative integers. */
  function Xor(x: nat, y: nat): nat
  {
    if x == 0 then y
    else if y == 0 then x
    else 2 * Xor(x / 2, y / 2) + (if x % 2 != y % 2 then 1 else 0)
  }

  /** Bitwise or of two non-negative integers: zero only when both are. */
  function BitOr(x: nat, y: nat): (r: nat)
    ensures r == 0 <==> x == 0 && y == 0
  {
    if x == 0 then y
    else if y == 0 then x
    else 2 * BitOr(x / 2, y / 2) + (if x % 2 == 1 || y % 2 == 1 then 1 else 0)
  }

  lemma {:induction false} XorZero(x: nat, y: nat)
    ensures Xor(x, y) == 0 <==> x == y
  {
    if x != 0 && y != 0 {
      XorZero(x / 2, y / 2);
    }
  }

  /** `timingSafeEqual`: or-accumulates the exclusive or of every pair of code units. */
  method TimingSafeEqual(a: string, b: string) returns (eq: bool)
    ensures eq <==> a == b
    ensures |a| != |b| ==> !eq
  {
    if |a| != |b| {
      return false;
    }
    var r: nat := 0;
    for i := 0 to |a|
      invariant r == 0 <==> a[..i] == b[..i]
    {
      XorZero(a[i] as nat, b[i] as nat);
      r := BitOr(r, Xor(a[i] as nat, b[i] as nat));
      assert a[..i + 1] == a[..i] + [a[i]];
      assert b[..i + 1] == b[..i] + [b[i]];
    }
    assert a[..|a|] == a && b[..|b|] == b;
    eq := r == 0;
  }

  // ---------------------------------------------------------------------
  // Reading the cookie
  // ---------------------------------------------------------------------

  /** The longest prefix without `;`: what `[^;]+` consumes. */
  function UntilSemicolon(s: string): (r: string)
    ensures StartsWith(s, r) && ';' !in r
    ensures r == s || s[|r|] == ';'
  {
    if |s| == 0 || s[0] == ';' then "" else [s[0]] + UntilSemicolon(s[1..])
  }

  /** The first index at or after `k` that is not white space: where `\s*` stops. */
  function SkipSpaces(c: string, k: nat): (r: nat)
    requires k <= |c|
    ensures k <= r <= |c|
    ensures r == |c| || !IsSpace(c[r])
    ensures forall i :: k <= i < r ==> IsSpace(c[i])
    decreases |c| - k
  {
    if k < |c| && IsSpace(c[k]) then SkipSpaces(c, k + 1) else k
  }

  /** `adm=([^;]+)` matched at index `k`. */
  function ValueAt(c: string, k: nat): (r: Option<string>)
    requires k <= |c|
    ensures r.Some? ==> r.value != "" && ';' !in r.value
  {
    if StartsWith(c[k..], "adm=") then
      var v := UntilSemicolon(c[k + 4..]);
      if v != "" then Some(v) else None
    else None
  }

  /** `(?:^|;\s*)adm=([^;]+)` tried at start index `p`, first alternative first. */
  function MatchAt(c: string, p: nat): (r: Option<string>)
    requires p <= |c|
    ensures r.Some? ==> r.value != "" && ';' !in r.value
  {
    if p == 0 && ValueAt(c, 0).Some? then ValueAt(c, 0)
    else if p < |c| && c[p] == ';' then ValueAt(c, SkipSpaces(c, p + 1))
    else None
  }

  /** `cookie.match(/(?:^|;\s*)adm=([^;]+)/)?.[1]`: the leftmost match at or after `p`. */
  function AdmCookieFrom(c: string, p: nat): (r: Option<string>)
    requires p <= |c|
    ensures r.Some? ==> r.value != "" && ';' !in r.value
    decreases |c| - p
  {
    var m := MatchAt(c, p);
    if m.Some? then m else if p == |c| then None else AdmCookieFrom(c, p + 1)
  }

  function AdmCookie(c: string): (r: Option<string>)
    ensures r.Some? ==> r.value != "" && ';' !in r.value
  {
    AdmCookieFrom(c, 0)
  }

  /** A header that opens with the `adm` cookie yields its value. */
  lemma AdmCookieFirst(v: string, rest: string)
    requires v != "" && ';' !in v
    requires rest == [] || rest[0] == ';'
    ensures AdmCookie("adm=" + v + rest) == Some(v)
  {
    var c := "adm=" + v + rest;
    assert c[0..][..4] == "adm=";
    assert c[4..] == v + rest;
    UntilSemicolonStops(v, rest);
  }

  lemma {:induction false} UntilSemicolonStops(v: string, rest: string)
    requires ';' !in v
    requires rest == [] || rest[0] == ';'
    ensures UntilSemicolon(v + rest) == v
  {
    if v == [] {
      assert v + rest == rest;
    } else {
      assert (v + rest)[1..] == v[1..] + rest;
      UntilSemicolonStops(v[1..], rest);
    }
  }

  /** At a `;` followed by spaces and `adm=v`, the second alternative matches. */
  lemma MatchAfterSemicolon(c: string, j: nat, k: nat, v: string, rest: string)
    requires 0 < j < k <= |c| && c[j] == ';'
    requires forall i :: j + 1 <= i < k ==> IsSpace(c[i])
    requires c[k..] == "adm=" + v + rest
    requires v != "" && ';' !in v
    requires rest == [] || rest[0] == ';'
    ensures MatchAt(c, j) == Some(v)
  {
    assert c[k] == 'a';
    SkipSpacesOver(c, j + 1, k);
    assert c[k..][..4] == "adm=";
    assert c[k + 4..] == v + rest;
    UntilSemicolonStops(v, rest);
  }

  /** `adm=` after one other cookie, separated by `;` and spaces, is found too. */
  lemma AdmCookieSecond(other: string, spaces: string, v: string, rest: string)
    requires other != "" && ';' !in other && !StartsWith(other, "adm=")
    requires forall i :: 0 <= i < |spaces| ==> IsSpace(spaces[i])
    requires v != "" && ';' !in v
    requires rest == [] || rest[0] == ';'
    ensures AdmCookie(other + ";" + spaces + "adm=" + v + rest) == Some(v)
  {
    var c := other + ";" + spaces + "adm=" + v + rest;
    var j := |other|;
    var k := j + 1 + |spaces|;
    assert c == other + (";" + spaces + "adm=" + v + rest);
    assert c[j] == ';';
    assert forall i :: 0 <= i < j ==> c[i] == other[i];
    assert forall i :: j + 1 <= i < k ==> c[i] == spaces[i - j - 1];
    assert c[k..] == "adm=" + v + rest;
    MatchAfterSemicolon(c, j, k, v, rest);
    OpeningNotAdm(c, other);
    NoMatchBefore(c, j);
  }

  lemma OpeningNotAdm(c: string, other: string)
    requires StartsWith(c, other) && |other| < |c| && c[|other|] == ';'
    requires !StartsWith(other, "adm=")
    ensures !StartsWith(c[0..], "adm=")
  {
    assert c[0..] == c;
    if |other| >= 4 {
      assert c[..4] == other[..4];
    } else if |c| >= 4 {
      assert c[..4][|other|] == ';';
    }
  }

  lemma {:induction false} SkipSpacesOver(c: string, k: nat, e: nat)
    requires k <= e < |c|
    requires forall i :: k <= i < e ==> IsSpace(c[i])
    requires !IsSpace(c[e])
    ensures SkipSpaces(c, k) == e
    decreases e - k
  {
    if k < e {
      SkipSpacesOver(c, k + 1, e);
    }
  }

  /** No match starts before the first `;` when the string does not open with `adm=`. */
  lemma {:induction false} NoMatchBefore(c: string, j: nat)
    requires j < |c| && c[j] == ';'
    requires forall i :: 0 <= i < j ==> c[i] != ';'
    requires !StartsWith(c[0..], "adm=")
    ensures AdmCookieFrom(c, 0) == AdmCookieFrom(c, j)
  {
    var p := 0;
    while p < j
      invariant 0 <= p <= j
      invariant AdmCookieFrom(c, 0) == AdmCookieFrom(c, p)
    {
      assert MatchAt(c, p) == None;
      p := p + 1;
    }
  }

  lemma NoCookieNoMatch()
    ensures AdmCookie("") == None
  {
    assert MatchAt("", 0) == None;
  }

  // ---------------------------------------------------------------------
  // JavaScript `Number` on the expiry field
  // ---------------------------------------------------------------------

  /**
   * `Number(s)` when finite, for the numerals the expiry field can hold:
   * surrounding white space is ignored, the empty string is 0, and an
   * optionally signed run of decimal digits is its value. Every other
   * string is `None` (NaN or not finite).
   */
  function JsNumber(s: string): (r: Option<int>)
    ensures AllDigits(s) && s != "" ==> r == Some(DigitsValue(s))
  {
    var t := Trim(s);
    if t == "" then Some(0)
    else if (t[0] == '+' || t[0] == '-') && |t| > 1 && AllDigits(t[1..]) then
      var d: int := DigitsValue(t[1..]);
      Some(if t[0] == '-' then -d else d)
    else if AllDigits(t) then Some(DigitsValue(t))
    else None
  }

  /** `${n}` for any integer. */
  function IntToString(n: int): (r: string)
    ensures r != "" && '.' !in r && ';' !in r
    ensures !IsSpace(r[0]) && !IsSpace(r[|r| - 1])
  {
    var d := NatToString(if n < 0 then -n else n);
    assert !IsSpace(d[|d| - 1]) && !IsSpace(d[0]) && '.' !in d && ';' !in d by {
      assert IsDigit(d[0]) && IsDigit(d[|d| - 1]);
      DigitsHaveNoSeparators(d);
    }
    if n < 0 then "-" + d else d
  }

  lemma DigitsHaveNoSeparators(d: string)
    requires AllDigits(d)
    ensures '.' !in d && ';' !in d
  {
    forall i | 0 <= i < |d|
      ensures d[i] != '.' && d[i] != ';'
    {
      assert IsDigit(d[i]);
    }
  }

  /** Reading back a rendered integer gives the integer. */
  lemma JsNumberOfIntToString(n: int)
    ensures JsNumber(IntToString(n)) == Some(n)
  {
    var s := IntToString(n);
    TrimOfTrimmed(s);
    if n < 0 {
      NegativeNumeral(-n);
    } else {
      DigitsValueOfNatToString(n);
    }
  }

  lemma NegativeNumeral(m: nat)
    requires m > 0
    ensures JsNumber("-" + NatToString(m)) == Some(-(m as int))
  {
    var s := "-" + NatToString(m);
    DigitsValueOfNatToString(m);
    assert s[1..] == NatToString(m);
    assert IsTrimmed(s) by {
      assert IsDigit(s[|s| - 1]);
    }
    TrimOfTrimmed(s);
  }

  // ---------------------------------------------------------------------
  // Minting and checking
  // ---------------------------------------------------------------------

  /** The session lifetime: twelve hours, in seconds. */
  const SessionSeconds := 12 * 3600

  /** `Math.floor(Date.now() / 1000)` (the divisor is positive, so this is the floor). */
  function Seconds(nowMs: int): int
  {
    nowMs / 1000
  }

  /** The expiry written into a token minted at `nowMs`. */
  function Expiry(nowMs: int): int
  {
    Seconds(nowMs) + SessionSeconds
  }

  /** `{exp}.{nonce}`: the signed part of a token. */
  function Payload(nowMs: int, nonce: seq<byte>): string
  {
    IntToString(Expiry(nowMs)) + "." + B64uOf(nonce)
  }

  /** The token minted at `nowMs` with the given random bytes. */
  function Token(password: string, nowMs: int, nonce: seq<byte>, mac: Mac): string
  {
    Payload(nowMs, nonce) + "." + B64uOf(mac(password, Payload(nowMs, nonce)))
  }

  /** A token splits into expiry, nonce and signature, and holds no `;`. */
  lemma TokenFields(password: string, nowMs: int, nonce: seq<byte>, mac: Mac)
    ensures var t := Token(password, nowMs, nonce, mac);
      && t != "" && ';' !in t
      && Split(t, '.') == [IntToString(Expiry(nowMs)), B64uOf(nonce), B64uOf(mac(password, Payload(nowMs, nonce)))]
  {
    var e := IntToString(Expiry(nowMs));
    var n := B64uOf(nonce);
    var g := B64uOf(mac(password, Payload(nowMs, nonce)));
    B64uAlphabet(nonce);
    B64uAlphabet(mac(password, Payload(nowMs, nonce)));
    var xs := [e, n, g];
    var t := Token(password, nowMs, nonce, mac);
    assert t == e + ['.'] + (n + ['.'] + g);
    assert Join(xs, '.') == t by {
      assert xs[1..] == [n, g];
      assert Join([n, g], '.') == n + ['.'] + g by {
        assert [n, g][1..] == [g];
      }
    }
    SplitJoin(xs, '.');
    assert ';' !in t by {
      assert forall i :: 0 <= i < |t| ==> t[i] == (e + ['.'] + (n + ['.'] + g))[i];
    }
  }

  /** `makeAdminCookie`: the `Set-Cookie` value carrying a fresh token. */
  function AdminCookie(password: string, nowMs: int, nonce: seq<byte>, mac: Mac): (r: string)
    requires |nonce| == 16
  {
    "adm=" + Token(password, nowMs, nonce, mac) + CookieAttributes()
  }

  /** The attributes after the `adm` value: scoped to `/admin`, living as long as the token, script-proof. */
  function CookieAttributes(): (r: string)
    ensures |r| > 0 && r[0] == ';'
  {
    "; Path=/admin; Max-Age=" + NatToString(SessionSeconds) + "; HttpOnly; Secure; SameSite=Lax"
  }

  /**
   * The cookie `makeAdminCookie` sets carries the token as the `adm` value,
   * with a 22-character nonce.
   */
  lemma AdminCookieCarriesToken(password: string, nowMs: int, nonce: seq<byte>, mac: Mac)
    requires |nonce| == 16
    ensures AdmCookie(AdminCookie(password, nowMs, nonce, mac)) == Some(Token(password, nowMs, nonce, mac))
    ensures |B64uOf(nonce)| == 22
  {
    var t := Token(password, nowMs, nonce, mac);
    TokenFields(password, nowMs, nonce, mac);
    B64uAlphabet(nonce);
    AdmCookieFirst(t, CookieAttributes());
  }

  /**
   * The cookie's Max-Age, read back as a number, is the lifetime of the token
   * it carries: the token's expiry minus the instant it was minted, twelve
   * hours.
   */
  lemma MaxAgeIsLifetime(nowMs: int)
    ensures var age := NatToString(SessionSeconds);
      && CookieAttributes() == "; Path=/admin; Max-Age=" + age + "; HttpOnly; Secure; SameSite=Lax"
      && JsNumber(age) == Some(Expiry(nowMs) - Seconds(nowMs))
      && age == "43200"
  {
    var age := NatToString(SessionSeconds);
    AgeText();
    DigitsValueOfNatToString(SessionSeconds);
    assert JsNumber(age) == Some(DigitsValue(age));
  }

  lemma AgeText()
    ensures NatToString(SessionSeconds) == "43200"
  {
  }

  /** What `isAdmin` answers for a request's Cookie header at time `nowMs`. */
  function Verdict(cookieHeader: Option<string>, password: string, nowMs: int, mac: Mac): (ok: bool)
    ensures ok ==> cookieHeader.Some? && AdmCookie(cookieHeader.value).Some?
    ensures ok ==> |Split(AdmCookie(cookieHeader.value).value, '.')| == 3
  {
    var cookie := if cookieHeader.Some? then cookieHeader.value else "";
    match AdmCookie(cookie)
    case None => false
    case Some(v) =>
      var parts := Split(v, '.');
      if |parts| != 3 then false
      else
        match JsNumber(parts[0])
        case None => false
        case Some(exp) =>
          if exp < Seconds(nowMs) then false
          else parts[2] == B64uOf(mac(password, parts[0] + "." + parts[1]))
  }

  /** `isAdmin`: the checks in the worker's order, the signature compared in constant time. */
  method IsAdmin(cookieHeader: Option<string>, password: string, nowMs: int, mac: Mac) returns (ok: bool)
    ensures ok == Verdict(cookieHeader, password, nowMs, mac)
  {
    var cookie := if cookieHeader.Some? then cookieHeader.value else "";
    var m := AdmCookie(cookie);
    if m.None? {
      return false;
    }
    var parts := Split(m.value, '.');
    if |parts| != 3 {
      return false;
    }
    var exp := JsNumber(parts[0]);
    if exp.None? || exp.value < Seconds(nowMs) {
      return false;
    }
    var expected := B64u(mac(password, parts[0] + "." + parts[1]));
    ok := TimingSafeEqual(parts[2], expected);
  }

  /**
   * A token minted at `mintMs` and sent back as the `adm` cookie is accepted
   * with the same password exactly while its expiry, twelve hours after
   * minting, has not passed.
   */
  lemma MintedTokenAcceptedUntilExpiry(password: string, mintMs: int, nonce: seq<byte>, mac: Mac, nowMs: int, rest: string)
    requires rest == [] || rest[0] == ';'
    ensures Verdict(Some("adm=" + Token(password, mintMs, nonce, mac) + rest), password, nowMs, mac)
        <==> Seconds(nowMs) <= Seconds(mintMs) + SessionSeconds
  {
    var t := Token(password, mintMs, nonce, mac);
    TokenFields(password, mintMs, nonce, mac);
    AdmCookieFirst(t, rest);
    JsNumberOfIntToString(Expiry(mintMs));
  }

  /**
   * Acceptance means the cookie holds three dot-separated fields, an
   * unexpired numeric expiry, and as third field the base64url HMAC of the
   * first two under the password.
   */
  lemma AcceptedIsSigned(cookieHeader: Option<string>, password: string, nowMs: int, mac: Mac)
    requires Verdict(cookieHeader, password, nowMs, mac)
    ensures cookieHeader.Some?
    ensures var v := AdmCookie(cookieHeader.value);
      && v.Some?
      && |Split(v.value, '.')| == 3
      && JsNumber(Split(v.value, '.')[0]).Some?
      && JsNumber(Split(v.value, '.')[0]).value >= Seconds(nowMs)
      && Split(v.value, '.')[2] == B64uOf(mac(password, Split(v.value, '.')[0] + "." + Split(v.value, '.')[1]))
  {
    NoCookieNoMatch();
  }

  /** A value that does not split into exactly three fields, or an absent cookie, is refused whatever the password. */
  lemma MalformedRejected(cookieHeader: Option<string>, password: string, nowMs: int, mac: Mac)
    requires AdmCookie(if cookieHeader.Some? then cookieHeader.value else "").Some? ==>
             |Split(AdmCookie(if cookieHeader.Some? then cookieHeader.value else "").value, '.')| != 3
    ensures !Verdict(cookieHeader, password, nowMs, mac)
  {
  }

  /** An expiry field that is not a finite number, or lies in the past, is refused. */
  lemma ExpiredRejected(v: string, password: string, nowMs: int, mac: Mac)
    requires AdmCookie(v).Some? && |Split(AdmCookie(v).value, '.')| == 3
    requires var e := JsNumber(Split(AdmCookie(v).value, '.')[0]); e.None? || e.value < Seconds(nowMs)
    ensures !Verdict(Some(v), password, nowMs, mac)
  {
  }
}
