/**
 * The small list and string helpers of the worker: `splitList` (admin
 * text areas), `dedupe`, `shorten` and `escapeHtml`.
 */
module Lists {
  import opened Text

  /** The separators of an admin list: newline, comma, semicolon. */
  predicate IsListSep(c: char)
  {
    c == '\n' || c == ',' || c == ';'
  }

  predicate NoListSep(s: string)
  {
    forall i :: 0 <= i < |s| ==> !IsListSep(s[i])
  }

  /** Drops a leading run of separators. */
  function SkipSeps(s: string): (r: string)
    ensures |r| <= |s|
    ensures r == [] || !IsListSep(r[0])
  {
    if |s| > 0 && IsListSep(s[0]) then SkipSeps(s[1..]) else s
  }

  /** `s.split(/[\n,;]+/)`: a run of separators cuts once; empty pieces appear only at the ends. */
  function SplitRuns(s: string): (r: seq<string>)
    ensures |r| >= 1
    ensures forall k :: 0 <= k < |r| ==> NoListSep(r[k])
    decreases |s|
  {
    if |s| == 0 then [""]
    else if IsListSep(s[0]) then [""] + SplitRuns(SkipSeps(s))
    else
      var rest := SplitRuns(s[1..]);
      [[s[0]] + rest[0]] + rest[1..]
  }

  /** `.map(x => x.trim()).filter(Boolean)`. */
  function TrimmedItems(xs: seq<string>): (r: seq<string>)
    ensures forall x :: x in r ==> |x| > 0 && IsTrimmed(x)
  {
    if |xs| == 0 then []
    else
      var t := Trim(xs[0]);
      TrimIsTrimmed(xs[0]);
      if |t| == 0 then TrimmedItems(xs[1..]) else [t] + TrimmedItems(xs[1..])
  }

  /** `splitList`: the non-blank, trimmed items of a separated list. */
  function SplitList(s: string): seq<string>
  {
    TrimmedItems(SplitRuns(s))
  }

  /** Every item is non-empty, trimmed and free of separators. */
  lemma SplitListItems(s: string)
    ensures forall k :: 0 <= k < |SplitList(s)| ==>
      |SplitList(s)[k]| > 0 && IsTrimmed(SplitList(s)[k]) && NoListSep(SplitList(s)[k])
  {
    var pieces := SplitRuns(s);
    assert forall x :: x in pieces ==> NoListSep(x);
    TrimmedItemsNoSep(pieces);
    var r := SplitList(s);
    forall k | 0 <= k < |r|
      ensures |r[k]| > 0 && IsTrimmed(r[k]) && NoListSep(r[k])
    {
      assert r[k] in r;
    }
  }

  lemma {:induction false} TrimmedItemsNoSep(xs: seq<string>)
    requires forall x :: x in xs ==> NoListSep(x)
    ensures forall x :: x in TrimmedItems(xs) ==> NoListSep(x)
  {
    if |xs| > 0 {
      assert forall x :: x in xs[1..] ==> x in xs;
      TrimmedItemsNoSep(xs[1..]);
      TrimKeepsNoSep(xs[0]);
    }
  }

  lemma TrimKeepsNoSep(s: string)
    requires NoListSep(s)
    ensures NoListSep(Trim(s))
  {
    var a := TrimStart(s);
    forall i | 0 <= i < |a|
      ensures !IsListSep(a[i])
    {
      assert a[i] == s[i + |s| - |a|];
    }
    var b := TrimEnd(a);
    forall i | 0 <= i < |b|
      ensures !IsListSep(b[i])
    {
      assert b[i] == a[i];
    }
  }

  /** Items joined by newlines. */
  function JoinLines(xs: seq<string>): string
  {
    if |xs| == 0 then "" else if |xs| == 1 then xs[0] else xs[0] + "\n" + JoinLines(xs[1..])
  }

  lemma {:induction false} SplitRunsPrefix(a: string, b: string)
    requires NoListSep(a) && (b == [] || !IsListSep(b[0]))
    ensures SplitRuns(a + "\n" + b) == [a] + SplitRuns(b)
    decreases |a|
  {
    if |a| == 0 {
      assert a + "\n" + b == "\n" + b;
      assert SkipSeps("\n" + b) == b by {
        assert ("\n" + b)[1..] == b;
      }
    } else {
      SplitRunsPrefix(a[1..], b);
      assert (a + "\n" + b)[1..] == a[1..] + "\n" + b;
      assert a == [a[0]] + a[1..];
    }
  }

  lemma {:induction false} SplitRunsPlain(a: string)
    requires NoListSep(a)
    ensures SplitRuns(a) == [a]
  {
    if |a| > 0 {
      SplitRunsPlain(a[1..]);
      assert a == [a[0]] + a[1..];
    }
  }

  /** A list written one item per line reads back as the same items. */
  lemma {:induction false} SplitListOfLines(xs: seq<string>)
    requires forall k :: 0 <= k < |xs| ==> |xs[k]| > 0 && IsTrimmed(xs[k]) && NoListSep(xs[k])
    ensures SplitList(JoinLines(xs)) == xs
  {
    if |xs| == 0 {
      assert Trim("") == "";
    } else if |xs| == 1 {
      SplitRunsPlain(xs[0]);
      TrimOfTrimmed(xs[0]);
      assert TrimmedItems([xs[0]]) == [xs[0]] + TrimmedItems([]);
    } else {
      SplitListOfLines(xs[1..]);
      var tail := JoinLines(xs[1..]);
      assert tail == [] || !IsListSep(tail[0]) by {
        JoinLinesStart(xs[1..]);
      }
      SplitRunsPrefix(xs[0], tail);
      TrimOfTrimmed(xs[0]);
      assert ([xs[0]] + SplitRuns(tail))[1..] == SplitRuns(tail);
    }
  }

  lemma JoinLinesStart(xs: seq<string>)
    requires |xs| >= 1 && |xs[0]| > 0 && NoListSep(xs[0])
    ensures JoinLines(xs)[0] == xs[0][0]
  {
  }

  // ---------------------------------------------------------------------
  // dedupe
  // ---------------------------------------------------------------------

  /** What `dedupe` keeps of `xs` when `seen` already holds the values met so far. */
  function DedupeFrom(xs: seq<string>, seen: set<string>): seq<string>
  {
    if |xs| == 0 then []
    else if xs[0] == "" || xs[0] in seen then DedupeFrom(xs[1..], seen)
    else [xs[0]] + DedupeFrom(xs[1..], seen + {xs[0]})
  }

  /** `dedupe`: the loop with its `seen` set and output array. */
  method Dedupe(xs: seq<string>) returns (out: seq<string>)
    ensures out == DedupeFrom(xs, {})
  {
    out := [];
    var seen: set<string> := {};
    for i := 0 to |xs|
      invariant out + DedupeFrom(xs[i..], seen) == DedupeFrom(xs, {})
    {
      assert xs[i..][1..] == xs[i + 1..];
      if xs[i] == "" {
        continue;
      }
      if xs[i] in seen {
        continue;
      }
      seen := seen + {xs[i]};
      out := out + [xs[i]];
    }
  }

  predicate Distinct(xs: seq<string>)
  {
    forall i, j :: 0 <= i < j < |xs| ==> xs[i] != xs[j]
  }

  /**
   * The result holds each non-empty value of the input exactly once, in the
   * order of first occurrence, and nothing the `seen` set already held.
   */
  lemma {:induction false} DedupeFromSpec(xs: seq<string>, seen: set<string>)
    ensures Distinct(DedupeFrom(xs, seen))
    ensures forall x :: x in DedupeFrom(xs, seen) <==> x in xs && x != "" && x !in seen
  {
    if |xs| > 0 {
      if xs[0] == "" || xs[0] in seen {
        DedupeFromSpec(xs[1..], seen);
        assert forall x :: x in xs <==> x == xs[0] || x in xs[1..];
      } else {
        DedupeFromSpec(xs[1..], seen + {xs[0]});
        assert forall x :: x in xs <==> x == xs[0] || x in xs[1..];
      }
    }
  }

  /** The position of the first occurrence of `x` in `xs`; `|xs|` when there is none. */
  function FirstIndex(xs: seq<string>, x: string): (k: nat)
    ensures k <= |xs|
    ensures x in xs ==> k < |xs| && xs[k] == x && x !in xs[..k]
  {
    if |xs| == 0 || xs[0] == x then 0 else FirstIndex(xs[1..], x) + 1
  }

  /** The values of `r` stand in the order of their first occurrences in `xs`. */
  predicate InFirstOrder(r: seq<string>, xs: seq<string>)
  {
    forall i, j :: 0 <= i < j < |r| ==> FirstIndex(xs, r[i]) < FirstIndex(xs, r[j])
  }

  /** The head of the input never reappears in what is kept from the tail. */
  lemma HeadNotKept(xs: seq<string>, seen: set<string>)
    requires |xs| > 0
    ensures xs[0] !in DedupeFrom(xs[1..], if xs[0] == "" || xs[0] in seen then seen else seen + {xs[0]})
  {
    DedupeFromSpec(xs[1..], if xs[0] == "" || xs[0] in seen then seen else seen + {xs[0]});
  }

  lemma {:induction false} DedupeFromOrder(xs: seq<string>, seen: set<string>)
    ensures InFirstOrder(DedupeFrom(xs, seen), xs)
  {
    if |xs| > 0 {
      var seen' := if xs[0] == "" || xs[0] in seen then seen else seen + {xs[0]};
      var rest := DedupeFrom(xs[1..], seen');
      DedupeFromOrder(xs[1..], seen');
      HeadNotKept(xs, seen);
      var r := DedupeFrom(xs, seen);
      forall i, j | 0 <= i < j < |r|
        ensures FirstIndex(xs, r[i]) < FirstIndex(xs, r[j])
      {
        if xs[0] == "" || xs[0] in seen {
          assert r[i] == rest[i] != xs[0] && r[j] == rest[j] != xs[0];
        } else {
          assert r[j] == rest[j - 1] != xs[0];
          if i > 0 {
            assert r[i] == rest[i - 1] != xs[0];
          }
        }
      }
    }
  }

  /** `dedupe` keeps each non-empty value once, in the order of its first occurrence. */
  lemma DedupeSpec(xs: seq<string>)
    ensures Distinct(DedupeFrom(xs, {}))
    ensures forall x :: x in DedupeFrom(xs, {}) <==> x in xs && x != ""
    ensures InFirstOrder(DedupeFrom(xs, {}), xs)
  {
    DedupeFromSpec(xs, {});
    DedupeFromOrder(xs, {});
  }

  // ---------------------------------------------------------------------
  // shorten
  // ---------------------------------------------------------------------

  /** `s.slice(0, end)`: a negative end counts from the back and is clamped at 0. */
  function SliceTo(s: string, end: int): (r: string)
    ensures StartsWith(s, r)
  {
    var e := if end < 0 then (if |s| + end < 0 then 0 else |s| + end) else (if end > |s| then |s| else end);
    s[..e]
  }

  /** `shorten`: strings longer than `n` keep `n - 1` characters and gain an ellipsis. */
  function Shorten(s: string, n: int): (r: string)
    ensures n >= 1 ==> |r| <= n
    ensures |s| <= n ==> r == s
  {
    if s == "" then "" else if |s| > n then SliceTo(s, n - 1) + "…" else s
  }

  /** For a positive limit the result never exceeds it, and only a longer string is cut. */
  lemma ShortenBound(s: string, n: int)
    requires n >= 1
    ensures |Shorten(s, n)| <= n
    ensures |s| <= n ==> Shorten(s, n) == s
    ensures |s| > n ==> Shorten(s, n) == s[..n - 1] + "…"
  {
  }

  // ---------------------------------------------------------------------
  // escapeHtml
  // ---------------------------------------------------------------------

  /** The entity `escapeHtml` writes for one character. */
  function EscapeChar(c: char): string
  {
    if c == '&' then "&amp;"
    else if c == '<' then "&lt;"
    else if c == '>' then "&gt;"
    else if c == '"' then "&quot;"
    else if c == '\'' then "&#39;"
    else [c]
  }

  function EscapeHtml(s: string): (r: string)
    ensures |r| >= |s|
  {
    if |s| == 0 then "" else EscapeChar(s[0]) + EscapeHtml(s[1..])
  }

  /** Decoding of the five entities; the inverse, stated to show that escaping loses nothing. */
  function UnescapeHtml(s: string): string
    decreases |s|
  {
    if |s| == 0 then ""
    else if s[0] != '&' then [s[0]] + UnescapeHtml(s[1..])
    else if StartsWith(s, "&amp;") then "&" + UnescapeHtml(s[5..])
    else if StartsWith(s, "&lt;") then "<" + UnescapeHtml(s[4..])
    else if StartsWith(s, "&gt;") then ">" + UnescapeHtml(s[4..])
    else if StartsWith(s, "&quot;") then "\"" + UnescapeHtml(s[6..])
    else if StartsWith(s, "&#39;") then "'" + UnescapeHtml(s[5..])
    else [s[0]] + UnescapeHtml(s[1..])
  }

  lemma UnescapeAmp(t: string)
    ensures UnescapeHtml("&amp;" + t) == "&" + UnescapeHtml(t)
  {
    var e := "&amp;" + t;
    assert e[..5] == "&amp;" && e[5..] == t;
  }

  lemma UnescapeLt(t: string)
    ensures UnescapeHtml("&lt;" + t) == "<" + UnescapeHtml(t)
  {
    var e := "&lt;" + t;
    assert e[..4] == "&lt;" && e[4..] == t;
    DiffersAt(e, "&amp;", 1);
  }

  lemma UnescapeGt(t: string)
    ensures UnescapeHtml("&gt;" + t) == ">" + UnescapeHtml(t)
  {
    var e := "&gt;" + t;
    assert e[..4] == "&gt;" && e[4..] == t;
    DiffersAt(e, "&amp;", 1);
    DiffersAt(e, "&lt;", 1);
  }

  lemma UnescapeQuot(t: string)
    ensures UnescapeHtml("&quot;" + t) == "\"" + UnescapeHtml(t)
  {
    var e := "&quot;" + t;
    assert e[..6] == "&quot;" && e[6..] == t;
    DiffersAt(e, "&amp;", 1);
    DiffersAt(e, "&lt;", 1);
    DiffersAt(e, "&gt;", 1);
  }

  lemma UnescapeApos(t: string)
    ensures UnescapeHtml("&#39;" + t) == "'" + UnescapeHtml(t)
  {
    var e := "&#39;" + t;
    assert e[..5] == "&#39;" && e[5..] == t;
    DiffersAt(e, "&amp;", 1);
    DiffersAt(e, "&lt;", 1);
    DiffersAt(e, "&gt;", 1);
    DiffersAt(e, "&quot;", 1);
  }

  lemma UnescapeStep(c: char, t: string)
    ensures UnescapeHtml(EscapeChar(c) + t) == [c] + UnescapeHtml(t)
  {
    if c == '&' {
      UnescapeAmp(t);
    } else if c == '<' {
      UnescapeLt(t);
    } else if c == '>' {
      UnescapeGt(t);
    } else if c == '"' {
      UnescapeQuot(t);
    } else if c == '\'' {
      UnescapeApos(t);
    } else {
      var e := EscapeChar(c) + t;
      assert e[0] == c && e[1..] == t;
    }
  }

  lemma DiffersAt(s: string, p: string, k: nat)
    requires k < |p| && k < |s| && s[k] != p[k]
    ensures !StartsWith(s, p)
  {
    assert |p| <= |s| ==> s[..|p|][k] == s[k];
  }

  /** Unescaping the escaped text gives the original text back. */
  lemma {:induction false} EscapeHtmlRoundTrip(s: string)
    ensures UnescapeHtml(EscapeHtml(s)) == s
  {
    if |s| > 0 {
      EscapeHtmlRoundTrip(s[1..]);
      UnescapeStep(s[0], EscapeHtml(s[1..]));
      assert s == [s[0]] + s[1..];
    }
  }

  /** Escaped text holds none of the characters that end an attribute or open a tag. */
  lemma {:induction false} EscapeHtmlSafe(s: string)
    ensures forall i :: 0 <= i < |EscapeHtml(s)| ==> EscapeHtml(s)[i] !in {'<', '>', '"', '\''}
  {
    if |s| > 0 {
      EscapeHtmlSafe(s[1..]);
      var e := EscapeChar(s[0]);
      var t := EscapeHtml(s[1..]);
      assert forall i :: 0 <= i < |e| ==> e[i] !in {'<', '>', '"', '\''};
      assert forall i :: 0 <= i < |e + t| ==> (e + t)[i] == (if i < |e| then e[i] else t[i - |e|]);
    }
  }
}
