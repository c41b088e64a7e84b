/**
 * The pure string helpers of the scraper: `clean_text`, which normalises
 * whitespace, and `google_news_rss_url`, which builds a search-feed URL.
 */
module Text {

  /** The characters Python's `\s` (on `str` patterns) and `str.strip()` treat
      as whitespace: exactly those for which `str.isspace()` holds. */
  predicate IsSpace(c: char) {
    c == ' ' || c == '\t' || c == '\n' || c == '\r' || c == '\U{000B}' || c == '\U{000C}'
    || ('\U{001C}' <= c <= '\U{001F}') || c == '\U{0085}' || c == '\U{00A0}'
    || c == '\U{1680}' || ('\U{2000}' <= c <= '\U{200A}') || c == '\U{2028}'
    || c == '\U{2029}' || c == '\U{202F}' || c == '\U{205F}' || c == '\U{3000}'
  }

  /** Every whitespace character is a plain space, and no two whitespace
      characters are adjacent. */
  predicate SingleSpaced(t: string) {
    (forall i :: 0 <= i < |t| && IsSpace(t[i]) ==> t[i] == ' ')
    && (forall i :: 0 <= i < |t| - 1 ==> !SpacePair(t, i))
  }

  /** Positions `i` and `i + 1` both hold whitespace. */
  predicate SpacePair(t: string, i: nat)
    requires i < |t| - 1
  {
    IsSpace(t[i]) && IsSpace(t[i + 1])
  }

  /** No leading and no trailing whitespace. */
  predicate Trimmed(t: string) {
    t == [] || (!IsSpace(t[0]) && !IsSpace(t[|t| - 1]))
  }

  /** The shape of every string `clean_text` returns. */
  predicate Clean(t: string) {
    SingleSpaced(t) && Trimmed(t)
  }

  /** The non-whitespace characters of `s`, in order. */
  function NonSpace(s: string): string {
    if s == [] then []
    else if IsSpace(s[0]) then NonSpace(s[1..])
    else [s[0]] + NonSpace(s[1..])
  }

  /** `s.lstrip()`: drop the leading run of whitespace. */
  function StripStart(s: string): (r: string)
    ensures |r| <= |s|
  {
    if s != [] && IsSpace(s[0]) then StripStart(s[1..]) else s
  }

  /** `StripStart(s)` is a suffix of `s` that is empty or starts with a
      non-space, and everything it drops is whitespace. */
  lemma {:induction false} StripStartSpec(s: string)
    ensures var r := StripStart(s); r == s[|s| - |r|..]
    ensures var r := StripStart(s); r == [] || !IsSpace(r[0])
    ensures var r := StripStart(s); forall i :: 0 <= i < |s| - |r| ==> IsSpace(s[i])
    decreases |s|
  {
    if s != [] && IsSpace(s[0]) {
      StripStartSpec(s[1..]);
      var r := StripStart(s[1..]);
      assert s[1..][|s| - 1 - |r|..] == s[|s| - |r|..];
      forall i | 0 <= i < |s| - |r| ensures IsSpace(s[i]) {
        if i > 0 { assert s[i] == s[1..][i - 1]; }
      }
    }
  }

  /** `s.rstrip()`: drop the trailing run of whitespace. */
  function StripEnd(s: string): (r: string)
  {
    if s != [] && IsSpace(s[|s| - 1]) then StripEnd(s[..|s| - 1]) else s
  }

  /** `StripEnd(s)` is a prefix of `s` that is empty or ends with a
      non-space, and everything it drops is whitespace. */
  lemma {:induction false} StripEndSpec(s: string)
    ensures var r := StripEnd(s); |r| <= |s| && r == s[..|r|]
    ensures var r := StripEnd(s); r == [] || !IsSpace(r[|r| - 1])
    ensures var r := StripEnd(s); forall i :: |r| <= i < |s| ==> IsSpace(s[i])
    decreases |s|
  {
    if s != [] && IsSpace(s[|s| - 1]) {
      StripEndSpec(s[..|s| - 1]);
      var r := StripEnd(s[..|s| - 1]);
      assert s[..|s| - 1][..|r|] == s[..|r|];
      forall i | |r| <= i < |s| ensures IsSpace(s[i]) {
        if i < |s| - 1 { assert s[i] == s[..|s| - 1][i]; }
      }
    }
  }

  /** `re.sub(r"\s+", " ", s)`: every maximal run of whitespace becomes one
      space. */
  function Collapse(s: string): (r: string)
    decreases |s|
  {
    if s == [] then []
    else if IsSpace(s[0]) then [' '] + Collapse(StripStart(s[1..]))
    else [s[0]] + Collapse(s[1..])
  }

  /** The result of `Collapse` never holds two whitespace characters in a
      row, and it is empty, or starts with a non-space, exactly when `s`
      does. */
  lemma {:induction false} CollapseSpec(s: string)
    ensures (Collapse(s) == []) == (s == [])
    ensures s != [] && !IsSpace(s[0]) ==> Collapse(s)[0] == s[0]
    ensures SingleSpaced(Collapse(s))
    decreases |s|
  {
    if s != [] {
      if IsSpace(s[0]) {
        var t := StripStart(s[1..]);
        StripStartSpec(s[1..]);
        CollapseSpec(t);
        SingleSpacedCons(' ', Collapse(t));
      } else {
        CollapseSpec(s[1..]);
        SingleSpacedCons(s[0], Collapse(s[1..]));
      }
    }
  }

  /** Putting a character in front of a single-spaced string keeps it
      single-spaced, provided a leading whitespace character is a plain
      space not followed by another whitespace character. */
  lemma SingleSpacedCons(c: char, t: string)
    requires SingleSpaced(t)
    requires IsSpace(c) ==> c == ' ' && (t == [] || !IsSpace(t[0]))
    ensures SingleSpaced([c] + t)
  {
    var u := [c] + t;
    forall i | 0 <= i < |u| && IsSpace(u[i])
      ensures u[i] == ' '
    {
      if i > 0 { assert u[i] == t[i - 1]; }
    }
    forall i | 0 <= i < |u| - 1
      ensures !SpacePair(u, i)
    {
      if i > 0 {
        assert u[i] == t[i - 1] && u[i + 1] == t[i];
        assert !SpacePair(t, i - 1);
      }
    }
  }

  /** `clean_text(s)`: `re.sub(r"\s+", " ", s).strip()`. */
  function CleanText(s: string): string {
    StripEnd(StripStart(Collapse(s)))
  }

  /** Every result of `clean_text` is clean: single-spaced and trimmed. */
  lemma CleanTextIsClean(s: string)
    ensures Clean(CleanText(s))
  {
    var c := Collapse(s);
    CollapseSpec(s);
    var t := StripStart(c);
    StripKeepsSingleSpaced(c);
    StripStartSpec(c);
    var r := StripEnd(t);
    StripEndSpec(t);
    if r != [] {
      assert r[0] == t[0];
    }
  }

  /** Stripping either end keeps a string single-spaced. */
  lemma StripKeepsSingleSpaced(c: string)
    requires SingleSpaced(c)
    ensures SingleSpaced(StripStart(c)) && SingleSpaced(StripEnd(StripStart(c)))
  {
    var t := StripStart(c);
    StripStartSpec(c);
    SingleSpacedSlice(c, |c| - |t|, |c|);
    assert c[|c| - |t|..|c|] == t;
    var r := StripEnd(t);
    StripEndSpec(t);
    SingleSpacedSlice(t, 0, |r|);
    assert t[0..|r|] == r;
  }

  /** A slice of a single-spaced string is single-spaced. */
  lemma SingleSpacedSlice(t: string, lo: nat, hi: nat)
    requires lo <= hi <= |t|
    requires SingleSpaced(t)
    ensures SingleSpaced(t[lo..hi])
  {
    var u := t[lo..hi];
    forall i | 0 <= i < |u| - 1
      ensures !SpacePair(u, i)
    {
      assert u[i] == t[lo + i] && u[i + 1] == t[lo + i + 1];
      assert !SpacePair(t, lo + i);
    }
  }

  /** Collapsing changes nothing in a string that is already single-spaced. */
  lemma {:induction false} CollapseFixesSingleSpaced(t: string)
    requires SingleSpaced(t)
    ensures Collapse(t) == t
    decreases |t|
  {
    if t != [] {
      SingleSpacedSlice(t, 1, |t|);
      assert t[1..|t|] == t[1..];
      CollapseFixesSingleSpaced(t[1..]);
      if IsSpace(t[0]) {
        if |t| > 1 { assert !SpacePair(t, 0); }
        assert t[1..] == [] || !IsSpace(t[1..][0]);
        assert StripStart(t[1..]) == t[1..];
        assert [t[0]] + t[1..] == t;
      } else {
        assert [t[0]] + t[1..] == t;
      }
    }
  }

  /** A clean string is a fixed point of `CleanText`. */
  lemma CleanTextFixesClean(t: string)
    requires Clean(t)
    ensures CleanText(t) == t
  {
    CollapseFixesSingleSpaced(t);
    assert StripStart(t) == t;
    assert StripEnd(t) == t;
  }

  /** `clean_text` is idempotent. */
  lemma CleanTextIdempotent(s: string)
    ensures CleanText(CleanText(s)) == CleanText(s)
  {
    CleanTextIsClean(s);
    CleanTextFixesClean(CleanText(s));
  }

  lemma {:induction false} NonSpaceConcat(a: string, b: string)
    ensures NonSpace(a + b) == NonSpace(a) + NonSpace(b)
    decreases |a|
  {
    if a == [] {
      assert a + b == b;
    } else {
      assert (a + b)[0] == a[0] && (a + b)[1..] == a[1..] + b;
      NonSpaceConcat(a[1..], b);
    }
  }

  /** `s` is made only of whitespace (the empty string included). */
  predicate Blank(s: string) {
    forall i :: 0 <= i < |s| ==> IsSpace(s[i])
  }

  /** A string made only of whitespace has no non-space characters. */
  lemma {:induction false} NonSpaceOfBlank(s: string)
    requires Blank(s)
    ensures NonSpace(s) == []
    decreases |s|
  {
    if s != [] {
      NonSpaceOfBlank(s[1..]);
    }
  }

  lemma NonSpaceStripStart(s: string)
    ensures NonSpace(StripStart(s)) == NonSpace(s)
  {
    var r := StripStart(s);
    StripStartSpec(s);
    var k := |s| - |r|;
    assert s == s[..k] + r;
    NonSpaceConcat(s[..k], r);
    NonSpaceOfBlank(s[..k]);
  }

  lemma NonSpaceStripEnd(s: string)
    ensures NonSpace(StripEnd(s)) == NonSpace(s)
  {
    var r := StripEnd(s);
    StripEndSpec(s);
    assert s == r + s[|r|..];
    NonSpaceConcat(r, s[|r|..]);
    NonSpaceOfBlank(s[|r|..]);
  }

  lemma {:induction false} NonSpaceCollapse(s: string)
    ensures NonSpace(Collapse(s)) == NonSpace(s)
    decreases |s|
  {
    if s != [] {
      if IsSpace(s[0]) {
        NonSpaceCollapse(StripStart(s[1..]));
        NonSpaceStripStart(s[1..]);
        NonSpaceConcat(" ", Collapse(StripStart(s[1..])));
      } else {
        NonSpaceCollapse(s[1..]);
        NonSpaceConcat([s[0]], Collapse(s[1..]));
      }
    }
  }

  /** Cleaning keeps every non-whitespace character, in order, and adds none. */
  lemma CleanTextKeepsContent(s: string)
    ensures NonSpace(CleanText(s)) == NonSpace(s)
  {
    var c := Collapse(s);
    NonSpaceCollapse(s);
    NonSpaceStripStart(c);
    NonSpaceStripEnd(StripStart(c));
  }

  /** `NonSpace(s)` is empty exactly when `s` is entirely whitespace. */
  lemma {:induction false} NonSpaceEmptyIff(s: string)
    ensures NonSpace(s) == [] <==> Blank(s)
    decreases |s|
  {
    if s != [] {
      NonSpaceEmptyIff(s[1..]);
      assert Blank(s) <==> IsSpace(s[0]) && Blank(s[1..]);
    }
  }

  /** `clean_text(s)` is empty exactly when `s` is entirely whitespace. */
  lemma CleanTextEmptyIff(s: string)
    ensures CleanText(s) == [] <==> Blank(s)
  {
    var r := CleanText(s);
    CleanTextIsClean(s);
    CleanTextKeepsContent(s);
    NonSpaceEmptyIff(s);
    NonSpaceEmptyIff(r);
    assert Blank(r) <==> r == [] by {
      if r != [] {
        assert !IsSpace(r[0]);
      }
    }
  }

  /** Leading whitespace that ends inside `x` is stripped inside `x`. */
  lemma {:induction false} StripStartConcat(x: string, y: string)
    requires !Blank(x)
    ensures StripStart(x + y) == StripStart(x) + y
    decreases |x|
  {
    assert x != [];
    if IsSpace(x[0]) {
      assert !Blank(x[1..]) by {
        var i :| 0 <= i < |x| && !IsSpace(x[i]);
        assert x[1..][i - 1] == x[i];
      }
      assert (x + y)[1..] == x[1..] + y;
      StripStartConcat(x[1..], y);
    }
  }

  /** Trailing whitespace that starts inside `y` is stripped inside `y`. */
  lemma {:induction false} StripEndConcat(x: string, y: string)
    requires !Blank(y)
    ensures StripEnd(x + y) == x + StripEnd(y)
    decreases |y|
  {
    assert y != [];
    var n := |y|;
    if IsSpace(y[n - 1]) {
      assert !Blank(y[..n - 1]) by {
        var i :| 0 <= i < n && !IsSpace(y[i]);
        assert y[..n - 1][i] == y[i];
      }
      assert (x + y)[..|x + y| - 1] == x + y[..n - 1];
      StripEndConcat(x, y[..n - 1]);
    }
  }

  /** Stripping a whitespace prefix in front of a non-space (or nothing). */
  lemma {:induction false} StripStartBlank(ws: string, y: string)
    requires Blank(ws) && (y == [] || !IsSpace(y[0]))
    ensures StripStart(ws + y) == y
    decreases |ws|
  {
    if ws == [] {
      assert ws + y == y;
    } else {
      assert (ws + y)[1..] == ws[1..] + y;
      StripStartBlank(ws[1..], y);
    }
  }

  /** Stripping a whitespace suffix after a non-space (or nothing). */
  lemma {:induction false} StripEndBlank(x: string, ws: string)
    requires Blank(ws) && (x == [] || !IsSpace(x[|x| - 1]))
    ensures StripEnd(x + ws) == x
    decreases |ws|
  {
    if ws == [] {
      assert x + ws == x;
    } else {
      var n := |ws|;
      assert (x + ws)[..|x + ws| - 1] == x + ws[..n - 1];
      StripEndBlank(x, ws[..n - 1]);
    }
  }

  /** Stripping a string that ends in a non-space keeps that last character
      and is not disturbed by what follows. */
  lemma StripStartEndsNonSpace(u: string, y: string)
    requires u != [] && !IsSpace(u[|u| - 1])
    ensures StripStart(u + y) == StripStart(u) + y
    ensures var t := StripStart(u); t != [] && t[|t| - 1] == u[|u| - 1]
  {
    assert !Blank(u);
    StripStartConcat(u, y);
    StripStartSpec(u);
  }

  /** A string that does not end in whitespace collapses on its own: no run of
      whitespace spans the boundary. */
  lemma {:induction false} CollapseConcat(x: string, y: string)
    requires x == [] || !IsSpace(x[|x| - 1])
    ensures Collapse(x + y) == Collapse(x) + Collapse(y)
    decreases |x|
  {
    if x == [] {
      assert x + y == y;
    } else {
      assert (x + y)[0] == x[0] && (x + y)[1..] == x[1..] + y;
      if IsSpace(x[0]) {
        var u := x[1..];
        assert u != [] && u[|u| - 1] == x[|x| - 1];
        StripStartEndsNonSpace(u, y);
        CollapseConcat(StripStart(u), y);
      } else {
        CollapseConcat(x[1..], y);
      }
    }
  }

  /** A run of whitespace in front of a non-space (or nothing) becomes one
      space. */
  lemma CollapseBlankPrefix(ws: string, y: string)
    requires ws != [] && Blank(ws) && (y == [] || !IsSpace(y[0]))
    ensures Collapse(ws + y) == [' '] + Collapse(y)
  {
    assert (ws + y)[0] == ws[0] && (ws + y)[1..] == ws[1..] + y;
    StripStartBlank(ws[1..], y);
  }

  /** Collapsing keeps a final non-space character last. */
  lemma {:induction false} CollapseKeepsLast(s: string)
    requires s != [] && !IsSpace(s[|s| - 1])
    ensures Collapse(s) != [] && Collapse(s)[|Collapse(s)| - 1] == s[|s| - 1]
    decreases |s|
  {
    if IsSpace(s[0]) {
      var u := s[1..];
      assert u != [] && u[|u| - 1] == s[|s| - 1];
      var t := StripStart(u);
      StripStartSpec(u);
      assert t != [];
      assert t[|t| - 1] == u[|u| - 1];
      CollapseKeepsLast(t);
    } else if |s| > 1 {
      CollapseKeepsLast(s[1..]);
    }
  }

  /** A non-blank string is a part ending in a non-space followed by its
      trailing whitespace. */
  lemma SplitTrailing(a: string) returns (a1: string, a2: string)
    requires !Blank(a)
    ensures a == a1 + a2 && a1 != [] && !IsSpace(a1[|a1| - 1]) && Blank(a2)
  {
    a1 := StripEnd(a);
    StripEndSpec(a);
    a2 := a[|a1|..];
    assert a == a1 + a2;
    assert a1 != [];
    assert Blank(a2) by {
      forall i | 0 <= i < |a2| ensures IsSpace(a2[i]) {
        assert a2[i] == a[|a1| + i];
      }
    }
  }

  /** A non-blank string is its leading whitespace followed by a part
      starting with a non-space. */
  lemma SplitLeading(b: string) returns (b1: string, b2: string)
    requires !Blank(b)
    ensures b == b1 + b2 && b2 != [] && !IsSpace(b2[0]) && Blank(b1)
  {
    b2 := StripStart(b);
    StripStartSpec(b);
    b1 := b[..|b| - |b2|];
    assert b == b1 + b2;
    assert b2 != [];
  }

  /** Trailing whitespace after a non-space is cleaned away. */
  lemma CleanTextTrailing(a1: string, a2: string)
    requires a1 != [] && !IsSpace(a1[|a1| - 1]) && Blank(a2)
    ensures CleanText(a1 + a2) == StripStart(Collapse(a1))
  {
    var ca := Collapse(a1);
    CollapseKeepsLast(a1);
    var sa := StripStart(ca);
    StripStartSpec(ca);
    assert sa != [] && sa[|sa| - 1] == ca[|ca| - 1];
    CollapseConcat(a1, a2);
    var tail := Collapse(a2);
    if a2 == [] {
      assert tail == [];
    } else {
      CollapseBlankPrefix(a2, []);
      assert a2 + [] == a2;
      assert tail == [' '];
    }
    assert !Blank(ca);
    StripStartConcat(ca, tail);
    StripEndBlank(sa, tail);
  }

  /** Leading whitespace before a non-space is cleaned away. */
  lemma CleanTextLeading(b1: string, b2: string)
    requires b2 != [] && !IsSpace(b2[0]) && Blank(b1)
    ensures CleanText(b1 + b2) == StripEnd(Collapse(b2))
  {
    var cb := Collapse(b2);
    CollapseSpec(b2);
    if b1 == [] {
      assert b1 + b2 == b2;
      assert StripStart(cb) == cb;
    } else {
      CollapseBlankPrefix(b1, b2);
      StripStartBlank([' '], cb);
    }
  }

  /** A run of whitespace between a non-space and a non-space collapses to
      one space, and the parts on either side collapse on their own. */
  lemma CollapseAround(a1: string, mid: string, b2: string)
    requires a1 != [] && !IsSpace(a1[|a1| - 1])
    requires mid != [] && Blank(mid)
    requires b2 != [] && !IsSpace(b2[0])
    ensures Collapse(a1 + mid + b2) == Collapse(a1) + ([' '] + Collapse(b2))
  {
    assert a1 + mid + b2 == a1 + (mid + b2);
    CollapseConcat(a1, mid + b2);
    CollapseBlankPrefix(mid, b2);
  }

  /** Stripping around an inner space between two non-blank parts strips only
      the outer ends. */
  lemma StripAround(ca: string, cb: string)
    requires !Blank(ca) && !Blank(cb)
    ensures StripEnd(StripStart(ca + ([' '] + cb))) == StripStart(ca) + " " + StripEnd(cb)
  {
    var sa := StripStart(ca);
    StripStartConcat(ca, [' '] + cb);
    assert sa + ([' '] + cb) == (sa + [' ']) + cb;
    StripEndConcat(sa + [' '], cb);
  }

  /** The core of `CleanTextJoin`, on the parts around the whitespace. */
  lemma CleanTextJoinParts(a1: string, mid: string, b2: string)
    requires a1 != [] && !IsSpace(a1[|a1| - 1])
    requires mid != [] && Blank(mid)
    requires b2 != [] && !IsSpace(b2[0])
    ensures CleanText(a1 + mid + b2) == StripStart(Collapse(a1)) + " " + StripEnd(Collapse(b2))
  {
    CollapseKeepsLast(a1);
    CollapseSpec(b2);
    CollapseAround(a1, mid, b2);
    StripAround(Collapse(a1), Collapse(b2));
  }

  /** Words stay separated: cleaning two non-blank strings joined by any run of
      whitespace gives their cleaned forms joined by exactly one space. */
  lemma CleanTextJoin(a: string, ws: string, b: string)
    requires !Blank(a) && !Blank(b) && ws != [] && Blank(ws)
    ensures CleanText(a + ws + b) == CleanText(a) + " " + CleanText(b)
  {
    var a1, a2 := SplitTrailing(a);
    var b1, b2 := SplitLeading(b);
    var mid := a2 + ws + b1;
    assert Blank(mid) by {
      forall i | 0 <= i < |mid| ensures IsSpace(mid[i]) {
        if i < |a2| {
          assert mid[i] == a2[i];
        } else if i < |a2| + |ws| {
          assert mid[i] == ws[i - |a2|];
        } else {
          assert mid[i] == b1[i - |a2| - |ws|];
        }
      }
    }
    assert a + ws + b == a1 + mid + b2;
    CleanTextJoinParts(a1, mid, b2);
    CleanTextTrailing(a1, a2);
    CleanTextLeading(b1, b2);
  }

  /** The fixed part of every search-feed URL, up to the query. */
  const RSS_PREFIX := "https://news.google.com/rss/search?q="

  /** `s.replace(a, b)` for single characters: every `a` becomes `b`,
      everything else stays. */
  function ReplaceChar(s: string, a: char, b: char): (r: string)
    ensures |r| == |s|
    ensures forall i :: 0 <= i < |s| ==> r[i] == (if s[i] == a then b else s[i])
  {
    if s == [] then [] else [if s[0] == a then b else s[0]] + ReplaceChar(s[1..], a, b)
  }

  /** `google_news_rss_url(q, hl, gl, ceid)`: the fixed search prefix, the
      query with every space turned into `+` (see `ReplaceChar`), then the
      locale parameters. */
  function GoogleNewsRssUrl(q: string, hl: string, gl: string, ceid: string): (r: string)
    ensures RSS_PREFIX <= r
  {
    RSS_PREFIX + ReplaceChar(q, ' ', '+') + "&hl=" + hl + "&gl=" + gl + "&ceid=" + ceid
  }

  /** The call with the source's default locale arguments. */
  function DefaultRssUrl(q: string): string {
    GoogleNewsRssUrl(q, "en-US", "US", "US:en")
  }

  /** The longest prefix of `s` without the character `c`. */
  function TakeUntil(s: string, c: char): (r: string)
    ensures r <= s && c !in r
    ensures |r| < |s| ==> s[|r|] == c
  {
    if s == [] || s[0] == c then [] else [s[0]] + TakeUntil(s[1..], c)
  }

  /** Reads the search query back out of a feed URL: the text between the
      fixed prefix and the next `&`, with `+` turned back into spaces. */
  function QueryOf(url: string): string {
    if RSS_PREFIX <= url then ReplaceChar(TakeUntil(url[|RSS_PREFIX|..], '&'), '+', ' ') else ""
  }

  /** The URL builder loses nothing: for a query holding neither `&` nor `+`
      (every query of the catalog), the query is recovered from the URL. */
  lemma RssUrlRoundTrip(q: string, hl: string, gl: string, ceid: string)
    requires '&' !in q && '+' !in q
    ensures QueryOf(GoogleNewsRssUrl(q, hl, gl, ceid)) == q
  {
    var url := GoogleNewsRssUrl(q, hl, gl, ceid);
    var p := ReplaceChar(q, ' ', '+');
    var tail := "&hl=" + hl + "&gl=" + gl + "&ceid=" + ceid;
    assert url == RSS_PREFIX + (p + tail);
    assert url[|RSS_PREFIX|..] == p + tail;
    assert '&' !in p by {
      forall i | 0 <= i < |p| ensures p[i] != '&' {
        assert q[i] != '&';
      }
    }
    TakeUntilStopsAt(p, tail, '&');
    assert ReplaceChar(p, '+', ' ') == q;
  }

  lemma {:induction false} TakeUntilStopsAt(p: string, tail: string, c: char)
    requires c !in p && tail != [] && tail[0] == c
    ensures TakeUntil(p + tail, c) == p
    decreases |p|
  {
    if p == [] {
      assert p + tail == tail;
    } else {
      assert (p + tail)[0] == p[0] && (p + tail)[1..] == p[1..] + tail;
      TakeUntilStopsAt(p[1..], tail, c);
    }
  }

}
