/**
 * The link-selection rule of `resolve_google_news_to_original`: given the
 * aggregator link and what fetching it produced, pick the publisher URL.
 * The HTTP request and the HTML parser are abstracted away: a failed request
 * (any exception, a non-2xx status, a timeout) is `None`, and a parsed page
 * is reduced to what the rule looks at.
 */
module Resolver {
  import opened Options

  /** A fetched page, as the rule sees it: the `href` of the first
      `<link rel="canonical">` tag (`None` when there is no such tag or it has
      no `href`), and the `href` of every `<a>` tag that has one, in
      document order. */
  datatype Page = Page(canonical: Option<string>, anchors: seq<string>)

  /** `sub in s`, Python's substring test. */
  predicate Contains(s: string, sub: string) {
    exists i :: 0 <= i <= |s| && sub <= s[i..]
  }

  /** The anchor test: absolute (`href.startswith("http")`) and not pointing
      back at the aggregator. */
  predicate IsExternal(href: string) {
    "http" <= href && !Contains(href, "news.google.com")
  }

  /** The index of the first external anchor, or `|anchors|` when there is
      none. */
  function FirstExternal(anchors: seq<string>): (k: nat)
    ensures k <= |anchors|
    ensures k < |anchors| ==> IsExternal(anchors[k])
    ensures forall j :: 0 <= j < k ==> !IsExternal(anchors[j])
  {
    if anchors == [] then 0
    else if IsExternal(anchors[0]) then 0
    else 1 + FirstExternal(anchors[1..])
  }

  /** A canonical link counts only when its `href` is non-empty (Python's
      truth test on the attribute). */
  predicate HasCanonical(p: Page) {
    p.canonical.Some? && p.canonical.value != ""
  }

  /** `resolve_google_news_to_original(url)`, given what fetching `url`
      produced: the canonical link if there is one, else the first external
      anchor, else the input unchanged. */
  function Resolve(url: string, page: Option<Page>): (r: string)
    ensures page.None? ==> r == url
    ensures url != "" ==> r != ""
  {
    match page
    case None => url
    case Some(p) =>
      if HasCanonical(p) then p.canonical.value
      else
        var k := FirstExternal(p.anchors);
        if k < |p.anchors| then p.anchors[k] else url
  }

  /** The rule in full: a failed request keeps the input; a canonical link
      wins; otherwise the result is the first external anchor, and the input
      only when no anchor is external. */
  lemma ResolveSpec(url: string, page: Option<Page>)
    ensures page.None? ==> Resolve(url, page) == url
    ensures page.Some? && HasCanonical(page.value) ==>
      Resolve(url, page) == page.value.canonical.value
    ensures page.Some? && !HasCanonical(page.value) ==>
      var a := page.value.anchors;
      var r := Resolve(url, page);
      (r == url && forall j :: 0 <= j < |a| ==> !IsExternal(a[j]))
      || exists k :: 0 <= k < |a| && r == a[k] && IsExternal(a[k])
           && forall j :: 0 <= j < k ==> !IsExternal(a[j])
  {
    if page.Some? && !HasCanonical(page.value) {
      var a := page.value.anchors;
      var k := FirstExternal(a);
      if k < |a| {
        assert Resolve(url, page) == a[k];
      }
    }
  }

  /** The resolver always has some URL to key off: the result is never empty
      when the input is not, and it is the input itself, the page's canonical
      link, or an anchor that is an absolute `http` URL off the aggregator. */
  lemma ResolveOutcomes(url: string, page: Option<Page>)
    ensures url != "" ==> Resolve(url, page) != ""
    ensures var r := Resolve(url, page);
      r == url
      || (page.Some? && HasCanonical(page.value) && r == page.value.canonical.value)
      || (page.Some? && r in page.value.anchors && IsExternal(r))
  {
    if page.Some? && !HasCanonical(page.value) {
      var a := page.value.anchors;
      var k := FirstExternal(a);
      if k < |a| {
        assert "http" <= a[k];
      }
    }
  }

}
