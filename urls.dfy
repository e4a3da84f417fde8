/** `normalize_url` and `same_domain` from `scripts/crawl_site.py`.

    `urljoin` (reference resolution, section 5.2 of RFC 3986) is not
    modelled: it is the parameter `join`, about which nothing is assumed. */
module Urls {
  import opened Text
  import opened UrlParse

  /** The link prefixes `normalize_url` refuses before resolving anything. */
  predicate IsBlocked(link: string) {
    StartsWith(link, "javascript:") || StartsWith(link, "mailto:")
    || StartsWith(link, "tel:") || StartsWith(link, "data:")
  }

  predicate IsWebScheme(scheme: string) {
    scheme == "http" || scheme == "https"
  }

  /** `normalize_url(base, link)`: strip the link, refuse the blocked
      prefixes, resolve it against `base`, drop the fragment, and keep the
      result only when its scheme is `http` or `https`.

      A result, when there is one, is the resolved URL with only its
      fragment removed: `urlparse` finds every other component unchanged. */
  function NormalizeUrl(join: (string, string) -> string, base: string, link: string): (r: Option<string>)
    ensures r.Some? <==>
      link != "" && !IsBlocked(Strip(link)) && IsWebScheme(Parse(join(base, Strip(link))).scheme)
    ensures r.Some? ==> IsWebScheme(Parse(r.value).scheme)
    ensures r.Some? ==> '#' !in r.value && Parse(r.value).fragment == ""
    ensures r.Some? ==> StartsWith(join(base, Strip(link)), r.value)
    ensures r.Some? ==> Parse(r.value) == Parse(join(base, Strip(link))).(fragment := "")
    ensures r.Some? ==> r.value == Defrag(join(base, Strip(link)))
  {
    if link == "" then None
    else
      var stripped := Strip(link);
      if IsBlocked(stripped) then None
      else
        var absolute := Defrag(join(base, stripped));
        ParseDefrag(join(base, stripped));
        if IsWebScheme(Parse(absolute).scheme) then Some(absolute) else None
  }

  /** A blocked prefix is itself a scheme other than `http(s)`, so such a link
      would be refused by the scheme test too, were it resolved to itself. */
  lemma {:induction false} BlockedIsNotWeb(link: string)
    requires IsBlocked(link)
    ensures !IsWebScheme(Scheme(link))
  {
    var n := if StartsWith(link, "javascript:") then 10
      else if StartsWith(link, "mailto:") then 6
      else if StartsWith(link, "data:") then 4
      else 3;
    assert link[n] == ':';
    assert forall j | 0 <= j < n :: IsAsciiLetter(link[j]);
    FindFromIs(link, {':'}, 0, n);
    assert SchemeEnd(link) == n + 1;
    assert |Scheme(link)| == n;
  }

  /** Normalising is idempotent: a normalised URL with no trailing whitespace,
      resolved to itself (as `urljoin` does with an absolute URL), normalises
      to itself. */
  lemma NormalizeIdempotent(join: (string, string) -> string, base: string, link: string)
    requires NormalizeUrl(join, base, link).Some?
    requires var v := NormalizeUrl(join, base, link).value;
      join(base, v) == v && !IsSpace(v[|v| - 1])
    ensures NormalizeUrl(join, base, NormalizeUrl(join, base, link).value) == NormalizeUrl(join, base, link)
  {
    var v := NormalizeUrl(join, base, link).value;
    assert IsWebScheme(Scheme(v)) && '#' !in v;
    NormalizeFixedPoint(join, base, v);
  }

  /** A web URL without fragment or surrounding whitespace, that `join`
      resolves to itself, is its own normal form. */
  lemma NormalizeFixedPoint(join: (string, string) -> string, base: string, v: string)
    requires IsWebScheme(Scheme(v)) && '#' !in v
    requires join(base, v) == v && !IsSpace(v[|v| - 1])
    ensures NormalizeUrl(join, base, v) == Some(v)
  {
    assert SchemeEnd(v) > 0;
    StripNoSpace(v);
    if IsBlocked(v) {
      BlockedIsNotWeb(v);
    }
    assert Defrag(v) == v;
  }

  /** `same_domain(a, b)`: the two netlocs agree when both are lower-cased. */
  function SameDomain(a: string, b: string): (r: bool)
    ensures r <==> (|Netloc(a)| == |Netloc(b)|
      && forall i | 0 <= i < |Netloc(a)| :: LowerChar(Netloc(a)[i]) == LowerChar(Netloc(b)[i]))
  {
    var la, lb := Lower(Netloc(a)), Lower(Netloc(b));
    assert la == lb <==> |la| == |lb| && forall i | 0 <= i < |la| :: la[i] == lb[i];
    la == lb
  }

  /** `same_domain` is an equivalence: reflexive, symmetric and transitive. */
  lemma SameDomainEquivalence(a: string, b: string, c: string)
    ensures SameDomain(a, a)
    ensures SameDomain(a, b) ==> SameDomain(b, a)
    ensures SameDomain(a, b) && SameDomain(b, c) ==> SameDomain(a, c)
  {
  }

  /** The fragment plays no part in the comparison. */
  lemma SameDomainIgnoresFragment(a: string, b: string)
    ensures SameDomain(Defrag(a), b) == SameDomain(a, b)
  {
    NetlocDefrag(a);
  }
}
