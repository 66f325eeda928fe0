/** Collecting the coupon-page links from the anchors of the listing page
    (`get_coupon_page_links`). The listing page itself is fetched and parsed
    elsewhere; here it is the sequence of its anchors' `href` values, in
    document order. */
module CouponPages {
  import opened Text

  /** The listing page, which is never itself a coupon page. */
  const BaseUrl: string := "https://coupons-2save.com/greatclips"

  /** Scheme and host that root-relative links are resolved against. */
  const SiteRoot: string := "https://coupons-2save.com"

  /** Base that other relative links are resolved against. */
  const ListingDir: string := "https://coupons-2save.com/greatclips/"

  /** An anchor points to a coupon sub-page: it mentions `/greatclips/` and is
      not a link to the listing itself. */
  predicate Qualifies(href: string) {
    Contains(href, "/greatclips/") && href != "/greatclips" && href != "/greatclips/"
  }

  /** The absolute URL of an `href`: absolute links are kept, root-relative
      ones get the site root, all others the listing directory. */
  function Resolve(href: string): string {
    if StartsWith(href, "http") then href
    else if StartsWith(href, "/") then SiteRoot + href
    else ListingDir + href
  }

  /** Every resolved URL is absolute (starts with `http`), ends with the
      original `href`, and resolving it again changes nothing. */
  lemma ResolveAbsolute(href: string)
    ensures StartsWith(Resolve(href), "http")
    ensures |href| <= |Resolve(href)| && Resolve(href)[|Resolve(href)| - |href|..] == href
    ensures Resolve(Resolve(href)) == Resolve(href)
  {
    var url := Resolve(href);
    if !StartsWith(href, "http") {
      var prefix := if StartsWith(href, "/") then SiteRoot else ListingDir;
      assert url == prefix + href;
      assert SiteRoot == "http" + SiteRoot[4..];
      assert ListingDir == "http" + ListingDir[4..];
      StartsWithAppend(prefix, href, "http");
      assert url[|url| - |href|..] == href;
    }
  }

  /** A qualifying link still mentions `/greatclips/` once resolved. */
  lemma ResolveKeepsMarker(href: string)
    requires Qualifies(href)
    ensures Contains(Resolve(href), "/greatclips/")
  {
    if !StartsWith(href, "http") {
      ContainsAfterPrefix(if StartsWith(href, "/") then SiteRoot else ListingDir, href, "/greatclips/");
    }
  }

  /** The only slashes of the listing URL are those of `//` and the one
      before `greatclips`. */
  lemma BaseUrlSlashes(k: int)
    requires 0 <= k < |BaseUrl| && BaseUrl[k] == '/'
    ensures k == 6 || k == 7 || k == 25
  {
  }

  /** The listing URL does not mention `/greatclips/` (it has no trailing slash). */
  lemma BaseUrlLacksMarker()
    ensures !Contains(BaseUrl, "/greatclips/")
  {
    var marker := "/greatclips/";
    forall i ensures !OccursAt(BaseUrl, marker, i) {
      if 0 <= i && i + |marker| <= |BaseUrl| {
        if BaseUrl[i] == '/' {
          BaseUrlSlashes(i);
          assert BaseUrl[i + 11] != '/';
          assert BaseUrl[i..i + |marker|][11] != marker[11];
        } else {
          assert BaseUrl[i..i + |marker|][0] != marker[0];
        }
      }
    }
    ContainsIff(BaseUrl, marker);
  }

  /** No qualifying link resolves to the listing URL, so the `!= BASE_URL`
      test of the collection loop never rejects anything. */
  lemma {:induction false} NoLinkResolvesToBase(href: string)
    requires Qualifies(href)
    ensures Resolve(href) != BaseUrl
  {
    if StartsWith(href, "http") {
      BaseUrlLacksMarker();
    } else if StartsWith(href, "/") {
      assert BaseUrl[|SiteRoot|..] == "/greatclips";
      assert (SiteRoot + href)[|SiteRoot|..] == href;
    }
  }

  /** The resolved qualifying links, with repeats, as the collection loop
      meets them: in the order of `hrefs`, which is document order. */
  function Candidates(hrefs: seq<string>): seq<string>
    decreases |hrefs|
  {
    if hrefs == [] then []
    else
      var rest := Candidates(hrefs[..|hrefs| - 1]);
      var href := hrefs[|hrefs| - 1];
      if Qualifies(href) && Resolve(href) != BaseUrl then rest + [Resolve(href)] else rest
  }

  /** A URL is a candidate exactly when some qualifying anchor resolves to it. */
  lemma {:induction false} CandidatesIff(hrefs: seq<string>, url: string)
    ensures url in Candidates(hrefs) <==> exists h :: h in hrefs && Qualifies(h) && Resolve(h) == url
    decreases |hrefs|
  {
    if hrefs != [] {
      var init := hrefs[..|hrefs| - 1];
      CandidatesIff(init, url);
      assert hrefs == init + [hrefs[|hrefs| - 1]];
      if Qualifies(hrefs[|hrefs| - 1]) {
        NoLinkResolvesToBase(hrefs[|hrefs| - 1]);
      }
      if exists h :: h in hrefs && Qualifies(h) && Resolve(h) == url {
        var h :| h in hrefs && Qualifies(h) && Resolve(h) == url;
        if h != hrefs[|hrefs| - 1] {
          assert h in init;
        }
      }
    }
  }

  /** Keeps the first occurrence of each element, in order (what appending
      after a `not in` test produces). */
  function Dedup(s: seq<string>): seq<string>
    decreases |s|
  {
    if s == [] then []
    else
      var d := Dedup(s[..|s| - 1]);
      if s[|s| - 1] in d then d else d + [s[|s| - 1]]
  }

  predicate NoDuplicates(s: seq<string>) {
    forall i, j :: 0 <= i < j < |s| ==> s[i] != s[j]
  }

  /** Position of the first occurrence of `x` in `s`. */
  function FirstIndex(s: seq<string>, x: string): (k: nat)
    requires x in s
    ensures k < |s| && s[k] == x && x !in s[..k]
    decreases |s|
  {
    if s[0] == x then 0 else 1 + FirstIndex(s[1..], x)
  }

  lemma FirstIndexOfPrefix(s: seq<string>, t: seq<string>, x: string)
    requires x in s
    ensures FirstIndex(s + t, x) == FirstIndex(s, x)
  {
    var k := FirstIndex(s, x);
    var k' := FirstIndex(s + t, x);
    assert (s + t)[..k] == s[..k];
    assert (s + t)[k] == x;
  }

  /** `Dedup(s)` holds each element of `s` once, and in the order of their
      first occurrences in `s`. */
  lemma {:induction false} DedupSpec(s: seq<string>)
    ensures NoDuplicates(Dedup(s))
    ensures forall x :: x in Dedup(s) <==> x in s
    ensures forall i, j :: 0 <= i < j < |Dedup(s)| ==>
              FirstIndex(s, Dedup(s)[i]) < FirstIndex(s, Dedup(s)[j])
    decreases |s|
  {
    if s != [] {
      var init := s[..|s| - 1];
      var x := s[|s| - 1];
      DedupSpec(init);
      var d := Dedup(init);
      assert s == init + [x];
      forall y | y in init ensures FirstIndex(s, y) == FirstIndex(init, y) {
        FirstIndexOfPrefix(init, [x], y);
      }
      if x !in d {
        assert FirstIndex(s, x) == |init| by {
          assert x !in init;
          assert x !in s[..|init|];
        }
      }
    }
  }

  /** The URLs `get_coupon_page_links` returns for the given anchors. */
  function CouponPageLinks(hrefs: seq<string>): seq<string> {
    Dedup(Candidates(hrefs))
  }

  /** The collection loop: resolves each qualifying `href` and appends it
      unless it is already collected or is the listing URL. */
  method CollectCouponPages(hrefs: seq<string>) returns (links: seq<string>)
    ensures links == CouponPageLinks(hrefs)
    ensures NoDuplicates(links)
    ensures BaseUrl !in links
    ensures forall url :: url in links <==> exists h :: h in hrefs && Qualifies(h) && Resolve(h) == url
    // first-occurrence order, with positions taken in `Candidates(hrefs)`,
    // which lists the resolved links in the order of `hrefs`
    ensures forall i, j :: 0 <= i < j < |links| ==>
              links[i] in Candidates(hrefs) && links[j] in Candidates(hrefs) &&
              FirstIndex(Candidates(hrefs), links[i]) < FirstIndex(Candidates(hrefs), links[j])
  {
    links := [];
    for i := 0 to |hrefs|
      invariant links == Dedup(Candidates(hrefs[..i]))
    {
      var href := hrefs[i];
      assert hrefs[..i + 1][..i] == hrefs[..i];
      if Contains(href, "/greatclips/") && href != "/greatclips" && href != "/greatclips/" {
        var fullUrl;
        if StartsWith(href, "http") {
          fullUrl := href;
        } else if StartsWith(href, "/") {
          fullUrl := SiteRoot + href;
        } else {
          fullUrl := ListingDir + href;
        }
        if fullUrl !in links && fullUrl != BaseUrl {
          links := links + [fullUrl];
        }
      }
    }
    assert hrefs[..|hrefs|] == hrefs;
    DedupSpec(Candidates(hrefs));
    forall url ensures url in links <==> exists h :: h in hrefs && Qualifies(h) && Resolve(h) == url {
      CandidatesIff(hrefs, url);
    }
    CandidatesIff(hrefs, BaseUrl);
    if BaseUrl in links {
      var h :| h in hrefs && Qualifies(h) && Resolve(h) == BaseUrl;
      NoLinkResolvesToBase(h);
    }
  }
}
