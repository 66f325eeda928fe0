/** Reading one coupon page into a record (`extract_offer_links`). The page
    arrives already parsed: the `href` of each of its anchors, in document
    order, and the text of its heading (`h1`, else `title`, else empty). */
module OfferExtract {
  import opened Text

  datatype Option<T> = None | Some(value: T)

  /** What the parser yields for one page. */
  datatype Page = Page(hrefs: seq<string>, title: string)

  /** The record built for one coupon page. */
  datatype Coupon = Coupon(pageUrl: string, title: string, price: string, offerLinks: seq<string>)

  /** Host of the redemption links. */
  const OfferHost: string := "offers.greatclips.com"

  /** Display length of a title. */
  const TitleLimit: nat := 80

  /** Price shown when the title holds no price ("price unknown"). */
  const UnknownPrice: string := "قیمت نامشخص"

  predicate IsOfferLink(href: string) {
    Contains(href, OfferHost)
  }

  /** The distinct offer links among a page's anchors. */
  function OfferSet(hrefs: seq<string>): set<string> {
    set h | h in hrefs && IsOfferLink(h)
  }

  /** `t` is a whole match of the pattern `\$\d+\.\d{2}`: a dollar sign, one or
      more digits, a point and exactly two digits. */
  predicate IsPriceToken(t: string) {
    |t| >= 5 && t[0] == '$' && AllDigits(t[1..|t| - 3])
    && t[|t| - 3] == '.' && IsDigit(t[|t| - 2]) && IsDigit(t[|t| - 1])
  }

  /** A match of the price pattern of length `n` starts at position `i` of `s`. */
  predicate TokenAt(s: string, i: int, n: int) {
    0 <= i && 0 <= n && i + n <= |s| && IsPriceToken(s[i..i + n])
  }

  /** The match at `i` is the leftmost one in `s`. */
  ghost predicate LeftmostTokenAt(s: string, i: int, n: int) {
    TokenAt(s, i, n) && forall q, m :: 0 <= q < i ==> !TokenAt(s, q, m)
  }

  /** Length of the run of digits that starts at `i`. */
  function DigitRun(s: string, i: nat): (n: nat)
    requires i <= |s|
    ensures i + n <= |s|
    ensures forall k :: i <= k < i + n ==> IsDigit(s[k])
    ensures i + n == |s| || !IsDigit(s[i + n])
    decreases |s| - i
  {
    if i < |s| && IsDigit(s[i]) then 1 + DigitRun(s, i + 1) else 0
  }

  /** The regex engine's attempt at position `i`: `\d+` takes the whole run of
      digits (giving digits back cannot help, since a digit is not `.`), then
      `.` and two digits must follow. The result is the match length. */
  function MatchAt(s: string, i: nat): Option<nat>
    requires i <= |s|
  {
    if i < |s| && s[i] == '$' then
      var k := DigitRun(s, i + 1);
      var dot := i + 1 + k;
      if k >= 1 && dot + 2 < |s| && s[dot] == '.' && IsDigit(s[dot + 1]) && IsDigit(s[dot + 2])
      then Some(k + 4)
      else None
    else None
  }

  /** When the attempt at `i` succeeds, a match of that length starts there. */
  lemma MatchAtSound(s: string, i: nat)
    requires i <= |s| && MatchAt(s, i).Some?
    ensures TokenAt(s, i, MatchAt(s, i).value)
  {
    var n := MatchAt(s, i).value;
    var t := s[i..i + n];
    assert forall k :: 1 <= k < n - 3 ==> t[k] == s[i + k];
  }

  /** A match at `i` has only one possible length, and the attempt there
      finds it. */
  lemma MatchAtComplete(s: string, i: nat, n: nat)
    requires i <= |s| && TokenAt(s, i, n)
    ensures MatchAt(s, i) == Some(n)
  {
    var t := s[i..i + n];
    forall j | i + 1 <= j < i + n - 3 ensures IsDigit(s[j]) {
      assert IsDigit(t[1..n - 3][j - i - 1]);
      assert t[1..n - 3][j - i - 1] == t[j - i] == s[j];
    }
    assert !IsDigit(s[i + n - 3]);
    assert DigitRun(s, i + 1) == n - 4;
  }

  /** The attempt at `i` succeeds exactly when a match starts there. */
  lemma MatchAtSpec(s: string, i: nat)
    requires i <= |s|
    ensures MatchAt(s, i).Some? ==> TokenAt(s, i, MatchAt(s, i).value)
    ensures forall n :: TokenAt(s, i, n) ==> MatchAt(s, i) == Some(n)
  {
    if MatchAt(s, i).Some? {
      MatchAtSound(s, i);
    }
    forall n | TokenAt(s, i, n) ensures MatchAt(s, i) == Some(n) {
      MatchAtComplete(s, i, n);
    }
  }

  /** `re.search` for the price pattern from position `i`: the start and
      length of the leftmost match at or after `i`. */
  function SearchPrice(s: string, i: nat): (r: Option<(nat, nat)>)
    requires i <= |s|
    ensures r.Some? ==> i <= r.value.0 && TokenAt(s, r.value.0, r.value.1)
    ensures r.Some? ==> forall q, n :: i <= q < r.value.0 ==> !TokenAt(s, q, n)
    ensures r.None? ==> forall q, n :: i <= q ==> !TokenAt(s, q, n)
    decreases |s| - i
  {
    MatchAtSpec(s, i);
    match MatchAt(s, i)
    case Some(n) => Some((i, n))
    case None => if i == |s| then None else SearchPrice(s, i + 1)
  }

  /** The price of a page: the leftmost match of the price pattern in the
      whole (untruncated) title, dollar sign included, or `UnknownPrice`. */
  function Price(title: string): (p: string)
    ensures p == UnknownPrice <==> forall q, n :: !TokenAt(title, q, n)
    ensures p != UnknownPrice ==> IsPriceToken(p)
    ensures p != UnknownPrice ==> exists q :: LeftmostTokenAt(title, q, |p|) && title[q..q + |p|] == p
  {
    match SearchPrice(title, 0)
    case Some((q, n)) =>
      var p := title[q..q + n];
      assert LeftmostTokenAt(title, q, |p|);
      p
    case None => UnknownPrice
  }

  /** `title[:80]` */
  function Truncate(title: string): (t: string)
    ensures |t| == if |title| < TitleLimit then |title| else TitleLimit
    ensures t == title[..|t|]
  {
    if |title| <= TitleLimit then title else title[..TitleLimit]
  }

  /** The record for a page that was fetched and parsed. */
  function Extract(pageUrl: string, page: Page): Coupon {
    Coupon(pageUrl, Truncate(page.title), Price(page.title), SortedOf(OfferSet(page.hrefs)))
  }

  /** `extract_offer_links`: `None` when fetching or parsing the page failed
      (the exception handler), otherwise the page's record, whose offer links
      are the distinct anchors mentioning the offer host, sorted. */
  method ExtractOfferLinks(pageUrl: string, fetched: Option<Page>) returns (r: Option<Coupon>)
    ensures r.None? <==> fetched.None?
    ensures r.Some? ==> r.value == Extract(pageUrl, fetched.value)
    ensures r.Some? ==> StrictlyAscending(r.value.offerLinks)
    ensures r.Some? ==> forall h :: h in r.value.offerLinks <==> h in fetched.value.hrefs && IsOfferLink(h)
  {
    if fetched.None? {
      return None;
    }
    var page := fetched.value;
    var offerLinks: set<string> := {};
    for i := 0 to |page.hrefs|
      invariant offerLinks == OfferSet(page.hrefs[..i])
    {
      var href := page.hrefs[i];
      assert page.hrefs[..i + 1] == page.hrefs[..i] + [href];
      if Contains(href, OfferHost) {
        offerLinks := offerLinks + {href};
      }
    }
    assert page.hrefs[..|page.hrefs|] == page.hrefs;
    var title := page.title;
    var price := Price(title);
    var sorted := SortedOf(offerLinks);
    assert forall h :: h in sorted <==> h in Elems(sorted);
    r := Some(Coupon(pageUrl, Truncate(title), price, sorted));
  }
}
