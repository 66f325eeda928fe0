/** The run (`main`): collect the coupon pages, read a record from each of
    the first ten, keep those that have offer links, and send either the
    "no coupons" notice or the report, packed into messages. Fetching and
    parsing a coupon page is the parameter `fetch` (`None` when it failed);
    the header's timestamp is the parameter `stamp`; sending a message is
    appending it to the result. */
module Bot {
  import opened Text
  import opened CouponPages
  import opened OfferExtract
  import opened Packer

  /** Coupon pages processed per run. */
  const PageCap: nat := 10

  /** Offer links listed per coupon. */
  const BulletCap: nat := 5

  /** The notice sent when no page yields a record ("no new coupon found"). */
  const NoCouponsMessage: string := "❌ هیچ کوپن جدیدی پیدا نشد."

  /** The report's first lines: a title with the run's timestamp, a rule of
      forty `=`, and a blank line. */
  function Header(stamp: string): string {
    "🎉 کوپن\U{200C}های Great Clips (" + stamp + ")\n" + seq(40, _ => '=') + "\n\n"
  }

  /** The header opens its message well: it starts with the party emoji,
      which is neither whitespace nor the start of the marker. */
  lemma HeaderGood(stamp: string)
    ensures GoodHeader(Header(stamp)) && Header(stamp)[0] == '🎉'
  {
  }

  // Selection

  /** `coupon_pages[:10]` */
  function Processed(pages: seq<string>): (ps: seq<string>)
    ensures |ps| == if |pages| < PageCap then |pages| else PageCap
    ensures ps == pages[..|ps|]
  {
    if |pages| <= PageCap then pages else pages[..PageCap]
  }

  /** What `extract_offer_links` returns for the page at `url`. */
  function Outcome(fetch: string -> Option<Page>, url: string): Option<Coupon> {
    match fetch(url)
    case None => None
    case Some(page) => Some(Extract(url, page))
  }

  /** The outcomes for the pages `ps`, in order. */
  function Outcomes(fetch: string -> Option<Page>, ps: seq<string>): (rs: seq<Option<Coupon>>)
    ensures |rs| == |ps|
  {
    seq(|ps|, i requires 0 <= i < |ps| => Outcome(fetch, ps[i]))
  }

  /** `data and data["offer_links"]`: a record with at least one offer link. */
  predicate HasOffers(r: Option<Coupon>) {
    r.Some? && r.value.offerLinks != []
  }

  /** The records with offer links among the outcomes, in order. */
  function Filter(rs: seq<Option<Coupon>>): seq<Coupon>
    decreases |rs|
  {
    if rs == [] then []
    else
      var last := rs[|rs| - 1];
      Filter(rs[..|rs| - 1]) + if HasOffers(last) then [last.value] else []
  }

  /** The positions of the outcomes that have offer links, ascending. */
  function KeptAt(rs: seq<Option<Coupon>>): (ix: seq<nat>)
    ensures |ix| <= |rs|
    ensures forall k :: 0 <= k < |ix| ==> ix[k] < |rs| && HasOffers(rs[ix[k]])
    ensures forall k, l :: 0 <= k < l < |ix| ==> ix[k] < ix[l]
    ensures forall i :: 0 <= i < |rs| && HasOffers(rs[i]) ==> i in ix
    decreases |rs|
  {
    if rs == [] then []
    else
      var ix := KeptAt(rs[..|rs| - 1]);
      if HasOffers(rs[|rs| - 1]) then ix + [|rs| - 1] else ix
  }

  /** The filter keeps exactly the outcomes at the kept positions, in order. */
  lemma {:induction false} FilterAt(rs: seq<Option<Coupon>>)
    ensures |Filter(rs)| == |KeptAt(rs)|
    ensures forall k :: 0 <= k < |KeptAt(rs)| ==> rs[KeptAt(rs)[k]] == Some(Filter(rs)[k])
    decreases |rs|
  {
    if rs != [] {
      var init := rs[..|rs| - 1];
      FilterAt(init);
      var ix := KeptAt(init);
      forall k | 0 <= k < |ix| ensures rs[ix[k]] == init[ix[k]] {
      }
    }
  }

  /** The records `main` keeps (`all_data`). */
  function Selected(fetch: string -> Option<Page>, pages: seq<string>): seq<Coupon> {
    Filter(Outcomes(fetch, Processed(pages)))
  }

  /** At most ten records are kept, each with offer links, each the record
      of one of the first ten pages, in the order of the pages; every page
      among the first ten whose record has offer links is kept. */
  lemma SelectedSpec(fetch: string -> Option<Page>, pages: seq<string>)
    ensures var rs, ix := Selected(fetch, pages), KeptAt(Outcomes(fetch, Processed(pages)));
            |rs| == |ix| <= PageCap &&
            (forall k :: 0 <= k < |rs| ==>
               ix[k] < PageCap && ix[k] < |pages| && rs[k].offerLinks != [] && fetch(pages[ix[k]]).Some? &&
               rs[k] == Extract(pages[ix[k]], fetch(pages[ix[k]]).value)) &&
            (forall k, l :: 0 <= k < l < |rs| ==> ix[k] < ix[l]) &&
            (forall i :: 0 <= i < |Processed(pages)| && HasOffers(Outcome(fetch, pages[i])) ==> i in ix)
  {
    var ps := Processed(pages);
    var os := Outcomes(fetch, ps);
    FilterAt(os);
    var ix := KeptAt(os);
    forall k | 0 <= k < |ix| ensures ps[ix[k]] == pages[ix[k]] {
    }
  }

  /** Only the first ten pages matter: two runs that agree on those pages,
      and on what fetching them gives, keep the same records. */
  lemma OnlyFirstPagesMatter(f1: string -> Option<Page>, f2: string -> Option<Page>,
                             p1: seq<string>, p2: seq<string>)
    requires Processed(p1) == Processed(p2)
    requires forall url :: url in Processed(p1) ==> f1(url) == f2(url)
    ensures Selected(f1, p1) == Selected(f2, p2)
  {
    var ps := Processed(p1);
    forall i | 0 <= i < |ps| ensures Outcomes(f1, ps)[i] == Outcomes(f2, ps)[i] {
      assert ps[i] in ps;
    }
    assert Outcomes(f1, ps) == Outcomes(f2, ps);
  }

  lemma FilterSnoc(rs: seq<Option<Coupon>>, r: Option<Coupon>)
    ensures Filter(rs + [r]) == Filter(rs) + if HasOffers(r) then [r.value] else []
  {
    assert (rs + [r])[..|rs|] == rs;
  }

  lemma OutcomesSnoc(fetch: string -> Option<Page>, ps: seq<string>, i: nat)
    requires i < |ps|
    ensures Outcomes(fetch, ps)[..i + 1] == Outcomes(fetch, ps)[..i] + [Outcome(fetch, ps[i])]
  {
  }

  /** The selection loop of `main`: each of the first ten pages is read,
      and its record kept when it has offer links. */
  method SelectRecords(pages: seq<string>, fetch: string -> Option<Page>) returns (records: seq<Coupon>)
    ensures records == Selected(fetch, pages)
  {
    var processed := if |pages| <= PageCap then pages else pages[..PageCap];
    records := [];
    for i := 0 to |processed|
      invariant records == Filter(Outcomes(fetch, processed)[..i])
    {
      var pageUrl := processed[i];
      var data := ExtractOfferLinks(pageUrl, fetch(pageUrl));
      assert data == Outcome(fetch, pageUrl);
      OutcomesSnoc(fetch, processed, i);
      FilterSnoc(Outcomes(fetch, processed)[..i], data);
      if data.Some? && data.value.offerLinks != [] {
        records := records + [data.value];
      }
    }
    assert Outcomes(fetch, processed)[..|processed|] == Outcomes(fetch, processed);
  }

  // Rendering

  /** `offer_links[:5]` */
  function Shown(links: seq<string>): (s: seq<string>)
    ensures |s| == if |links| < BulletCap then |links| else BulletCap
    ensures s == links[..|s|]
  {
    if |links| <= BulletCap then links else links[..BulletCap]
  }

  /** What precedes a link on its line. */
  const BulletPrefix: string := "   • "

  function BulletLine(link: string): string {
    BulletPrefix + link + "\n"
  }

  /** The link a bullet line lists. */
  function LinkOf(line: string): string
    requires |BulletPrefix| < |line|
  {
    line[|BulletPrefix|..|line| - 1]
  }

  /** The lines of block `idx` (counting from 1): price, title, page,
      the offer-links heading, up to five bullets, and a blank line. */
  function BlockLines(idx: nat, c: Coupon): seq<string> {
    var shown := Shown(c.offerLinks);
    ["🔸 کوپن " + NatToString(idx) + ": " + c.price + "\n",
     "📄 " + c.title + "\n",
     "🔗 صفحه: " + c.pageUrl + "\n",
     "💳 لینک\U{200C}های Offer:\n"]
    + seq(|shown|, k requires 0 <= k < |shown| => BulletLine(shown[k]))
    + ["\n"]
  }

  /** The text of block `idx`. */
  function Block(idx: nat, c: Coupon): string {
    Concat(BlockLines(idx, c))
  }

  /** The blocks of the kept records, numbered from 1. */
  function Blocks(records: seq<Coupon>): (blocks: seq<string>)
    ensures |blocks| == |records|
  {
    seq(|records|, k requires 0 <= k < |records| => Block(k + 1, records[k]))
  }

  /** The bullets of a block list the first five offer links, in order, and
      each one can be read back from its line; the block has five other
      lines. */
  lemma BulletsRoundTrip(idx: nat, c: Coupon)
    ensures var lines := BlockLines(idx, c);
            |lines| == 5 + |Shown(c.offerLinks)| &&
            |lines| <= 5 + BulletCap &&
            (forall k :: 4 <= k < |lines| - 1 ==> |BulletPrefix| < |lines[k]| && StartsWith(lines[k], BulletPrefix)) &&
            seq(|lines| - 5, k requires 0 <= k < |lines| - 5 => LinkOf(lines[4 + k])) == c.offerLinks[..|lines| - 5]
  {
    var lines := BlockLines(idx, c);
    var shown := Shown(c.offerLinks);
    forall k | 0 <= k < |shown| ensures lines[4 + k] == BulletLine(shown[k]) && LinkOf(lines[4 + k]) == shown[k] {
      var line := BulletLine(shown[k]);
      assert line[|BulletPrefix|..|line| - 1] == shown[k];
    }
  }

  /** Every block starts with its price line, whose first character is the
      diamond emoji, so no block starts with whitespace. */
  lemma BlockStart(idx: nat, c: Coupon)
    ensures StartsWith(Block(idx, c), BlockLines(idx, c)[0])
    ensures Block(idx, c) != [] && Block(idx, c)[0] == '🔸' && !IsSpace(Block(idx, c)[0])
  {
    var lines := BlockLines(idx, c);
    ConcatFront(lines);
    assert lines[0][0] == '🔸';
    assert Block(idx, c)[..|lines[0]|][0] == '🔸';
  }

  lemma BlocksGood(records: seq<Coupon>)
    ensures GoodBlocks(Blocks(records))
  {
    var blocks := Blocks(records);
    forall b | b in blocks ensures b != [] && !IsSpace(b[0]) {
      var k :| 0 <= k < |blocks| && blocks[k] == b;
      BlockStart(k + 1, records[k]);
    }
  }

  // The run

  /** What a run sends. */
  function Messages(listing: seq<string>, fetch: string -> Option<Page>, stamp: string): seq<string> {
    var records := Selected(fetch, CouponPageLinks(listing));
    if records == [] then [NoCouponsMessage] else Sent(Header(stamp), Blocks(records))
  }

  /** `main`: `listing` holds the anchors of the listing page. */
  method Run(listing: seq<string>, fetch: string -> Option<Page>, stamp: string) returns (sent: seq<string>)
    ensures sent == Messages(listing, fetch, stamp)
  {
    var pages := CollectCouponPages(listing);
    var records := SelectRecords(pages, fetch);
    if records == [] {
      sent := [NoCouponsMessage];
      return;
    }
    var header := Header(stamp);
    var blocks := Blocks(records);
    sent := Pack(header, blocks);
  }

  /** The report's first message starts with the header's emoji, every
      later one with the marker's opening parenthesis. */
  lemma ReportFirstChars(stamp: string, blocks: seq<string>)
    requires GoodBlocks(blocks)
    ensures var sent := Sent(Header(stamp), blocks);
            sent != [] && sent[0] != [] && sent[0][0] == '🎉' &&
            forall k :: 0 < k < |sent| ==> sent[k] != [] && sent[k][0] == '('
  {
    HeaderGood(stamp);
    SentFirstChars(Header(stamp), blocks);
  }

  /** The report is never the notice. */
  lemma ReportNotNotice(stamp: string, blocks: seq<string>)
    requires GoodBlocks(blocks)
    ensures Sent(Header(stamp), blocks) != []
    ensures NoCouponsMessage !in Sent(Header(stamp), blocks)
  {
    ReportFirstChars(stamp, blocks);
    assert NoCouponsMessage[0] == '❌';
  }

  /** A run sends the notice, and only the notice, exactly when no record is
      kept; otherwise it never sends the notice. */
  lemma NoCouponsIff(listing: seq<string>, fetch: string -> Option<Page>, stamp: string)
    ensures var records, sent := Selected(fetch, CouponPageLinks(listing)), Messages(listing, fetch, stamp);
            sent != [] &&
            (records == [] <==> sent == [NoCouponsMessage]) &&
            (records != [] ==> NoCouponsMessage !in sent)
  {
    var records := Selected(fetch, CouponPageLinks(listing));
    if records != [] {
      BlocksGood(records);
      ReportNotNotice(stamp, Blocks(records));
    }
  }

  /** A run that keeps records sends the packed report of their blocks,
      one block per record, numbered from 1; header and blocks are good,
      so `PackShape` describes the messages. */
  lemma Report(listing: seq<string>, fetch: string -> Option<Page>, stamp: string)
    requires Selected(fetch, CouponPageLinks(listing)) != []
    ensures var records := Selected(fetch, CouponPageLinks(listing));
            var blocks := Blocks(records);
            Messages(listing, fetch, stamp) == Sent(Header(stamp), blocks) &&
            blocks != [] && GoodHeader(Header(stamp)) && GoodBlocks(blocks) &&
            forall k :: 0 <= k < |records| ==> blocks[k] == Block(k + 1, records[k])
  {
    HeaderGood(stamp);
    BlocksGood(Selected(fetch, CouponPageLinks(listing)));
  }
}
