# Great Clips coupon bot: verified model of the scrape-and-report pipeline

`bot_cron.py` scrapes a coupon listing site and reports its Great Clips
coupons to a Telegram chat. Without HTTP, HTML parsing and Telegram, the
script is a small string and sequence pipeline. This project models that
pipeline in Dafny and proves what each step promises.

- `Text.dfy` (module `Text`) holds the Python `str` operations the script
  relies on:
  - `in`, `startswith`, `rstrip`, `lstrip` and `strip` (with Python's
    whitespace set);
  - `str(n)`;
  - string ordering, and `sorted` over a set of strings;
  - `"".join`.

  Strings are sequences of Unicode code points, so `|s|` is Python's
  `len(s)`.
- `CouponPages.dfy` (module `CouponPages`) models `get_coupon_page_links`:
  - it filters the listing page's anchors to coupon sub-pages;
  - it resolves each one with the three-way prefix rule;
  - it keeps the first occurrence of each URL;
  - it excludes the listing URL.
- `OfferExtract.dfy` (module `OfferExtract`) models `extract_offer_links`:
  - the distinct offer links, sorted;
  - the leftmost `$d+.dd` price in the title, or the "price unknown" text;
  - the title cut to 80 characters;
  - `None` when fetching or parsing failed.
- `Packer.dfy` (module `Packer`) models the chunking loop at the end of
  `main` and its nested `send_if_meaningful`:
  - a buffer that starts with the header collects rendered blocks;
  - a block that would take the buffer past 3500 characters flushes it;
  - the next buffer starts with the continuation marker `(ادامه...)`;
  - each flushed buffer goes through the meaningful-text guard;
  - sending appends to the sequence of sent texts.
- `Bot.dfy` (module `Bot`) models the rest of `main`:
  - the first ten coupon pages are processed;
  - a record is kept when it has offer links;
  - the "no coupons" notice is sent when nothing is kept;
  - otherwise the header and the coupon blocks are rendered and the report
    is packed.

  Fetching a coupon page is a parameter `fetch: string -> Option<Page>`.
  The header's timestamp is a parameter `stamp`.

The packing loop is specified by a state function. `Packer.Packed(header,
blocks, i)` is the loop state after `i` blocks. It holds the closed groups
of blocks, the open group and the text of the open buffer. The sent texts
are `Packer.Sent(header, blocks)`: the buffers of all groups passed through
the guard, in order. The lemmas prove the following about this function:

- every block is in exactly one group, in order;
- a flush happens exactly when the next block does not fit;
- the header goes out alone exactly when the first block does not fit
  beside it;
- a message is over the limit only when it is the header alone or holds a
  single block;
- the guard never drops a buffer that `main` builds.

The listing-URL test in `get_coupon_page_links` (bot_cron.py:50) never
rejects anything: no qualifying link resolves to the listing URL, because
that URL has no trailing slash (`CouponPages.NoLinkResolvesToBase`). The
model keeps the test, as the source does.

## Model

| member | source | states |
|---|---|---|
| Text.ContainsIff | bot_cron.py:41 | `sub in s` holds exactly when `sub` occurs in `s` at some position |
| Text.RStripSpec | bot_cron.py:116 | `rstrip` keeps the longest prefix that does not end in whitespace and is followed only by whitespace |
| Text.LStripSpec | bot_cron.py:120 | `lstrip` keeps the longest suffix that does not start with whitespace and is preceded only by whitespace |
| Text.RStripTwice | bot_cron.py:116-120 | `rstrip` is idempotent, so the guard's text is already stripped at the end |
| Text.NatToStringRoundTrip | bot_cron.py:126 | the decimal rendering of a coupon's index reads back as that index |
| Text.SortedOf | bot_cron.py:79 | `sorted(offer_links)` is strictly ascending, holds exactly the set's elements, and has the set's size |
| Text.AscendingUnique | bot_cron.py:79 | two strictly ascending lists with the same elements are equal, so the sorted list is determined by the set |
| Text.BelowTotal | bot_cron.py:79 | Python's string order is total: of two different strings, one is below the other |
| Text.BelowTransitive | bot_cron.py:79 | Python's string order is transitive |
| CouponPages.ResolveAbsolute | bot_cron.py:43-48 | every resolved URL starts with `http` and ends with the original href, and resolving it again changes nothing |
| CouponPages.ResolveKeepsMarker | bot_cron.py:41-48 | a qualifying href still contains `/greatclips/` after resolution |
| CouponPages.NoLinkResolvesToBase | bot_cron.py:41-50 | no qualifying href resolves to the listing URL, so the `!= BASE_URL` test never fires |
| CouponPages.CandidatesIff | bot_cron.py:38-48 | a URL is a candidate exactly when some qualifying href resolves to it |
| CouponPages.DedupSpec | bot_cron.py:50-51 | the membership-checked append keeps each URL once, keeps exactly the URLs met, and orders them by first occurrence |
| CouponPages.CollectCouponPages | bot_cron.py:36-53 | the collection loop returns a duplicate-free list without the listing URL; a URL is in it exactly when some qualifying href resolves to it; the order is that of first occurrences |
| OfferExtract.MatchAtSpec | bot_cron.py:72 | the regex attempt at a position succeeds exactly when a `$d+.dd` token starts there, and gives its length |
| OfferExtract.SearchPrice | bot_cron.py:72 | `re.search` finds the leftmost token at or after the start position, or reports that there is none |
| OfferExtract.Price | bot_cron.py:72-73 | the price is the leftmost price token of the whole title, `$` included, or "price unknown" exactly when the title has no token |
| OfferExtract.Truncate | bot_cron.py:77 | `title[:80]` is the prefix of length min(80, len(title)) |
| OfferExtract.ExtractOfferLinks | bot_cron.py:55-83 | `None` exactly when fetching failed; otherwise the record whose offer links are exactly the hrefs containing `offers.greatclips.com`, strictly ascending |
| Packer.Sendable | bot_cron.py:115-122 | the guard sends at most one text per buffer |
| Packer.SendableMeaningful | bot_cron.py:115-122 | no sent text is empty or the bare continuation marker, and each is right-stripped |
| Packer.SendableAll | bot_cron.py:115-122 | when every buffer is meaningful, each one is sent, right-stripped, in order |
| Packer.PackedValid | bot_cron.py:112-139 | the loop's `message` is always the open group's buffer: the header or the marker, then the group's blocks |
| Packer.PlacedPrefix | bot_cron.py:124-139 | after `i` blocks the groups joined are exactly the first `i` blocks |
| Packer.GroupsConcat | bot_cron.py:124-142 | every block is in exactly one group, and the groups joined in order are the blocks |
| Packer.GroupsFlushedOnlyWhenFull | bot_cron.py:135-137 | every flush was forced: the next group starts with a block that did not fit in the flushed buffer |
| Packer.GroupsAppendedOnlyWhenFits | bot_cron.py:135-139 | every block that does not open a continuation buffer fitted within 3500 when it was appended |
| Packer.HeaderAlone | bot_cron.py:112-137 | the first buffer holds no block exactly when there is no block or the header and the first block together exceed 3500 |
| Packer.BuffersBounded | bot_cron.py:113-139 | a buffer longer than 3500 is the header alone or a continuation buffer holding a single block |
| Packer.SentOpenings | bot_cron.py:112-142 | with a header that starts with neither whitespace nor `(`, and blocks that start with non-space characters, one message is sent per buffer, right-stripped; the first opens with the header (or is the stripped header alone) and the others open with the marker |
| Packer.SentFirstChars | bot_cron.py:112-137 | with a header that starts with neither whitespace nor `(`, and blocks that start with non-space characters, the first message starts with the header's first character and every later one with `(` |
| Packer.PackShape | bot_cron.py:112-142 | with at least one block, a header that starts with neither whitespace nor `(`, and blocks that start with non-space characters, the report keeps the blocks in order, sends one message per group, opens each message as `SentOpenings` says, sends the header alone exactly when the first block does not fit beside it, and exceeds the limit only as `BuffersBounded` allows |
| Packer.Pack | bot_cron.py:112-142 | the chunking loop sends exactly `Sent(header, blocks)`, and nothing it sends is blank or the bare marker |
| Bot.HeaderGood | bot_cron.py:109-110 | the header starts with the party emoji, which is neither whitespace nor `(` |
| Bot.FilterAt | bot_cron.py:98-99 | the kept records are exactly the records with offer links, at ascending page positions |
| Bot.SelectedSpec | bot_cron.py:95-99 | at most ten records are kept; each is the record of one of the first ten pages, has offer links, and keeps page order; every such page is kept |
| Bot.OnlyFirstPagesMatter | bot_cron.py:95-97 | runs that agree on the first ten pages and on what fetching them gives keep the same records |
| Bot.SelectRecords | bot_cron.py:94-99 | the selection loop keeps exactly `Selected(fetch, pages)` |
| Bot.BulletsRoundTrip | bot_cron.py:125-132 | a block has five fixed lines plus one bullet per shown link, at most five; each bullet line reads back as the offer link at that position |
| Bot.BlockStart | bot_cron.py:125-126 | a block starts with its price line, whose first character is the diamond emoji, not whitespace |
| Bot.Run | bot_cron.py:85-142 | `main` sends exactly `Messages(listing, fetch, stamp)` |
| Bot.NoCouponsIff | bot_cron.py:104-107 | a run always sends something; it sends only the notice exactly when no record is kept, and otherwise never sends the notice |
| Bot.ReportNotNotice | bot_cron.py:104-137 | the packed report is not empty and does not contain the notice |
| Bot.Report | bot_cron.py:109-142 | a run that keeps records sends the packed report of their blocks, numbered from 1, with a header and blocks for which `PackShape` holds |

## Left out

- `fetch_page` and `send_telegram` (bot_cron.py:12-29) are HTTP calls. A
  coupon page's fetch-and-parse result is the parameter `fetch`; a failure
  is `None`. Sending appends to the result sequence. The send's status is
  ignored, as in the source.
- BeautifulSoup parsing is not modelled (bot_cron.py:34, 38, 59, 62, 68-69).
  A page is given as its anchors' `href` values in document order, plus
  the already extracted, stripped heading text.
- `get_coupon_page_links` lets a failed fetch of the listing page raise,
  and that ends the run. The model starts from the listing page's anchors
  and has no such error path.
- Environment variables, `datetime.now()` and all `print` calls are not
  modelled (bot_cron.py:9-10, 86-101, 109, 144). The formatted timestamp
  is the parameter `stamp`.
- OfferExtract.Price: uses ASCII digits. Python's `\d` also matches
  other Unicode decimal digits, such as Persian ones.
- Bot.Run: renders all blocks first and then packs them. The source
  renders each block inside the packing loop (bot_cron.py:124-139).
  Rendering has no effects, so the texts sent are the same.
- The bullet loop (bot_cron.py:130-131) is modelled as the function
  `Bot.BlockLines`.
- `fetch` is a function, so fetching the same URL twice gives the same
  page. `main` fetches each page once, because the coupon-page list has no
  duplicates.
- Not in bot_cron.py, so not modelled: a seen-set or any store kept
  across runs, a description field, free-text extraction, and a set of
  prices per record. Each record has one price, the leftmost match
  (bot_cron.py:72-73).
- The "no coupons" notice is sent by `main` before any packing
  (bot_cron.py:104-107), not by the packing loop.
- The packing loop can send a message longer than 3500 characters: the
  header alone, or a continuation holding one long block.
  `Packer.BuffersBounded` states exactly when.
