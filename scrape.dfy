/** The run assembled by `scrape_watchfinder`
    (src/watchfinder_scraper.py:171-240): collect product links from the
    listing pages, de-duplicate them, extract and clean every product page,
    flatten each record into one table row and drop the rows without a price.
    The browser and the HTTP client are given as the functions `listing` and
    `detail` from a URL to the page they return. */
module Scrape {
  import opened Wrappers
  import opened Seqs
  import opened Text
  import opened Dicts
  import opened WatchRecords
  import opened Extract
  import opened Links

  // ---------------------------------------------------------------------------
  // Listing URLs (lines 172-191)

  const Collections: seq<string> := ["Carrera", "Monaco", "Aquaracer", "F1", "Link", "Autavia"]
  const SiteRoot := "https://www.watchfinder.com"
  /** `range(1, 6)`: pages 1 to 5 of every collection. */
  const LastPage: nat := 5

  function DigitChar(d: nat): char
    requires d < 10
  {
    ('0' as int + d) as char
  }

  /** Python's `str(n)` for a natural number. */
  function DecimalString(n: nat): (r: string)
    ensures |r| >= 1
    ensures forall i :: 0 <= i < |r| ==> '0' <= r[i] <= '9'
  {
    if n < 10 then [DigitChar(n)] else DecimalString(n / 10) + [DigitChar(n % 10)]
  }

  /** The number a string of decimal digits denotes. */
  function DecimalValue(s: string): nat
    requires forall i :: 0 <= i < |s| ==> '0' <= s[i] <= '9'
  {
    if s == [] then 0 else 10 * DecimalValue(s[..|s| - 1]) + (s[|s| - 1] - '0') as nat
  }

  /** The page number in a listing URL reads back as that number. */
  lemma {:induction false} DecimalRoundTrip(n: nat)
    ensures DecimalValue(DecimalString(n)) == n
  {
    var r := DecimalString(n);
    if n >= 10 {
      var q, d := n / 10, n % 10;
      assert n == 10 * q + d;
      var init := DecimalString(q);
      DecimalRoundTrip(q);
      assert r == init + [DigitChar(d)];
      assert r[..|r| - 1] == init;
      assert (r[|r| - 1] - '0') as nat == d;
    }
  }

  /** Line 188: `collection_base_url`. */
  function CollectionBaseUrl(collection: string): string
  {
    SiteRoot + "/Tag%20Heuer/" + collection + "/watches"
  }

  /** Line 191: `collection_base_url + f'?pageno={i}'`. */
  function ListingUrl(collection: string, page: nat): string
  {
    CollectionBaseUrl(collection) + "?pageno=" + DecimalString(page)
  }

  /** The listing URLs of pages 1 to `n` of one collection, in order. */
  function PageUrls(collection: string, n: nat): (urls: seq<string>)
    ensures |urls| == n
  {
    if n == 0 then [] else PageUrls(collection, n - 1) + [ListingUrl(collection, n)]
  }

  /** The listing URLs of the collections `cs`, in the order of the loops. */
  function CollectionUrls(cs: seq<string>): (urls: seq<string>)
    ensures |urls| == LastPage * |cs|
  {
    if cs == [] then [] else CollectionUrls(cs[..|cs| - 1]) + PageUrls(cs[|cs| - 1], LastPage)
  }

  function ListingUrls(): seq<string>
  {
    CollectionUrls(Collections)
  }

  /** `watch_links` grown by `extend` over the listing pages `urls`. */
  function LinksFrom(urls: seq<string>, listing: string -> seq<Anchor>): seq<string>
  {
    if urls == [] then [] else LinksFrom(urls[..|urls| - 1], listing) + ItemLinks(listing(urls[|urls| - 1]))
  }

  /** Lines 182-194: the nested loops over the collections and their pages. */
  method CollectLinks(collections: seq<string>, listing: string -> seq<Anchor>) returns (watchLinks: seq<string>)
    ensures watchLinks == LinksFrom(CollectionUrls(collections), listing)
  {
    watchLinks := [];
    for k := 0 to |collections|
      invariant watchLinks == LinksFrom(CollectionUrls(collections[..k]), listing)
    {
      var collection := collections[k];
      var baseUrl := CollectionBaseUrl(collection);
      var done := CollectionUrls(collections[..k]);
      assert done + PageUrls(collection, 0) == done;
      for i := 1 to LastPage + 1
        invariant watchLinks == LinksFrom(done + PageUrls(collection, i - 1), listing)
      {
        var url := baseUrl + "?pageno=" + DecimalString(i);
        var itemLinks := ExtractItemLinks(listing(url));
        NextPage(done, collection, i, listing);
        watchLinks := watchLinks + itemLinks;
      }
      NextCollection(collections, k);
    }
    assert collections[..|collections|] == collections;
  }

  /** One more page of the current collection. */
  lemma NextPage(done: seq<string>, collection: string, i: nat, listing: string -> seq<Anchor>)
    requires 1 <= i
    ensures LinksFrom(done + PageUrls(collection, i), listing) ==
              LinksFrom(done + PageUrls(collection, i - 1), listing) + ItemLinks(listing(ListingUrl(collection, i)))
  {
    assert done + PageUrls(collection, i) == (done + PageUrls(collection, i - 1)) + [ListingUrl(collection, i)];
    LinksFromSnoc(done + PageUrls(collection, i - 1), ListingUrl(collection, i), listing);
  }

  /** One more collection. */
  lemma NextCollection(collections: seq<string>, k: nat)
    requires k < |collections|
    ensures CollectionUrls(collections[..k + 1]) == CollectionUrls(collections[..k]) + PageUrls(collections[k], LastPage)
  {
    assert collections[..k + 1][..k] == collections[..k];
  }

  lemma LinksFromSnoc(urls: seq<string>, url: string, listing: string -> seq<Anchor>)
    ensures LinksFrom(urls + [url], listing) == LinksFrom(urls, listing) + ItemLinks(listing(url))
  {
    assert (urls + [url])[..|urls|] == urls;
  }

  /** Line 197: `list(set(watch_links))`. The order a Python set iterates in
      is not specified, so the next link is any one not yet taken. */
  method Dedup(links: seq<string>) returns (unique: seq<string>)
    ensures NoDup(unique)
    ensures forall l :: l in unique <==> l in links
    ensures |unique| == |set l | l in links|
  {
    var remaining := set l | l in links;
    unique := [];
    while remaining != {}
      invariant forall l :: l in links <==> l in unique || l in remaining
      invariant forall l :: l in unique ==> l !in remaining
      invariant NoDup(unique)
      decreases |remaining|
    {
      var l :| l in remaining;
      unique := unique + [l];
      remaining := remaining - {l};
    }
    NoDupCard(unique);
    assert (set l | l in unique) == (set l | l in links);
  }

  // ---------------------------------------------------------------------------
  // One row per product link (lines 203-225)

  /** Line 207. */
  function DetailUrl(link: string): string
  {
    SiteRoot + link
  }

  /** Why a run ends without writing a table: the exception of
      `extract_watch_data` on one product page, or the `KeyError` of
      `results_df['Price']` on a frame without columns. */
  datatype RunError = ExtractFailed(url: string, cause: ExtractError) | NoPriceColumn

  const BaseKeys: seq<string> := ["URL", "Model", "Reference Code", "Price"]

  /** Lines 213-218. */
  function BaseEntry(url: string, r: RawRecord): Dict
  {
    [("URL", url), ("Model", r.model), ("Reference Code", r.referenceCode), ("Price", r.price)]
  }

  /** `watch_entry` after the flattening loop of lines 221-222. */
  function EntryOf(url: string, r: RawRecord): Dict
  {
    PutAll(BaseEntry(url, r), r.specifications)
  }

  /** Lines 213-222: the base keys, then every specification assigned in turn. */
  method BuildEntry(url: string, w: WatchRecord) returns (entry: Dict)
    ensures entry == EntryOf(url, w.Value())
  {
    entry := [("URL", url), ("Model", w.model), ("Reference Code", w.referenceCode), ("Price", w.price)];
    ghost var base := entry;
    assert base == BaseEntry(url, w.Value());
    var specs := w.specifications;
    for i := 0 to |specs|
      invariant entry == PutAll(base, specs[..i])
    {
      PutAllStep(base, specs, i);
      var specKey, specValue := specs[i].0, specs[i].1;
      entry := Put(entry, specKey, specValue);
    }
    assert specs[..|specs|] == specs;
  }

  /** The row one product page yields, or the error that ends the run. */
  function RowOf(url: string, page: DetailPage): Result<Dict, RunError>
  {
    match ExtractSpec(page)
    case Err(e) => Err(ExtractFailed(url, e))
    case Ok(r) => Ok(EntryOf(url, CleanRecord(r)))
  }

  /** The row (or the error) of one product link. */
  function LinkRow(detail: string -> DetailPage, link: string): Result<Dict, RunError>
  {
    RowOf(DetailUrl(link), detail(DetailUrl(link)))
  }

  function LinkRows(detail: string -> DetailPage): string -> Result<Dict, RunError>
  {
    link => LinkRow(detail, link)
  }

  /** `watch_results` after the loop over `links`, or the first error, for
      the row function `row`. */
  function Rows(links: seq<string>, row: string -> Result<Dict, RunError>): Result<seq<Dict>, RunError>
  {
    if links == [] then Ok([])
    else
      match Rows(links[..|links| - 1], row)
      case Err(e) => Err(e)
      case Ok(rows) =>
        match row(links[|links| - 1])
        case Err(e) => Err(e)
        case Ok(r) => Ok(rows + [r])
  }

  /** Lines 203-225: extract, clean and flatten each product page in turn. */
  method ProcessLinks(links: seq<string>, detail: string -> DetailPage) returns (res: Result<seq<Dict>, RunError>)
    ensures res == Rows(links, LinkRows(detail))
  {
    var watchResults: seq<Dict> := [];
    for i := 0 to |links|
      invariant Rows(links[..i], LinkRows(detail)) == Ok(watchResults)
    {
      var url := DetailUrl(links[i]);
      NextLink(links, i, detail, watchResults);
      var watchData := ExtractWatchData(detail(url));
      if watchData.Err? {
        RowsAfterError(links, i + 1, LinkRows(detail));
        return Err(ExtractFailed(url, watchData.error));
      }
      var cleaned := CleanWatchData(watchData.value);
      var entry := BuildEntry(url, cleaned);
      watchResults := watchResults + [entry];
    }
    assert links[..|links|] == links;
    res := Ok(watchResults);
  }

  /** One more link: its row is appended, or its error ends the loop. */
  lemma NextLink(links: seq<string>, i: nat, detail: string -> DetailPage, rows: seq<Dict>)
    requires i < |links| && Rows(links[..i], LinkRows(detail)) == Ok(rows)
    ensures Rows(links[..i + 1], LinkRows(detail)) ==
              match LinkRow(detail, links[i])
              case Err(e) => Err(e)
              case Ok(r) => Ok(rows + [r])
  {
    assert links[..i + 1][..i] == links[..i];
  }

  /** Once a link fails, the run fails with that error. */
  lemma {:induction false} RowsAfterError(links: seq<string>, i: nat, row: string -> Result<Dict, RunError>)
    requires i <= |links| && Rows(links[..i], row).Err?
    ensures Rows(links, row) == Rows(links[..i], row)
  {
    if i < |links| {
      var init := links[..|links| - 1];
      assert init[..i] == links[..i];
      RowsAfterError(init, i, row);
    } else {
      assert links[..i] == links;
    }
  }

  // ---------------------------------------------------------------------------
  // The final table (lines 231-234)

  predicate IsPriced(entry: Dict)
  {
    Get(entry, "Price") != Some(NA)
  }

  /** `results_df[results_df['Price'] != 'N/A']`, row by row. */
  function KeepPriced(rows: seq<Dict>): seq<Dict>
  {
    Filter(rows, IsPriced)
  }

  /** The table written out, or the `KeyError` of a run that found nothing. */
  function FinalTable(rows: seq<Dict>): Result<seq<Dict>, RunError>
  {
    if rows == [] then Err(NoPriceColumn) else Ok(KeepPriced(rows))
  }

  function RunResult(links: seq<string>, detail: string -> DetailPage): Result<seq<Dict>, RunError>
  {
    match Rows(links, LinkRows(detail))
    case Err(e) => Err(e)
    case Ok(rows) => FinalTable(rows)
  }

  /** `scrape_watchfinder` up to the CSV file: returns the de-duplicated links
      it visited and the table it would write. */
  method ScrapeWatchfinder(listing: string -> seq<Anchor>, detail: string -> DetailPage)
    returns (links: seq<string>, result: Result<seq<Dict>, RunError>)
    ensures NoDup(links)
    ensures forall l :: l in links <==> l in LinksFrom(ListingUrls(), listing)
    ensures result == RunResult(links, detail)
  {
    var watchLinks := CollectLinks(Collections, listing);
    links := Dedup(watchLinks);
    var watchResults := ProcessLinks(links, detail);
    if watchResults.Err? {
      return links, Err(watchResults.error);
    }
    result := FinalTable(watchResults.value);
  }

  // ---------------------------------------------------------------------------
  // Properties

  lemma {:induction false} PageUrlsMembers(collection: string, n: nat, u: string)
    ensures u in PageUrls(collection, n) <==> exists p :: 1 <= p <= n && u == ListingUrl(collection, p)
  {
    if n > 0 {
      PageUrlsMembers(collection, n - 1, u);
    }
  }

  lemma {:induction false} CollectionUrlsMembers(cs: seq<string>, u: string)
    ensures u in CollectionUrls(cs) <==>
              exists c, p :: c in cs && 1 <= p <= LastPage && u == ListingUrl(c, p)
  {
    if cs != [] {
      var init, last := cs[..|cs| - 1], cs[|cs| - 1];
      CollectionUrlsMembers(init, u);
      PageUrlsMembers(last, LastPage, u);
      if exists c, p :: c in cs && 1 <= p <= LastPage && u == ListingUrl(c, p) {
        var c, p :| c in cs && 1 <= p <= LastPage && u == ListingUrl(c, p);
        if c != last {
          assert c in init by {
            var j :| 0 <= j < |cs| && cs[j] == c;
            assert init[j] == c;
          }
        }
      }
    }
  }

  /** The run visits the 30 listing pages: pages 1 to 5 of each of the six
      collections. */
  lemma ListingUrlsSpec(u: string)
    ensures |ListingUrls()| == 30
    ensures u in ListingUrls() <==> exists c, p :: c in Collections && 1 <= p <= 5 && u == ListingUrl(c, p)
  {
    CollectionUrlsMembers(Collections, u);
  }

  /** A link is collected exactly when one of the listing pages yields it. */
  lemma {:induction false} LinksFromMembers(urls: seq<string>, listing: string -> seq<Anchor>, l: string)
    ensures l in LinksFrom(urls, listing) <==> exists u :: u in urls && l in ItemLinks(listing(u))
  {
    if urls != [] {
      var init, last := urls[..|urls| - 1], urls[|urls| - 1];
      LinksFromMembers(init, listing, l);
      if exists u :: u in urls && l in ItemLinks(listing(u)) {
        var u :| u in urls && l in ItemLinks(listing(u));
        if u != last {
          var j :| 0 <= j < |urls| && urls[j] == u;
          assert init[j] == u;
        }
      }
    }
  }

  /** The de-duplicated links are exactly the product links of the 30
      listing pages, each once. */
  lemma CollectedLinks(links: seq<string>, listing: string -> seq<Anchor>, l: string)
    requires forall x :: x in links <==> x in LinksFrom(ListingUrls(), listing)
    ensures l in links <==>
              exists c, p :: c in Collections && 1 <= p <= 5 && l in ItemLinks(listing(ListingUrl(c, p)))
  {
    LinksFromMembers(ListingUrls(), listing, l);
    if l in links {
      var u :| u in ListingUrls() && l in ItemLinks(listing(u));
      ListingUrlsSpec(u);
    }
    if exists c, p :: c in Collections && 1 <= p <= 5 && l in ItemLinks(listing(ListingUrl(c, p))) {
      var c, p :| c in Collections && 1 <= p <= 5 && l in ItemLinks(listing(ListingUrl(c, p)));
      ListingUrlsSpec(ListingUrl(c, p));
    }
  }

  /** Every row starts with the four base columns, in order, and a
      specification never removes one. */
  lemma EntryKeysStart(url: string, r: RawRecord)
    ensures BaseKeys <= Keys(EntryOf(url, r))
  {
    BaseEntryKeys(url, r);
    PutAllKeysPrefix(BaseEntry(url, r), r.specifications);
  }

  lemma BaseEntryKeys(url: string, r: RawRecord)
    ensures Keys(BaseEntry(url, r)) == BaseKeys
    ensures DistinctKeys(BaseEntry(url, r))
    ensures Get(BaseEntry(url, r), "Price") == Some(r.price)
  {
    var base := BaseEntry(url, r);
    KeysAt(base);
    assert DistinctKeys(base);
    GetSpec(base, "Price");
    assert base[3].0 == "Price";
  }

  /** A specification label overrides the base column of the same name;
      every other column keeps its base value. */
  lemma EntryGet(url: string, r: RawRecord, k: string)
    requires DistinctKeys(r.specifications)
    ensures Get(EntryOf(url, r), k) ==
              if Get(r.specifications, k).Some? then Get(r.specifications, k) else Get(BaseEntry(url, r), k)
  {
    PutAllGet(BaseEntry(url, r), r.specifications, k);
    LastValueOfDict(r.specifications, k);
  }

  /** Every row has a Price column. */
  lemma EntryHasPrice(url: string, r: RawRecord)
    ensures Get(EntryOf(url, r), "Price").Some?
  {
    EntryKeysStart(url, r);
    var keys := Keys(EntryOf(url, r));
    assert keys[3] == BaseKeys[3] == "Price";
    assert "Price" in keys;
    KeysMembership(EntryOf(url, r), "Price");
  }

  /** A product link fails exactly when its page lacks an element the
      extractor dereferences; otherwise its row is the cleaned record
      flattened under its URL. */
  lemma LinkRowSpec(detail: string -> DetailPage, link: string)
    ensures var url := DetailUrl(link);
      var page := detail(url);
      && (LinkRows(detail)(link).Err? <==> ExtractSpec(page).Err?)
      && (ExtractSpec(page).Err? ==> LinkRows(detail)(link).error == ExtractFailed(url, ExtractSpec(page).error))
      && (ExtractSpec(page).Ok? ==> LinkRows(detail)(link).value == EntryOf(url, CleanRecord(ExtractSpec(page).value)))
  {
  }

  lemma RowsSnoc(links: seq<string>, row: string -> Result<Dict, RunError>)
    requires links != []
    ensures var init, last := links[..|links| - 1], links[|links| - 1];
      Rows(links, row) ==
        if Rows(init, row).Err? then Rows(init, row)
        else if row(last).Err? then Err(row(last).error)
        else Ok(Rows(init, row).value + [row(last).value])
  {
  }

  /** The run fails exactly when the row of some link fails. */
  lemma {:induction false} RowsErr(links: seq<string>, row: string -> Result<Dict, RunError>)
    ensures Rows(links, row).Err? <==> exists i :: 0 <= i < |links| && row(links[i]).Err?
  {
    if links != [] {
      var init := links[..|links| - 1];
      RowsErr(init, row);
      RowsSnoc(links, row);
      if exists i :: 0 <= i < |init| && row(init[i]).Err? {
        var i :| 0 <= i < |init| && row(init[i]).Err?;
        assert links[i] == init[i];
      }
      if exists i :: 0 <= i < |links| && row(links[i]).Err? {
        var i :| 0 <= i < |links| && row(links[i]).Err?;
        if i < |init| {
          assert init[i] == links[i];
        }
      }
    }
  }

  /** A run that does not fail yields one row per link, in order. */
  lemma {:induction false} RowsOk(links: seq<string>, row: string -> Result<Dict, RunError>)
    requires Rows(links, row).Ok?
    ensures |Rows(links, row).value| == |links|
    ensures forall i :: 0 <= i < |links| ==> row(links[i]).Ok? && Rows(links, row).value[i] == row(links[i]).value
  {
    if links != [] {
      var init := links[..|links| - 1];
      RowsSnoc(links, row);
      RowsOk(init, row);
      forall i | 0 <= i < |links|
        ensures row(links[i]).Ok? && Rows(links, row).value[i] == row(links[i]).value
      {
        if i < |init| {
          assert init[i] == links[i];
        }
      }
    }
  }

  /** The error of a failed run is that of the first failing link. */
  lemma RowsFirstError(links: seq<string>, row: string -> Result<Dict, RunError>, j: nat)
    requires j < |links| && row(links[j]).Err?
    requires forall i :: 0 <= i < j ==> row(links[i]).Ok?
    ensures Rows(links, row) == Err(row(links[j]).error)
  {
    var prefix := links[..j + 1];
    assert prefix[..j] == links[..j];
    RowsErr(links[..j], row);
    assert forall i :: 0 <= i < j ==> links[..j][i] == links[i];
    RowsSnoc(prefix, row);
    RowsAfterError(links, j + 1, row);
  }

  /** The table keeps exactly the rows whose Price is not `N/A`, in
      processing order, each as often as it was produced. */
  lemma KeepPricedSpec(rows: seq<Dict>, e: Dict)
    ensures IsSubseq(KeepPriced(rows), rows)
    ensures e in KeepPriced(rows) <==> e in rows && Get(e, "Price") != Some(NA)
    ensures multiset(KeepPriced(rows))[e] == if IsPriced(e) then multiset(rows)[e] else 0
  {
    FilterIsSubseq(rows, IsPriced);
    FilterMultiplicity(rows, IsPriced, e);
  }

  /** A run that writes a table visited at least one product page and got a
      row from each; the table holds exactly the priced rows, in order. A run
      without any product link fails on the missing `Price` column. */
  lemma RunTable(links: seq<string>, detail: string -> DetailPage, e: Dict)
    requires RunResult(links, detail).Ok?
    ensures Rows(links, LinkRows(detail)).Ok?
    ensures var rows := Rows(links, LinkRows(detail)).value;
      var table := RunResult(links, detail).value;
      && |rows| == |links| > 0
      && IsSubseq(table, rows)
      && (e in table <==> e in rows && IsPriced(e))
  {
    var rows := Rows(links, LinkRows(detail)).value;
    RowsOk(links, LinkRows(detail));
    KeepPricedSpec(rows, e);
  }

  /** The Price column of a row holds the record's price when no
      specification is labelled `Price`. */
  lemma PriceColumn(url: string, r: RawRecord)
    requires DistinctKeys(r.specifications) && Get(r.specifications, "Price").None?
    ensures Get(EntryOf(url, r), "Price") == Some(r.price)
  {
    EntryGet(url, r, "Price");
    BaseEntryKeys(url, r);
  }

  /** The price a product page ends up with after cleaning. */
  lemma RowPrice(url: string, page: DetailPage)
    requires ExtractSpec(page).Ok?
    requires Get(CleanSpecs(ExtractSpec(page).value.specifications), "Price").None?
    ensures RowOf(url, page).Ok?
    ensures Get(RowOf(url, page).value, "Price") == Some(CleanPrice(SelectPrice(page.priceSpan, page.discountSpan)))
  {
    var raw := ExtractSpec(page).value;
    assert raw.price == SelectPrice(page.priceSpan, page.discountSpan);
    var r := CleanRecord(raw);
    assert r.specifications == CleanSpecs(raw.specifications);
    CleanSpecsDistinct(raw.specifications);
    PriceColumn(url, r);
  }

  /** A product page with neither price span gives a row the table drops,
      unless one of its specification labels is `Price`. */
  lemma NoPriceDropped(url: string, page: DetailPage)
    requires ExtractSpec(page).Ok? && page.priceSpan.None? && page.discountSpan.None?
    requires Get(CleanSpecs(ExtractSpec(page).value.specifications), "Price").None?
    ensures RowOf(url, page).Ok? && !IsPriced(RowOf(url, page).value)
  {
    RowPrice(url, page);
    NoSpanPrice(page.priceSpan, page.discountSpan);
  }

  /** A product page priced `$5,200` gives a row with Price `5200`, which the
      table keeps, unless one of its specification labels is `Price`. */
  lemma DollarPriceKept(url: string, page: DetailPage)
    requires ExtractSpec(page).Ok? && page.priceSpan == Some("$5,200")
    requires Get(CleanSpecs(ExtractSpec(page).value.specifications), "Price").None?
    ensures RowOf(url, page).Ok? && Get(RowOf(url, page).value, "Price") == Some("5200")
    ensures IsPriced(RowOf(url, page).value)
  {
    RowPrice(url, page);
    DollarSpanPrice(page.priceSpan, page.discountSpan);
  }
}
