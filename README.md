# Watchfinder scraper record pipeline in Dafny

This project models the record pipeline of the Tag Heuer watch-listing scraper
in `src/watchfinder_scraper.py`:

- `clean_text`, the four-step text normaliser. Whole-word `MM` becomes `mm`,
  whole-word `metres` becomes `m`, carriage returns and line feeds are deleted,
  then whitespace runs collapse to one space and the ends are trimmed.
- `clean_watch_data`, which cleans a scraped record in place.
- The second `extract_watch_data`, which reads Model, Reference Code, Price and
  the specification table from a product page.
- `extract_item_links`, which picks the product links out of a listing page.
- The run assembled by `scrape_watchfinder`. It collects links from 6
  collections × 5 listing pages, de-duplicates them, then extracts, cleans and
  flattens one row per product page. Finally it drops the rows whose Price is
  `N/A`.

The modules are:

- `Text`: `clean_text` and its steps. `\b…\b` is described through `Runs`, the
  maximal runs of word characters.
- `TextExamples`: worked inputs, including the one on which `clean_text` is not
  idempotent.
- `Dicts`: Python dicts as association lists in insertion order. Assigning to an
  existing key keeps its position; a new key is appended.
- `WatchRecords`: the record and `clean_watch_data`.
- `Extract`: the parsed product page and `extract_watch_data`.
- `Links`: `extract_item_links`.
- `Scrape`: `scrape_watchfinder` up to the table it would write.
- `Seqs` and `Wrappers`: small generic helpers.

Parsed HTML is a plain datatype. A `DetailPage` holds the results of the
element lookups; a listing page is its sequence of `Anchor`s.

The browser and the HTTP client are parameters of `Scrape.ScrapeWatchfinder`:
`listing` maps a listing URL to its anchors, and `detail` maps a product URL to
its page. Objects the code updates in place are classes with methods:

- the record dict (`WatchRecords.WatchRecord`);
- loops that grow lists and dicts (`ExtractItemLinks`, `ExtractSpecifications`,
  `CleanSpecsLoop`, `CollectLinks`, `BuildEntry`, `ProcessLinks`).

Each such method is proved equal to a specification function, and the
properties are proved about those functions.

The model follows the code, including behaviour a reader of the code may not
expect:

- A specification label loses every `:`, not just a trailing one (line 155).
- A missing `meta` element or a missing specification `div` or table raises
  (lines 135, 136, 148); only a missing `content` attribute gives `N/A`. The
  model returns an `ExtractError`, and the run stops with it, because nothing
  in `scrape_watchfinder` catches it.
- The discount span is also read when the primary span exists but its text is
  literally `N/A` (line 143).
- The price is not checked for digits: only `$` and `,` are deleted, so `£5,200`
  becomes `£5200`.
- A run that produces no rows gives a frame without a `Price` column, and
  `results_df['Price']` raises a `KeyError` (line 234). This is the
  `NoPriceColumn` error.
- A specification labelled `Price` overwrites the entry's Price column
  (line 222), and the `N/A` filter then looks at that value.
- `clean_text` is not idempotent. `"M\nM"` cleans to `"MM"`, which cleans to
  `"mm"`, because line breaks are deleted after the `MM` rule has run. It is
  idempotent on input without line breaks.

## Model

| member | source | states |
|---|---|---|
| Text.Strip | src/watchfinder_scraper.py:58 | `.strip()`: the result is the slice of the input between its leading and trailing whitespace, and it neither starts nor ends with whitespace |
| Text.ReplaceWordRuns | src/watchfinder_scraper.py:52-54 | `re.sub(r'\bw\b', r, s)` maps the word runs of `s`: every run equal to `w` becomes `r`, every other run is kept, in order |
| Text.ReplaceWordAbsent | src/watchfinder_scraper.py:52-54 | a whole-word substitution leaves a string that has no run equal to the word unchanged |
| Text.ReplaceWordChars | src/watchfinder_scraper.py:52-54 | a whole-word substitution introduces no character outside the input and the replacement |
| Text.ReplaceMMPointwise | src/watchfinder_scraper.py:52 | the `MM` rule keeps the length and changes a character only by lowering an `M` to `m` |
| Text.WithoutMembers | src/watchfinder_scraper.py:56 | deleting a set of characters keeps exactly the characters outside the set |
| Text.WithoutAppend | src/watchfinder_scraper.py:56 | deleting characters distributes over concatenation |
| Text.WithoutAbsent | src/watchfinder_scraper.py:56 | deleting characters the string does not hold changes nothing |
| Text.RemoveLineBreaksOfPlain | src/watchfinder_scraper.py:56 | deleting `\r` and `\n` leaves a string without line breaks unchanged |
| Text.CollapseIsCollapsed | src/watchfinder_scraper.py:58 | after `re.sub(r'\s+', ' ', s)` every whitespace character is a plain space and no two are adjacent |
| Text.CollapseOfCollapsed | src/watchfinder_scraper.py:58 | collapsing a collapsed string changes nothing |
| Text.CollapseRuns | src/watchfinder_scraper.py:58 | collapsing whitespace keeps every word run |
| Text.StripRuns | src/watchfinder_scraper.py:58 | stripping keeps every word run |
| Text.StripOfTrimmed | src/watchfinder_scraper.py:58 | stripping a string with no whitespace at its ends changes nothing |
| Text.CleanTextShape | src/watchfinder_scraper.py:55-58 | the output of `clean_text` has no `\r` or `\n`, no leading or trailing whitespace, and no two consecutive whitespace characters |
| Text.CleanTextRuns | src/watchfinder_scraper.py:50-59 | on input without line breaks, the output's word runs are the input's runs with whole-word `MM` lowered and whole-word `metres` shortened |
| Text.CleanTextIsClean | src/watchfinder_scraper.py:50-59 | on input without line breaks the output is collapsed, trimmed and has no whole-word `MM` or `metres` |
| Text.CleanTextFixpoint | src/watchfinder_scraper.py:50-59 | such a clean string is a fixed point of `clean_text` |
| Text.CleanTextOnlyLowersMM | src/watchfinder_scraper.py:52-58 | on collapsed, trimmed text without a whole-word `metres`, `clean_text` only applies the `MM` rule |
| Text.CleanTextIdempotent | src/watchfinder_scraper.py:50-59 | `clean_text` is idempotent on input without `\r` or `\n` |
| TextExamples.CleanTextOfWords | src/watchfinder_scraper.py:52-58 | on words joined by single spaces, none of them `metres`, exactly the words equal to `MM` are lowered |
| TextExamples.CleanCaseSize | src/watchfinder_scraper.py:52 | `"41 MM case"` cleans to `"41 mm case"` |
| TextExamples.CleanWord | src/watchfinder_scraper.py:50-59 | a single word other than `MM` and `metres` cleans to itself |
| TextExamples.KeepsEmbeddedMM | src/watchfinder_scraper.py:52 | `"COMMENT"` and `"41MM"` are unchanged: `MM` inside a longer word is not a whole word |
| TextExamples.CleanMM | src/watchfinder_scraper.py:52 | `"MM"` cleans to `"mm"` |
| TextExamples.CleanSplitMM | src/watchfinder_scraper.py:50-59 | `"M\nM"` cleans to `"MM"`: the line break hides the word from the `MM` rule |
| TextExamples.NotIdempotentAcrossLineBreaks | src/watchfinder_scraper.py:50-59 | cleaning `"M\nM"` twice differs from cleaning it once |
| Dicts.Put | src/watchfinder_scraper.py:73 | `d[k] = v`: afterwards `k` maps to `v` and every other key keeps its value; the key order is unchanged for an existing key and `k` is appended otherwise |
| Dicts.PutAllGet | src/watchfinder_scraper.py:221-222 | after a run of assignments a key holds the value of its last assignment, or its old value when none assigned it |
| Dicts.PutAllKeysPrefix | src/watchfinder_scraper.py:221-222 | assignments never drop or reorder existing keys: the old keys stay a prefix |
| Dicts.PutAllDistinct | src/watchfinder_scraper.py:221-222 | assignments keep every key unique |
| WatchRecords.WatchRecord.constructor | src/watchfinder_scraper.py:160-165 | the new record object holds the given Model, Reference Code, Price and Specifications |
| WatchRecords.WatchRecord.Assign | src/watchfinder_scraper.py:62-75 | overwriting the four keys leaves the object holding exactly the new values |
| WatchRecords.CleanWatchData | src/watchfinder_scraper.py:48-77 | `clean_watch_data` returns the same object it was given, now holding the cleaned Model and Reference Code, the cleaned Price without `$` and `,`, and the cleaned specification map |
| WatchRecords.CleanSpecsLoop | src/watchfinder_scraper.py:69-73 | the loop's `cleaned_specs` is the specification map with every key and value cleaned, assigned in order |
| WatchRecords.CleanSpecsStep | src/watchfinder_scraper.py:70-73 | one more entry assigns its cleaned value under its cleaned key |
| WatchRecords.CleanSpecsGet | src/watchfinder_scraper.py:69-73 | a cleaned label holds the cleaned value of the last entry whose label cleans to it, and a label no entry cleans to is absent |
| WatchRecords.CleanSpecsDistinct | src/watchfinder_scraper.py:69-75 | the cleaned specification map has no label twice |
| WatchRecords.CleanPriceChars | src/watchfinder_scraper.py:64-66 | the cleaned price holds no `$` and no `,`, and every other character of the cleaned text is kept |
| WatchRecords.CleanPriceOfClean | src/watchfinder_scraper.py:64-66 | a clean price without `$` or `,` is its own cleaned form |
| WatchRecords.CleanPriceNA | src/watchfinder_scraper.py:64-66 | the placeholder `"N/A"` cleans to `"N/A"` |
| WatchRecords.RunsPrice | src/watchfinder_scraper.py:52-54 | in a price written as a sign, digits, a comma and digits, the word runs are the two digit groups |
| WatchRecords.DropSeparators | src/watchfinder_scraper.py:66 | deleting `$` and `,` from such a price leaves the sign's remains followed by the digits |
| WatchRecords.CleanPriceGrouped | src/watchfinder_scraper.py:64-66 | such a price cleans to the sign's remains followed by the joined digits |
| WatchRecords.CleanPriceDollars | src/watchfinder_scraper.py:64-66 | `"$5,200"` cleans to `"5200"` |
| WatchRecords.CleanPricePounds | src/watchfinder_scraper.py:64-66 | `"£5,200"` cleans to `"£5200"`: other currency signs are kept |
| Extract.ExtractSpec | src/watchfinder_scraper.py:133-167 | extraction fails exactly when a `meta` element, the specification `div` or its table is missing, with the error of the first failing lookup; otherwise Model and Reference Code are the `content` attributes, or `N/A` when those are absent |
| Extract.ExtractWatchData | src/watchfinder_scraper.py:133-167 | `extract_watch_data` fails exactly when the specification says so, with the same error; otherwise it returns a fresh record object holding the specified record |
| Extract.ExtractSpecifications | src/watchfinder_scraper.py:149-157 | the loop over the table rows builds the specification map |
| Extract.SpecDictSnoc | src/watchfinder_scraper.py:152-157 | a row with two cells assigns its stripped value under its label; any other row changes nothing |
| Extract.SpecDictStep | src/watchfinder_scraper.py:152-157 | the loop step for row `i`: a two-cell row assigns its label, any other row changes nothing |
| Extract.SelectPriceSpec | src/watchfinder_scraper.py:139-145 | Price is `N/A` exactly when both spans give `N/A`; a primary span whose stripped text is not `N/A` wins; otherwise a price other than `N/A` is the stripped discount span; the price is trimmed |
| Extract.NoSpanPrice | src/watchfinder_scraper.py:139-145 | a page with neither price span has the cleaned price `N/A` |
| Extract.DollarSpanPrice | src/watchfinder_scraper.py:139-145 | a primary span `"$5,200"` gives the cleaned price `"5200"`, whatever the discount span |
| Extract.IgnoresOtherRows | src/watchfinder_scraper.py:154 | a row whose cell count is not two adds nothing |
| Extract.SpecDictGet | src/watchfinder_scraper.py:152-157 | a label is present exactly when some two-cell row carries it, and it holds the stripped value of the last such row |
| Extract.SpecDictDistinct | src/watchfinder_scraper.py:149-157 | the specification map has no label twice |
| Extract.LabelsHaveNoColon | src/watchfinder_scraper.py:155 | no specification label contains `:` |
| Extract.MissingSectionRaises | src/watchfinder_scraper.py:148 | a page without the specification `div` fails with `MissingSpecSection` |
| Links.ExtractItemLinks | src/watchfinder_scraper.py:80-101 | the loop returns the item links of the anchors |
| Links.ItemLinksSnoc | src/watchfinder_scraper.py:96-99 | one more anchor appends its `href` exactly when it has one containing `/item/` |
| Links.ContainsSpec | src/watchfinder_scraper.py:98 | `'/item/' in href` is substring search: it holds exactly when the part occurs at some position |
| Links.HrefsMembers | src/watchfinder_scraper.py:93-97 | the `href`s are exactly those of the anchors that carry one |
| Links.ItemLinksMembers | src/watchfinder_scraper.py:93-101 | a link is returned exactly when it contains `/item/` and is the `href` of some anchor |
| Links.ItemLinksInOrder | src/watchfinder_scraper.py:96-99 | the links keep document order: they are a subsequence of all `href`s |
| Links.ItemLinksCount | src/watchfinder_scraper.py:96-99 | duplicates are kept: a product link occurs as often as among the `href`s |
| Links.ItemLinksLength | src/watchfinder_scraper.py:96-101 | the number of links is the number of anchors whose `href` contains `/item/` |
| Scrape.DecimalString | src/watchfinder_scraper.py:191 | `str(i)` is a non-empty string of decimal digits |
| Scrape.DecimalRoundTrip | src/watchfinder_scraper.py:191 | the page number written into a listing URL reads back as that number |
| Scrape.PageUrls | src/watchfinder_scraper.py:190-191 | one listing URL per page |
| Scrape.CollectionUrls | src/watchfinder_scraper.py:186-191 | five listing URLs per collection |
| Scrape.PageUrlsMembers | src/watchfinder_scraper.py:190-191 | the page URLs of a collection are exactly those of pages 1 to n |
| Scrape.CollectionUrlsMembers | src/watchfinder_scraper.py:186-191 | the listing URLs are exactly those of the given collections and pages 1 to 5 |
| Scrape.ListingUrlsSpec | src/watchfinder_scraper.py:172-191 | there are 30 listing URLs, exactly those of the six collections and pages 1 to 5 |
| Scrape.CollectLinks | src/watchfinder_scraper.py:182-194 | the nested loops gather the item links of every listing page in loop order |
| Scrape.LinksFromSnoc | src/watchfinder_scraper.py:193-194 | one more page extends the links with that page's item links |
| Scrape.NextPage | src/watchfinder_scraper.py:190-194 | the inner-loop step: page `i` of a collection extends the links with the item links of its listing URL |
| Scrape.NextCollection | src/watchfinder_scraper.py:186-191 | the outer-loop step: one more collection adds its five page URLs |
| Scrape.LinksFromMembers | src/watchfinder_scraper.py:186-194 | a link is gathered exactly when it is an item link of some visited page |
| Scrape.Dedup | src/watchfinder_scraper.py:197 | `list(set(...))` has no repeats, holds exactly the links it was given, and is as long as the set of them |
| Scrape.CollectedLinks | src/watchfinder_scraper.py:186-197 | after de-duplication a link is present exactly when it is an item link of one of the 30 listing pages |
| Scrape.BuildEntry | src/watchfinder_scraper.py:213-222 | the entry is the four base keys followed by every specification assigned in turn |
| Scrape.BaseEntryKeys | src/watchfinder_scraper.py:213-218 | the base entry has keys URL, Model, Reference Code and Price, once each, and Price holds the record's price |
| Scrape.EntryKeysStart | src/watchfinder_scraper.py:213-222 | flattening never drops or reorders the base keys |
| Scrape.EntryGet | src/watchfinder_scraper.py:213-222 | a key of the entry holds the specification's value when one is labelled so, else the base value |
| Scrape.EntryHasPrice | src/watchfinder_scraper.py:213-222 | every entry has a Price column |
| Scrape.PriceColumn | src/watchfinder_scraper.py:217-222 | the Price column holds the record's price when no specification is labelled `Price` |
| Scrape.LinkRowSpec | src/watchfinder_scraper.py:206-222 | a link yields an error exactly when extraction of its page fails, carrying the URL and cause; otherwise its row is the flattened cleaned record |
| Scrape.ProcessLinks | src/watchfinder_scraper.py:203-225 | the loop over the links returns the rows in link order, or the first error |
| Scrape.RowsSnoc | src/watchfinder_scraper.py:206-225 | one more link appends its row, unless an earlier link or this one failed |
| Scrape.NextLink | src/watchfinder_scraper.py:206-225 | the loop step for link `i`: its row is appended, or its error ends the loop |
| Scrape.RowsAfterError | src/watchfinder_scraper.py:209 | once a link fails, the run fails with that error |
| Scrape.RowsErr | src/watchfinder_scraper.py:206-225 | the loop fails exactly when some link fails |
| Scrape.RowsOk | src/watchfinder_scraper.py:206-225 | a loop that does not fail gives one row per link, in link order |
| Scrape.RowsFirstError | src/watchfinder_scraper.py:206-225 | the error is the one of the first failing link |
| Scrape.KeepPricedSpec | src/watchfinder_scraper.py:234 | the table keeps exactly the rows whose Price is not `N/A`, in order, each as often as it was produced |
| Scrape.RunTable | src/watchfinder_scraper.py:231-234 | a run that writes a table had at least one link and one row per link; the table is exactly its priced rows, in order |
| Scrape.RowPrice | src/watchfinder_scraper.py:207-222 | without a specification labelled `Price`, a row's Price is the cleaned selected price |
| Scrape.NoPriceDropped | src/watchfinder_scraper.py:234 | a page with neither price span gives a row that the filter drops |
| Scrape.DollarPriceKept | src/watchfinder_scraper.py:234 | a page whose price span reads `"$5,200"` gives a row with Price `"5200"` that the filter keeps |
| Scrape.ScrapeWatchfinder | src/watchfinder_scraper.py:171-234 | the visited links have no repeats and are exactly the item links of the 30 listing pages; the result is the filtered table of their rows, or the error that ends the run |

## Left out

- Network and browser I/O are not modelled. This covers `url_to_soup`, `requests.get`, `SeleniumSoupMaker` with its headless Chrome and `time.sleep`, and HTML parsing. The pages they return are the parameters `listing` and `detail` of `Scrape.ScrapeWatchfinder`.
- No resource-release property is claimed. The browser is not closed when an exception escapes the link-collection loop.
- Progress output (`print`), `os.makedirs` and the CSV file are not modelled.
- The pandas frame is not modelled. Its column union, column order and `NaN` cells are left out: the table is the sequence of row dicts that survive the Price filter.
- The first definition of `extract_watch_data` (lines 17-46) is not modelled. It is shadowed by the second one and never called.
- `IsWordChar` covers ASCII `\w` only; Python's `\w` also matches non-ASCII letters and digits. `IsSpace` is the full Python whitespace set.
- Scrape.CollectLinks: takes the collection names as a parameter; `ScrapeWatchfinder` passes the six names of lines 172-179.
- Scrape.Dedup: states which links come out but not their order, because the iteration order of a Python set is not specified.
- WatchRecords.CleanWatchData: does not model the `.get(…, 'N/A')` and `.get('Specifications', {})` defaults for missing keys, because `extract_watch_data` always produces all four keys.
- Exceptions other than the missing-element lookups of `extract_watch_data` and the `KeyError` on an empty frame are left out.
