# ScrapMonster automotive-yard scraper, modelled in Dafny

This project models the listing-extraction heuristic of the ScrapMonster
automotive-yard scraper (`scraper.py`), together with the layout of the
spreadsheet it exports. The model runs over an abstract parsed page. An
element has:
- a tag;
- the tokens of its `class` attribute;
- its own text;
- its child elements.

BeautifulSoup's queries are modelled over this page:
- `find` is the first matching element strictly below a node, in document
  (pre-)order;
- `find_all` is every matching element below a node, in that order;
- `get_text(strip=True)` is the stripped text pieces concatenated.

Class filters of the form `lambda x: x and kw in str(x).lower()` hold when
some class token, lower-cased, contains the keyword.

Modules:
- `Text`: Python's `str.strip()` (with `str.isspace()`'s full set of
  whitespace characters), `lower()`, the substring test `in`, and
  `', '.join`.
- `Dom`: the page, `find`, `find_all` and `get_text(strip=True)`.
- `Fields`: the field extractor of `_extract_single_listing`:
  - the ordered fallback chain of each field;
  - the address synthesized from street/city/state/zip parts;
  - the company filter.
- `Containers`: the three container strategies of `extract_listings`, and
  the record collector that keeps the non-`None` results in container
  order.
- `Layout`: the exported grid:
  - the header row;
  - one row per record, from row 2;
  - column widths `min(longest cell + 2, 50)`.
- `Scraper`: the `ScrapMonsterScraper` object:
  - its `url` and its `listings` field;
  - the imperative `extract_listings`, `_extract_single_listing`, `scrape`
    and `export_to_excel`.

  Each method is proved equal to the specification function of the
  modules above.

Every `or` chain selects the first element that is **found**, not the first
with non-empty text, because a BeautifulSoup tag is always truthy. An empty
`<h2>` therefore empties Company and drops the record, even when a later
candidate has text. One might expect an empty match to fall through to the
next candidate; the code does not, and the model follows the code.

The third location rule (`span` with a class containing "location") can
never be reached. The first rule already finds any such element
(`LocationSpanRuleUnreachable`).

When the fetch fails, `scrape` returns no records and leaves the remembered
`listings` as they were. It does not reset them. The model keeps this.

## Model

| member | source | states |
|---|---|---|
| Text.StripStart | scraper.py:125 | the result never starts with a whitespace character |
| Text.StripStartSpec | scraper.py:125 | lstrip removes only a leading run of whitespace and keeps the rest of the string unchanged |
| Text.StripEnd | scraper.py:125 | the result never ends with a whitespace character |
| Text.StripEndSpec | scraper.py:125 | rstrip removes only a trailing run of whitespace and keeps the rest unchanged |
| Text.Strip | scraper.py:125 | a stripped string has no whitespace at either end |
| Text.StripSpec | scraper.py:125 | strip keeps exactly the slice of the input framed by whitespace on both sides, starting where lstrip's result starts |
| Text.TrimmedConcat | scraper.py:125 | two strings trimmed at both ends concatenate to a trimmed string |
| Text.Lower | scraper.py:64-67 | lower-casing keeps the length |
| Text.LowerNoCapitals | scraper.py:64-67 | lower-casing leaves a string without capitals unchanged |
| Text.LowerIdempotent | scraper.py:64-67 | lower-casing twice equals lower-casing once |
| Text.ContainsAt | scraper.py:64-67 | Python's `kw in s` holds exactly when kw occurs at some index of s |
| Text.ContainsPrefix | scraper.py:148-149 | a string that contains a keyword contains every prefix of it |
| Text.Join | scraper.py:166 | joining a single part gives that part |
| Text.JoinSnoc | scraper.py:163-166 | joining one more part appends the separator and that part, in the order the parts were collected |
| Text.JoinTrimmed | scraper.py:165-166 | joining non-empty trimmed parts gives a trimmed string |
| Text.JoinNonEmpty | scraper.py:165-166 | joining parts of which one is non-empty gives a non-empty string |
| Dom.GetText | scraper.py:125 | `get_text(strip=True)` never starts or ends with whitespace |
| Dom.ForestText | scraper.py:125 | the concatenated stripped text of a list of elements is trimmed |
| Dom.ClassHasSpec | scraper.py:63-68 | a class filter holds exactly when some class token, lower-cased, contains the keyword |
| Dom.ClassHasIgnoresCase | scraper.py:63-68 | class tokens that lower-case alike match the same keywords |
| Dom.ClassHasOfLowered | scraper.py:63-68 | lower-casing the class tokens before filtering does not change the match |
| Dom.FirstMatch | scraper.py:117-122 | what `find` picks from a run of elements is one of them and matches the query |
| Dom.Find | scraper.py:117-122 | what `find` returns lies strictly below the node and matches the query |
| Dom.FindAll | scraper.py:63-68 | `find_all` never returns more elements than lie below the node |
| Dom.FirstMatchSpec | scraper.py:117-122 | `find` returns nothing exactly when no element below matches; otherwise it returns a matching element with no match before it in document order |
| Dom.FirstMatchAt | scraper.py:117-122 | conversely, a matching element with no earlier match is what `find` returns |
| Dom.Filter | scraper.py:63-68 | `find_all` never returns more elements than there are below the node |
| Dom.FilterSpec | scraper.py:63-68 | `find_all` returns matching elements from below the node, and includes every one of them |
| Dom.FilterAppend | scraper.py:63-68 | `find_all` keeps document order: filtering two runs of elements concatenates their results |
| Dom.FirstMatchIsFirstOfFilter | scraper.py:117 | `find` returns the first element of what `find_all` returns with the same query, or nothing when that is empty |
| Fields.Resolve | scraper.py:116-150 | what an `or` chain of finds yields lies below the container |
| Fields.FieldText | scraper.py:124-125 | a field's text is trimmed, being `get_text(strip=True)` of the found element or "" |
| Fields.SynthesizedAddress | scraper.py:155-166 | the synthesized address is trimmed |
| Fields.AddressText | scraper.py:147-166 | the Address field is trimmed, whether found or synthesized |
| Fields.ListingOf | scraper.py:97-172 | a produced record has non-empty Company, and all four fields are trimmed |
| Fields.ResolveSpec | scraper.py:116-123 | an `or` chain of finds yields nothing exactly when every query finds nothing; otherwise it yields what the k-th query finds, where every earlier query finds nothing |
| Fields.TextsSnoc | scraper.py:156-162 | the texts of one more part element are the earlier texts followed by its text |
| Fields.Distinct | scraper.py:155-164 | the collected address parts are never more than the part texts |
| Fields.DistinctSpec | scraper.py:155-164 | the address parts are non-empty, pairwise distinct and taken from the texts, and include every non-empty text |
| Fields.DistinctSnoc | scraper.py:163-164 | one loop step appends a text exactly when it is non-empty and not yet among the parts |
| Fields.Without | scraper.py:163 | removing a text keeps exactly the other texts |
| Fields.WithoutAppend | scraper.py:163 | removing a text from a concatenation removes it from both parts |
| Fields.FirstOccurrencesSnoc | scraper.py:155-164 | the first-occurrence reference grows by a new non-empty text, and by nothing else |
| Fields.DistinctIsFirstOccurrences | scraper.py:155-164 | the loop's parts are the non-empty texts at their first occurrence, in document order |
| Fields.CompanyFilter | scraper.py:107-172 | a record is produced exactly when Company is non-empty; each field is its chain's text |
| Fields.CompanyFromFirstFound | scraper.py:116-125 | Company is the stripped text of the element found by the first company query that finds one, even when that text is empty; the record exists iff that text is non-empty |
| Fields.EmptyHeadingDropsRecord | scraper.py:116-125 | an empty `h2` drops the record, whatever later candidates hold |
| Fields.NoCompanyElementNoRecord | scraper.py:124-125 | when no company query finds anything there is no record |
| Fields.OptionalFieldsDefault | scraper.py:107-112 | Location, YardBrief and Address default to "" when nothing is found, and the record is still produced |
| Fields.AddressMatchIsAddrMatch | scraper.py:148-149 | every element with an "address" class also has an "addr" class |
| Fields.SynthesisExactlyWithoutAddr | scraper.py:147-153 | the address is synthesized exactly when no element below has a class containing "addr" |
| Fields.SynthesizedAddressShape | scraper.py:155-166 | the synthesized address is the distinct non-empty part texts, in order of first occurrence, joined by ", "; it is "" iff every part text is empty |
| Fields.LocationSpanRuleUnreachable | scraper.py:128-132 | the location chain gives the same result without its third rule |
| Fields.PhoenixExample | scraper.py:155-166 | part texts Phoenix, AZ, Phoenix give "Phoenix, AZ" |
| Containers.Locate | scraper.py:63-76 | there are never more containers than elements below the page |
| Containers.DropHeaderRow | scraper.py:72 | `rows[1:]` is every row but the first, and nothing when there are no rows |
| Containers.FindAllNonEmpty | scraper.py:71 | `find_all` is non-empty exactly when some element below matches |
| Containers.DivStrategyWins | scraper.py:63-76 | when a div with a listing/yard/company/item class exists, exactly those divs are the containers |
| Containers.RowStrategy | scraper.py:70-76 | otherwise, the containers are all table rows but the first; with at most one row they are the article/section elements |
| Containers.ContainersFromDocument | scraper.py:63-76 | every container is below the page and matched by one of the three strategy queries |
| Containers.Results | scraper.py:80-82 | the i-th result is the extractor's result for the i-th container |
| Containers.Present | scraper.py:83-84 | only present results are kept, each taken from the input, never more than the input |
| Containers.Collect | scraper.py:80-88 | at most one record per container, each with non-empty Company |
| Containers.CollectFromContainers | scraper.py:80-84 | every collected record is the extractor's record for some container |
| Containers.PresentAppend | scraper.py:80-84 | keeping present results commutes with concatenation |
| Containers.CollectAppend | scraper.py:80-88 | the records of two runs of containers are those of the first followed by those of the second |
| Containers.CollectSnoc | scraper.py:82-84 | one more container appends its record if it has one |
| Containers.CollectStep | scraper.py:80-84 | one collector iteration extends the records of the first i containers by container i's record, if any |
| Containers.CollectOne | scraper.py:82-84 | one container yields its record, or nothing when the extractor returns None |
| Layout.Row | scraper.py:219-223 | a data row has one cell per header |
| Layout.ColumnWidth | scraper.py:235 | a column width lies between 2 and 50 |
| Layout.SheetFor | scraper.py:212-236 | the sheet has the header row first, one row more than there are records, and one width per header |
| Layout.Grid | scraper.py:212-223 | the grid has one row more than there are records, each row four cells |
| Layout.ColumnMaxSpec | scraper.py:226-234 | the longest-cell length is at least every cell's length in the column and equals some cell's length |
| Layout.ColumnWidths | scraper.py:226-236 | there is one width per header column |
| Layout.GridPlacement | scraper.py:212-223 | row 1 is the header; record i is in row i + 2 with its fields in header order |
| Layout.WidthBounds | scraper.py:225-236 | every width is `min(longest cell + 2, 50)`: within [header length + 2, 50], at least `min(len + 2, 50)` for every cell, below 50 exactly some cell's length + 2, and 50 only when some cell's length + 2 reaches 50 |
| Scraper.ScrapMonsterScraper.constructor | scraper.py:18-29 | the scraper keeps its URL and starts with no records |
| Scraper.ScrapMonsterScraper.LocateContainers | scraper.py:63-76 | the strategy cascade yields exactly the located containers |
| Scraper.ScrapMonsterScraper.ExtractListings | scraper.py:58-95 | the loop returns exactly the collected records of the located containers |
| Scraper.ScrapMonsterScraper.ExtractSingleListing | scraper.py:97-172 | the method, including its address-part loop, returns exactly the extractor's result |
| Scraper.ScrapMonsterScraper.Scrape | scraper.py:174-186 | with a page, the listings become the extracted records and are returned; on a failed fetch, [] is returned and the listings are unchanged |
| Scraper.ScrapMonsterScraper.ExportToExcel | scraper.py:195-236 | nothing is written exactly when there are no records; otherwise the sheet is the header plus record grid with the computed widths |

## Left out

- `fetch_page`: the HTTP request, the User-Agent headers, the timeout and HTML parsing. `Scrape` receives the parsed page, or None for a failed fetch.
- openpyxl styling (fonts and fills), the sheet title, the file name and `wb.save`. The model produces the abstract grid and widths only.
- All `print` and stderr output.
- The `except Exception` handlers. The modelled extraction and layout are total, so these handlers never fire in the model.
- `main`: the hard-coded URL and the process exit status.
- Interleaving of text and children: `get_text` takes an element's own text before its children's texts. Text between or after child elements is not modelled separately.
- Text.Lower: lower-cases ASCII capitals only. Python's `lower()` also maps other letters, but this cannot change whether a keyword matches. Two non-ASCII capitals lower to an ASCII letter. The Kelvin sign lowers to `k`, which no keyword contains. The dotted capital I lowers to `i` followed by a combining dot, and no keyword has a character after `i` that could match that dot.
- BeautifulSoup's extra test of the space-joined class value: no keyword contains a space, so that test never matches where no single token does.
- `example.py`: a demonstration driver with no logic of its own. Its two-card sample page is not encoded as a concrete lemma.
