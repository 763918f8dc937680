# OLX × FIPE search page, modelled in Dafny

The search page looks for used-car listings on OLX that cost at most a price
ceiling. The ceiling is the FIPE reference value minus a margin. This project
models the pure logic of `streamlit_app.py` and proves properties about it:

- **Price parser** (`parse_preco`, module `Price`). Turns a price tag such as
  "R$ 32.000" into a whole number. It drops the dots and joins every digit
  run into one numeral. Absent or empty text, text with no digit, and a
  numeral longer than CPython's `int()` limit (4300 digits) all give `None`.
- **Listing cleanup** (the end of `extrair_anuncios`, module `Ads`). Drops a
  card that has no address, or that has neither a title nor a price text.
  Then it keeps the first card for each address.
- **Search address** (`montar_url`, modules `SearchUrl` and `Quote`). The
  category page, then an optional "/state[/city]" path, then
  `?q=<quote_plus(model)>&sf=1&pe=<ceiling>`. The page parameter `&o=<page>`
  is added only after page 1. `quote_plus` is modelled in full: UTF-8
  encoding, `%XX` escapes, a space written as '+', and ASCII letters, digits
  and "_.-~" left as they are.
- **Result table** (source lines 40 and 157-170, module `Results`). This code
  is written as a function of the collected records. It computes the
  ceiling `max(0, fipe − margem)`, removes duplicate addresses, applies the
  price mask, and sorts by price. Records without a price get the sort key
  `10**12`.

`Wrappers` (Option/Result), `Text` (ASCII character classes, `strip`,
`lower`, `replace`, digit extraction) and `Numerals` (`int(...)` of a digit
string and `str(...)` of an integer) are shared helpers.

A ",cc" fraction is appended to the digits, not rounded: "R$ 32.000,50"
reads as 3200050 (`Price.ParseCentsAppends`).

## Model

| member | source | states |
|---|---|---|
| Price.ParsePrice | streamlit_app.py:49-61 | `None` exactly when the text is absent, has no digit, or has more digits than `int()` accepts. Otherwise the result is non-negative and equals the numeral spelled by all the digits, in order. |
| Price.ParseFormatRoundTrip | streamlit_app.py:49-59 | Parsing the tag written for n ("R$ " plus n grouped by dots) gives back n. |
| Price.ParseCentsAppends | streamlit_app.py:53-58 | A ",cc" decimal part is appended, not rounded: the result is n·100 + cc. |
| Price.NoPriceIff | streamlit_app.py:50-61 | A present text gives `None` if and only if it has no digit character, or more digits than `int()` accepts. |
| Price.ParseExampleWhole | streamlit_app.py:49-59 | "R$ 32.000" parses to 32000. |
| Price.ParseExampleCents | streamlit_app.py:49-59 | "R$ 32.000,50" parses to 3200050. |
| Ads.MakeAd | streamlit_app.py:85 | A new record keeps the title, price text and address it was given. Its numeric price is `parse_preco` of the price text. It is present exactly when the text has between 1 and 4300 digits, and it then equals the value of those digits. |
| Ads.KeepUsable | streamlit_app.py:98 | Every kept record is usable: it has an address, and a title or a price text. A record is kept if and only if it is usable. |
| Ads.KeepUsableAppend | streamlit_app.py:98 | Filtering works record by record, so the kept records stay in input order. |
| Ads.Dedup | streamlit_app.py:99-105 | Output addresses are pairwise distinct, and the output has exactly the input's set of addresses. |
| Ads.DedupKeepsFirst | streamlit_app.py:99-105 | Each output record is the first input record with its address, and the output follows the order of those first occurrences. |
| Ads.DedupOfDistinct | streamlit_app.py:99-105 | Input with distinct addresses is returned unchanged, so deduplication is idempotent. |
| Ads.DedupLoop | streamlit_app.py:99-105 | The `seen`/`uniq` loop computes exactly `Dedup`. |
| Ads.Cleanup | streamlit_app.py:97-105 | Every returned record is usable. Addresses are distinct. Every address of a usable input record is present. Each returned record is the first usable record with its address, and they come in the order of those first occurrences. |
| Quote.QuotePlus | streamlit_app.py:116 | The encoded term uses only safe characters, '+' and '%', so it cannot contain '?', '&', '=', '#', '/' or a space. Its length is between 1 and 12 times the input length. |
| Quote.UnquoteQuotePlus | streamlit_app.py:116 | Decoding the encoded term gives exactly the UTF-8 bytes of the model name. |
| Text.Strip | streamlit_app.py:110-111 | `strip()` and `strip("/")` keep one contiguous run of the text, starting right after the removed prefix. The kept run neither starts nor ends with a character that is stripped. |
| Text.StripRemoves | streamlit_app.py:110-111 | Every character dropped before or after the kept run is one that is stripped: white space, or one of the given characters. With `Text.Strip`, this fixes the result exactly. |
| SearchUrl.SegmentShape | streamlit_app.py:110-115 | A path segment starts where trimming white space and then slashes stops, and is exactly as long as what that trimming keeps. Each character is the raw one lower-cased, with a space turned into '-'. The segment has no space and no upper-case letter, and does not start or end with '/'. |
| SearchUrl.RegionPathLevels | streamlit_app.py:109-115 | Reading the path back: split at '/', it gives an empty first field, then the state's segment, then the city's segment only when both are given. A city without a state leaves no path. This holds when neither segment has a '/' of its own. |
| SearchUrl.InnerSlashAddsLevel | streamlit_app.py:110-115 | `strip("/")` trims only the ends. So for any two plain names e and c, the state "e/c" alone gives the same path as state e with city c. |
| SearchUrl.ParseBuildUrl | streamlit_app.py:107-119 | Splitting the address at its last '?' recovers the base plus the region path. The query then holds exactly q, sf=1, pe=`str(teto)` and, only past page 1, o=`str(page)`. This is the model's own last-'?' reader, not a standard URL parser. |
| SearchUrl.FirstQuestionMarkMisreads | streamlit_app.py:109-119 | The region names are not encoded. When the state's segment holds a '?', a reader that splits at the first '?' (section 3.4 of RFC 3986) starts the query inside the path, before the real one. |
| SearchUrl.PageParamIffPastFirst | streamlit_app.py:117-118 | The page parameter is present if and only if page > 1, and it carries the page number. |
| Results.Ceiling | streamlit_app.py:40 | The ceiling is non-negative, at least fipe − margem, and equal to one of 0 or fipe − margem. |
| Results.FilterAndSort | streamlit_app.py:157-170 | Output addresses are distinct. Every numeric price is ≤ the ceiling. A price-less row appears only when such rows are included. The output is sorted ascending by price key and is a permutation of the deduplicated, masked rows. |
| Results.FilterAndSortMembers | streamlit_app.py:158-166 | A record is in the table if and only if it is the one kept for its address and it passes the mask. |
| Results.PricelessLast | streamlit_app.py:168-170 | When the ceiling is below 10**12, every priced row comes before every price-less row. |
| Results.PricedAboveKeyLast | streamlit_app.py:169-170 | For any ceiling, every row priced above 10**12 sorts after every price-less row. |
| Results.PricelessNotLastAboveKey | streamlit_app.py:169-170 | Example: with ceiling 3·10**12, a row priced 2·10**12 and a price-less row come out price-less first, so the priced-rows-first order of `PricelessLast` needs its ceiling bound. |
| Results.SameKeys | streamlit_app.py:169-170 | Any two orders of the same rows that are both sorted by the key have the same sequence of keys. Only rows with equal keys can differ in place. |
| Results.FilterAndSortRebuild | streamlit_app.py:157-170 | Building the table again from its own output gives the same rows with the same sequence of sort keys. Rows with equal keys may come back in another order, since pandas' sort is not stable. |
| Results.FilterAndSortAsWritten | streamlit_app.py:158-161 | As written: with no collected row the script raises `KeyError('preco_num')`. Otherwise it produces the table. |
| Results.EmptyCollectionRaises | streamlit_app.py:158-161 | An empty collection gives `KeyError('preco_num')`. |
| Results.EmptyCollectionEmptyTable | streamlit_app.py:172-174 | Corrected: no row in, an empty table out, which leads to the "nothing found" message. |

## Left out

- `fetch` (lines 121-132): network requests, retries, pauses and
  User-Agent rotation are I/O.
- Card extraction from HTML (lines 65-95): it uses BeautifulSoup. The raw
  record list is an input to `Ads.Cleanup`. Only the record constructor
  (`Ads.MakeAd`, line 85) is modelled.
- The page-collection loop and the empty-model check (lines 136-156): Streamlit
  control flow around `fetch`. The collected rows are an input to
  `Results.FilterAndSort`.
- Widgets, progress bar, table display, CSV download and the ceiling's
  display format (lines 23-38, 41, 134, 172-199): user interface and
  serialisation.
- Price.ParsePrice: treats only ASCII '0'-'9' as digits. Python's `\d` and
  `int()` also accept other Unicode decimal digits. The 4300-digit `int()` limit is
  CPython's default from 3.11.0 and from the security releases 3.10.7,
  3.9.14, 3.8.14 and 3.7.14. Only interpreters older than those have no
  limit.
- SearchUrl.SegmentShape: `strip()` is ASCII-only (space, \t, \n, \r, \v,
  \f, \x1c-\x1f), and `lower()` maps only 'A'-'Z'. Python's Unicode rules
  are broader.
- Results.Ceiling: FIPE value and margin are integers. The source reads
  floats, and `int(teto)` truncates them.
- Results.FilterAndSort: when some record has no price, pandas holds the
  price column as floats, and prices above 2**53 can then lose precision. So the "at most the ceiling"
  guarantee and the sort order are stated for exact integers only.
- Results.FilterAndSort: pandas' default sort is not stable. The model uses
  insertion sort (stable), but its contract promises only sortedness and
  permutation, which any valid order satisfies. For the same reason
  `Results.FilterAndSortRebuild` compares key sequences, not rows.
- Brand/model/year matching, price-catalog lookups and margin ranking are
  not part of this model; that code is not in `streamlit_app.py`.

## Findings

| source | as written | input that shows it | evidently intended | confidence | as-written member | corrected member |
|---|---|---|---|---|---|---|
| streamlit_app.py:158-161 | `pd.DataFrame(all_rows)` of an empty list has no columns. `drop_duplicates` returns it unchanged, and `df["preco_num"]` then raises `KeyError` | every page fails to load, or no page has a listing card, so `all_rows == []` | an empty table and the "Nenhum anúncio encontrado" message (lines 173-174) | not executed; high | Results.FilterAndSortAsWritten, Results.EmptyCollectionRaises | Results.FilterAndSort, Results.EmptyCollectionEmptyTable |

The region segments are not percent-encoded, and `strip("/")` leaves a '/'
inside a name in place. A state name such as "sp/campinas" therefore reads
as two path levels (`SearchUrl.InnerSlashAddsLevel`). A name containing '?'
or '#' also changes the query the server receives. `ParseBuildUrl` only
shows that the model's own reader, which splits at the last '?', inverts the
builder. Section 3.4 of RFC 3986 starts the query at the first '?'. With
the state "a?b", a standard parser starts the query at that '?', so the
server reads `b?q=…` and no `q` parameter
(`SearchUrl.FirstQuestionMarkMisreads`). Everything after a '#' is a
fragment (section 3.5 of RFC 3986), which a client does not send, so a state
such as "sp#x" leaves the request without q, sf or pe. The model does not
state the '#' case as a lemma.
