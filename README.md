# Alfamart Jabodetabek dashboard: the record pipeline

`tubes.py` is a Streamlit dashboard that scrapes a table of Alfamart stores, turns each table
row into a store record (name, address, city), keeps the stores of the five Jabodetabek cities
and lets the user search them by name or address. This project models that record pipeline in
Dafny and proves what it guarantees:

- **Row extraction** (`fetch_data`, tubes.py lines 25-53). The header row is skipped. Rows
  with fewer than three cells are ignored. Every other row becomes a record, in row order.
  The row loop is the method `Records.CollectRecords`, proved against the function `Records.Extract`.
- **City token** (lines 39-41). The address is split on commas and each part is stripped.
  One part is picked by position. Python's `re.sub(r'\s*\d+.*$', '', ...)` then cuts the
  postal code, and the result is stripped again. The regular expression is modelled exactly (with `\d` read as ASCII digits),
  including the rule that `.` does not cross a newline and that `$` also matches before a final newline.
- **Normalization** (lines 43-48). The first of `jakarta`, `bogor`, `depok`, `tangerang` and
  `bekasi` contained in the lower-cased token selects the canonical city name. A token that
  contains none of them is kept as it is.
- **Region filter** (line 60). It keeps the records whose city contains one of the five names,
  ignoring case.
- **Search** (lines 64-68). An empty query shows everything. Otherwise it keeps the records
  whose name or address contains the query, ignoring case.

Files:

- `wrappers.dfy`: `Option` and `Result`.
- `text.dfy`: Python's `str.isspace`, `strip`, `lower`, `in`, `split` and `join`.
- `city.dfy`: the city token and its normalization.
- `records.dfy`: records, the fetch outcome and the row loop.
- `filters.dfy`: the region filter, the search and the empty-table finding.
- `samples.dfy`: the derivation worked out on concrete addresses.

A token that matches none of the five names has no placeholder value: a token such as
`Surabaya` stays in the record as it is, and the region filter on line 60 drops it
(`City.NormalizeNoHit`, `Samples.NormalizeSurabaya`, `Filters.RegionFilterKeepsCanonical`).

## Model

| member | source | states |
|---|---|---|
| Text.TrimLeft | tubes.py:35-36 | `lstrip` removes a prefix made only of whitespace, and what remains does not start with whitespace |
| Text.TrimRight | tubes.py:35-36 | `rstrip` removes a suffix made only of whitespace, and what remains does not end with whitespace |
| Text.Trim | tubes.py:35-41 | `str.strip()`, `lstrip` then `rstrip`; see `TrimShape` (what it keeps) and `TrimExact` (that nothing else is kept) |
| Text.TrimShape | tubes.py:35-36 | `strip` leaves a contiguous piece of the input, only whitespace is cut on either side, and the piece neither starts nor ends with whitespace |
| Text.TrimExact | tubes.py:39 | conversely, if only whitespace lies outside `s[a..b]` and that piece has no whitespace at its ends, `strip` returns exactly that piece |
| Text.TrimIdempotent | tubes.py:39-41 | stripping an already stripped segment changes nothing |
| Text.TrimAppendSpaces | tubes.py:41 | whitespace appended to a string disappears under `strip` |
| Text.TrimDropTrailingSpaces | tubes.py:41 | cutting a string just before a whitespace-only stretch instead of after it does not change the stripped result |
| Text.Lower | tubes.py:43 | `lower` keeps the length, leaves no upper-case ASCII letter, and each character equals the input's character up to case |
| Text.LowerUnique | tubes.py:43 | any string of the same length without upper-case letters that agrees with the input up to case is the input's `lower` |
| Text.LowerIdempotent | tubes.py:43 | lower-casing twice is lower-casing once |
| Text.LowerIgnoresCase | tubes.py:43 | two strings that differ only in case have the same `lower` |
| Text.Contains | tubes.py:44-48 | Python's `key in token`; see `ContainsIff`, which equates it with an occurrence at some index |
| Text.ContainsIff | tubes.py:44-48 | the left-to-right scan for `key in token` holds exactly when the key occurs at some index of the token |
| Text.ContainsChar | tubes.py:44-48 | every character of a contained string occurs in the containing string |
| Text.ContainsNoLonger | tubes.py:60 | no string contains a longer one |
| Text.ContainsSelf | tubes.py:60 | every string contains itself |
| Text.Split | tubes.py:39 | `split(',')` yields at least one part, and no part holds a comma |
| Text.SplitCount | tubes.py:39 | the number of parts is the number of commas plus one |
| Text.Join | tubes.py:39 | the comma join that undoes `split`; see `JoinSplit` and `SplitJoin` |
| Text.JoinSplit | tubes.py:39 | joining the parts with the separator gives back the address |
| Text.SplitJoin | tubes.py:39 | splitting comma-joined, comma-free parts gives back exactly those parts |
| City.Segments | tubes.py:39 | at least one segment and one per comma-separated part, in order; no segment holds a comma or starts or ends with whitespace, and each is its part stripped |
| City.TrimPart | tubes.py:39 | stripping a part that holds no comma leaves a piece without a comma and without whitespace at either end |
| City.PickIndex | tubes.py:40 | the picked position is always a valid index for the segment count, so the choice on line 40 never fails |
| City.SkipSpaces | tubes.py:41 | `\s*` takes the whole whitespace run and stops at the first non-whitespace character |
| City.LeftmostMatch | tubes.py:41 | the search returns the leftmost index where `\s*\d+.*$` matches, or reports that it matches nowhere |
| City.StripDigitTail | tubes.py:41 | `re.sub(r'\s*\d+.*$', '', segment)`: cut at the leftmost match, keeping a final newline that `$` matched before; see `StripNoDigit`, `CutBeforeSpaceRun` and `DigitStrip` |
| City.FirstDigit | tubes.py:41 | the index of the first digit: no digit before it, and a digit at it unless the string has none |
| City.SpaceRunStart | tubes.py:41 | the start of the whitespace run that ends at a given index |
| City.LeftmostMatchIs | tubes.py:41 | a match at `i` with none before it is what the leftmost search returns |
| City.NoMatchBeforeRun | tubes.py:41 | no match begins before the whitespace run that precedes the first digit |
| City.LeftmostMatchAtFirstDigit | tubes.py:41 | when nothing after the first digit stops `.*$`, the match begins at the whitespace run before the first digit |
| City.StripNoDigit | tubes.py:41 | a segment without digits passes through the substitution unchanged |
| City.CutBeforeSpaceRun | tubes.py:41 | on text without newlines, the substitution keeps exactly the text before the whitespace run that precedes the first digit |
| City.DigitStrip | tubes.py:41 | on text without newlines, the token is the stripped text before the first digit, and it contains no digit |
| City.TrimKeepsNoDigit | tubes.py:41 | stripping a text without digits leaves a text without digits |
| City.CityToken | tubes.py:39-41 | the picked segment with its postal code cut and stripped; see `TokenPosition` and `DigitStrip` |
| City.TokenPosition | tubes.py:39-41 | for comma-free segments, the token comes from the only segment, from the second of two, or from the second-to-last of three or more |
| City.Normalize | tubes.py:43-48 | the result is one of the five canonical names, or the token itself when it contains none of the five keys |
| City.NormalizeFirstHit | tubes.py:43-48 | priority: the first key in the order jakarta, bogor, depok, tangerang, bekasi that the lower-cased token contains decides the city, whatever later keys it also contains |
| City.NormalizeNoHit | tubes.py:43-48 | a token containing none of the keys is returned unchanged |
| City.NormalizeIgnoresCase | tubes.py:43-48 | the key test ignores case: tokens differing only in case hit the same keys and, when one key hits, normalize to the same city |
| City.LowerCity | tubes.py:44-48 | each canonical name lower-cases to its own key |
| City.KeysDistinct | tubes.py:44-48 | no key occurs inside a key tested after it |
| City.CityHits | tubes.py:44-48 | a canonical name contains its own key and none of the keys tested before it |
| City.NormalizeCity | tubes.py:44-48 | each canonical name normalizes to itself |
| City.NormalizeIdempotent | tubes.py:44-48 | normalizing twice is normalizing once |
| City.CityOf | tubes.py:39-48 | the city of an address is a canonical name, or a raw token that contains none of the keys |
| Records.RowRecord | tubes.py:33-50 | the record of one row of three cells or more; see `RecordFields` and `ExtractCities` |
| Records.Body | tubes.py:29 | the rows after the header (`[1:]`); see `HeaderIgnored` and `TableLength` |
| Records.Extract | tubes.py:31-50 | at most one record per row |
| Records.Selected | tubes.py:32-34 | lists, in increasing order and without gaps, the positions of the rows with three cells or more |
| Records.SelectedNone | tubes.py:34 | rows that all have fewer than three cells select no position |
| Records.ExtractProvenance | tubes.py:32-50 | record `k` is built from the `k`-th row that has three cells or more |
| Records.CollectRecords | tubes.py:31-50 | the loop appending one record per row of three cells or more computes exactly the records of those rows, in order |
| Records.Dataset | tubes.py:51-53 | what `fetch_data` returns for a fetch outcome; see `FetchData`, `RecordSource` and `RegionFilterResult` |
| Records.FetchData | tubes.py:25-53 | a failed fetch yields the single error row (`Error Koneksi`, the message, `N/A`); otherwise the rows after the header go through the row loop |
| Records.TableLength | tubes.py:29-34 | there are never more records than rows after the header |
| Records.RecordSource | tubes.py:29-50 | each record comes from a row after the header with three cells or more, and records keep the order of their rows |
| Records.RecordFields | tubes.py:33-36 | a record's name is the stripped second cell of its row, and its address is the stripped third cell |
| Records.HeaderIgnored | tubes.py:29 | replacing the header row changes nothing in the dataset |
| Records.ExtractCities | tubes.py:39-50 | every record's city is the city derived from its own address |
| Filters.Filter | tubes.py:60 | a boolean-mask selection holds exactly the elements that satisfy the mask, and it is never longer than its input |
| Filters.FilterIsSubsequence | tubes.py:60 | a selection is an order-preserving subsequence of its input |
| Filters.FilterCount | tubes.py:66 | a selection keeps each selected element as many times as the input holds it, and holds nothing else |
| Filters.FilterCongruent | tubes.py:60 | two masks that agree on every element select the same elements |
| Filters.SubsequenceTransitive | tubes.py:60-68 | a selection of a selection is an order-preserving subsequence of the original |
| Filters.InRegion | tubes.py:60 | the case-insensitive five-name test of line 60; see `InRegionIffCanonical` |
| Filters.RegionFilter | tubes.py:60 | the region filter itself; see `RegionFilterKeepsCanonical` and `RegionFilterResult` |
| Filters.InRegionIffCanonical | tubes.py:44-60 | a normalized city passes the region test exactly when it is one of the five canonical names |
| Filters.RegionFilterKeepsCanonical | tubes.py:60 | on extracted records, the region filter is the same as keeping the records whose city is a canonical name |
| Filters.ErrorCityOutsideRegion | tubes.py:53-60 | `N/A` contains none of the five city names |
| Filters.RegionFilterResult | tubes.py:57-60 | the filtered dataset is an order-preserving subsequence, every city in it is exactly a canonical name, and a failed fetch leaves nothing |
| Filters.MatchesQuery | tubes.py:66 | the name-or-address test of the search; see `SearchResult` |
| Filters.Search | tubes.py:65-68 | the search itself; see `SearchEmptyQuery` and `SearchResult` |
| Filters.SearchEmptyQuery | tubes.py:65-68 | an empty query shows the dataset unchanged |
| Filters.SearchResult | tubes.py:65-66 | a non-empty query shows exactly the records whose name or address contains it ignoring case, in their order, as often as they occur and unmodified |
| Filters.Display | tubes.py:57-68 | the region filter followed by the search; see `DisplayResult` |
| Filters.DisplayResult | tubes.py:57-68 | every shown record is a dataset record, in dataset order, with a canonical city, and it matches the query when there is one |
| Filters.ToFrame | tubes.py:51 | `pd.DataFrame(data)`, with no columns when `data` is empty; see `EmptyTableRaises` |
| Filters.RegionFilterAsWritten | tubes.py:60 | line 60 as written on a frame, raising `KeyError` when the `Kota` column is missing; see `EmptyTableRaises`, `HeaderOnlyTableRaises` and `AsWrittenAgreesOtherwise` |
| Filters.EmptyTableRaises | tubes.py:51-60 | as written, a page whose table has no rows at all makes line 60 raise `KeyError: 'Kota'` |
| Filters.HeaderOnlyTableRaises | tubes.py:51-60 | as written, a table holding only its header row makes line 60 raise as well |
| Filters.AsWrittenAgreesOtherwise | tubes.py:51-60 | on a non-empty dataset, line 60 as written and the corrected filter give the same result |
| Filters.EmptyTableYieldsNoRecords | tubes.py:51-60 | corrected: a table without usable rows gives an empty selection instead of an error |
| Samples.NormalizeBekasiTimur | tubes.py:43-48 | `BEKASI TIMUR` normalizes to `Bekasi` |
| Samples.NormalizeSurabaya | tubes.py:43-48 | `Surabaya` is kept as it is |
| Samples.FourSegmentExample | tubes.py:39-48 | `Jl. A, Kec. B, Bekasi, 17510` gets the city `Bekasi` from its second-to-last segment |
| Samples.TwoSegmentToken | tubes.py:39-41 | `Jl. Mangga No. 5, Jakarta Selatan 12950` gets the token `Jakarta Selatan`, because the postal code is cut |
| Samples.TwoSegmentExample | tubes.py:39-48 | that address gets the city `Jakarta` |

## Left out

- The HTTP request, its headers, timeout and status check (tubes.py lines 20-27): network I/O. The outcome is an input to `Records.FetchData`, either the table rows or the text of the failure.
- The BeautifulSoup selector (lines 28-29): a foreign library. Its result is modelled as the cell texts of every table row, `seq<seq<string>>`.
- Exceptions other than a failed fetch: nothing in the modelled row loop can raise, so the `except` branch is reached only through the failure input.
- The `st.cache_data(ttl=3600)` cache (line 18): a time-based cache provided by the library.
- The Streamlit page, the bar chart and the folium map (lines 13-15, 56, 63-64, 70-101): presentation only.
- The random jitter of the map markers (lines 85-98): floating point and unseeded randomness.
- Filters.SearchResult: the query is treated as a literal substring. pandas reads it as a regular expression, so a query with metacharacters, or an invalid one, behaves differently in the source.
- Filters.InRegion: the alternation `Jakarta|Bogor|Depok|Tangerang|Bekasi` is modelled as "contains one of five literals", which is what that pattern matches.
- Text.Lower: only ASCII letters are lower-cased, and `\d` is taken to mean ASCII digits. Python lower-cases and matches all of Unicode.
- City.DigitStrip: it is stated for text without newlines. `City.StripDigitTail` itself models the newline rules in full, but the lemma does not cover addresses that contain newlines.
- pandas frames are modelled as sequences of records. The only frame detail kept is the column set that line 60 depends on (`Filters.Frame`).

## Findings

| source | as written | input that shows it | evidently intended | confidence | as-written member | corrected member |
|---|---|---|---|---|---|---|
| tubes.py:51-60 | `pd.DataFrame(data)` with an empty `data` has no columns. Line 60 is outside the `try`, so `df_raw['Kota']` raises `KeyError` and the page crashes | a page whose table has no body rows, or only its header row | an empty dataset, so an empty table and no crash | not executed | Filters.EmptyTableRaises | Filters.EmptyTableYieldsNoRecords |
