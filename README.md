# Certificate-acquisition dashboard: filter and aggregation engine

This project models the data core of the certificate-acquisition dashboard
(`dashboard.py`). The dashboard loads a table of certificate acquisitions,
one row per person: year, gender, age, birth year, region and certificate
type. It lets the user narrow the table in two ways: four multi-select
widgets (year, gender, region, certificate type) and a free-text search box.
It then summarises the rows that remain.

The model covers five parts:

- **Free-text parser** (`QueryParser`). `parse_search` splits the query on
  whitespace. Each token is matched against four vocabularies taken from the
  loaded data. `Tokens` models `str.split()` with Python's whitespace set.
  `ParseTokens` is the specification of the token loop, and the
  `ParseSearch` method is the loop itself, proved equal to it.
- **Selection state** (`SelectionState.FilterState`). The five session slots
  and the saved snapshot form a class. Its methods are the widgets, the
  reset, save and load buttons, and the search override, which runs on
  every pass of the page rather than on a click.
- **Filter** (`FilterEngine`). `ApplyFilter` narrows a copy of the table one
  dimension at a time, as the source does. It is proved equal to `Matching`,
  the order-preserving selection of rows that every non-empty selection
  admits. The table is a value, so the source table cannot change.
- **Counts** (`Counting`). This is one generic library for `value_counts()`
  (occurrence table, largest count first), `groupby(...).size()` (ascending
  keys), `.get(k, 0)` and `idxmax()`. Each table is characterised by
  `CountsOf`: distinct keys, each count equal to the key's multiplicity in
  the column, and every value of the column present.
- **Summaries** (`Aggregation`):
  - yearly counts and the peak year;
  - male and female counts and the exact female share;
  - the top region, and the region-coordinate key lookup behind the map;
  - the `age_group` brackets and their counts;
  - the top-5 certificate ranking with descriptions.

The female share is kept exact, as `Share(num, den)`, meaning `num / den`
percent.

Free text wins: every non-empty parsed dimension replaces that selection on
every pass (dashboard.py:180-188).

## Model

| member | source | states |
|---|---|---|
| QueryParser.Tokens | dashboard.py:153 | Every token is a non-empty run of non-whitespace characters; there are no tokens exactly when the query is empty or all whitespace (so `strip()` changes nothing). `TokensSplit` and `TokensJoin` pin the tokens down exactly |
| QueryParser.TokensSplit | dashboard.py:153 | A whitespace character splits the text: the tokens of `a + [c] + b` are the tokens of `a` followed by those of `b`, for every kind and run of separators; with `TokensJoin` of one word this determines `split()` on every input |
| QueryParser.WordLenExtend | dashboard.py:153 | A leading run of non-whitespace is not lengthened by text that starts with whitespace |
| QueryParser.WordLen | dashboard.py:153 | The length of the leading run of non-whitespace (0 when the text starts with whitespace): every character before it is non-whitespace, and the character at it, if any, is whitespace |
| QueryParser.TokensJoin | dashboard.py:153 | Splitting a single-space join of tokens gives those tokens back |
| QueryParser.WordLenOfWord | dashboard.py:153 | A token followed by whitespace or the end of the text is read back whole |
| QueryParser.ParseTokens | dashboard.py:155-163 | The four lists the token loop builds; specified by `ParseByDimension`, `ParseStrings`, `ParseYears` and `ParseDrawsFromData` |
| QueryParser.IsDigits | dashboard.py:156 | `tok.isdigit()` over ASCII digits; used by `ParseYears` |
| QueryParser.DigitsValue | dashboard.py:156 | `int(tok)` of an all-digit token; used by `ParseYears` and `ParseExample` |
| QueryParser.ParseSearch | dashboard.py:152-164 | The token loop's four lists are those of the parse specification applied to the query's tokens |
| QueryParser.ParseByDimension | dashboard.py:155-163 | The loop tests each dimension independently: each list is the tokens of that vocabulary in token order with repeats, and the year list is the values of the all-digit tokens that are years of the data |
| QueryParser.ParseBlank | dashboard.py:152-164 | An empty or whitespace-only query yields four empty lists |
| QueryParser.ParseStrings | dashboard.py:158-163 | A token is in the gender/region/certificate list if and only if it is a token of the query and in that vocabulary; its multiplicity equals its multiplicity among the tokens; each list is a subsequence of the tokens |
| QueryParser.ParseYears | dashboard.py:156-157 | A year is in the year list if and only if it is a year of the data and some all-digit token spells it |
| QueryParser.ParseDrawsFromData | dashboard.py:147-149 | With vocabularies built from a table, every parsed year, gender, region and certificate occurs in that table |
| QueryParser.ParseExample | dashboard.py:152-164 | "서울 2020 여성" parses to year [2020], gender ["여성"], region ["서울"], no certificate, when the vocabularies hold those values only in their own dimension |
| QueryParser.ParseUnknownYear | dashboard.py:156 | "9999" adds nothing at all when 9999 is not a year of the data and "9999" is not a gender, region or certification name |
| QueryParser.ParseUnknownYearNoYear | dashboard.py:156 | "9999" never becomes a year filter when 9999 is not a year of the data, whatever the string vocabularies hold |
| SelectionState.Override | dashboard.py:181-188 | Each non-empty parsed dimension replaces the selection; specified by `FilterState.ApplySearch`, `OverrideIdempotent` and `ResetThenOverride` |
| SelectionState.OverrideIdempotent | dashboard.py:180-188 | Applying the same parsed query a second time changes nothing |
| SelectionState.ResetThenOverride | dashboard.py:180-194 | After a reset the empty query overrides nothing, so the cleared selection stays cleared |
| SelectionState.FilterState.constructor | dashboard.py:89-96 | All four selections are empty, the query is "", and nothing is saved |
| SelectionState.FilterState.Choose | dashboard.py:171-176 | The multi-selects set the four selections and nothing else |
| SelectionState.FilterState.Type | dashboard.py:177-179 | The search box sets the query and nothing else |
| SelectionState.FilterState.ApplySearch | dashboard.py:180-188 | Returns the parse of the query; each non-empty parsed dimension replaces that selection and each empty one leaves it; the query and snapshot are unchanged |
| SelectionState.FilterState.Reset | dashboard.py:192-194 | All four selections become empty and the query ""; the snapshot is kept |
| SelectionState.FilterState.Save | dashboard.py:197-204 | The snapshot becomes the current five slots; the slots are unchanged |
| SelectionState.FilterState.Load | dashboard.py:207-211 | With a snapshot the five slots become the saved values; without one nothing changes |
| SelectionState.SaveEditLoad | dashboard.py:171-211 | For any sequence of multi-select changes, typing, override passes and resets between a save and a load, the load restores exactly the saved five values and keeps the snapshot |
| SelectionState.LoadWithoutSnapshot | dashboard.py:207-209 | Loading in a fresh session leaves the initial state |
| FilterEngine.Matching | dashboard.py:220-228 | The rows every non-empty selection admits, in table order; specified by `ApplyFilter`, `MatchingMembers`, `MatchingKeepsOrder` and `MatchingUnconstrained` |
| FilterEngine.Narrow | dashboard.py:222 | One `isin` step keeps, in order, exactly the rows that dimension's selection admits |
| FilterEngine.ApplyFilter | dashboard.py:220-228 | The step-by-step narrowing yields exactly the rows that the combined selection admits, in table order |
| FilterEngine.StepwiseIsConjunction | dashboard.py:220-228 | Narrowing by year, gender, region and certificate in turn equals one pass with the AND of the four tests |
| FilterEngine.MatchingMembers | dashboard.py:220-228 | A row is kept if and only if it is a row of the table and every non-empty selection contains its field; it is kept as often as it occurs |
| FilterEngine.MatchingKeepsOrder | dashboard.py:220-228 | The result is a subsequence of the table |
| FilterEngine.MatchingUnconstrained | dashboard.py:220 | With every selection empty the result is the whole table |
| Counting.Tally | dashboard.py:231 | The tally is an occurrence table of the column, and its counts sum to the column's length |
| Counting.ValueCounts | dashboard.py:231 | `value_counts()` is an occurrence table of the column, listed with non-increasing counts, summing to the column's length |
| Counting.GroupCounts | dashboard.py:256 | `groupby("year").size()` is an occurrence table with strictly ascending keys, summing to the column's length |
| Counting.CountsOfPermutation | dashboard.py:231 | Reordering an occurrence table gives an occurrence table of the same column |
| Counting.Lookup | dashboard.py:232-233 | A key is found exactly when it is a key of the table, and then, in a table with distinct keys, its value is that entry's count |
| Counting.Get | dashboard.py:232-233 | `.get(k, 0)` on a table: the entry's count, 0 for a missing key; specified by `GetCounts` |
| Counting.GetCounts | dashboard.py:232-233 | `.get(k, 0)` on an occurrence table is the multiplicity of k in the column, 0 when absent |
| Counting.CountsOfSize | dashboard.py:380 | An occurrence table has one entry per distinct value of the column |
| Counting.OutsidePrefix | dashboard.py:380 | In a table listed largest first, a value outside the first n entries has no larger count than the n-th |
| Counting.EmptyTable | dashboard.py:268 | A count table is empty exactly when the counted rows are |
| Counting.FirstIsMostFrequent | dashboard.py:340-341 | The head of a table listed largest first is a value of the column that no other value outnumbers |
| Counting.EarliestPeak | dashboard.py:269 | In a table with ascending keys, `idxmax()` lands on a largest count, and every earlier key has a strictly smaller count |
| Counting.CountsWithin | dashboard.py:326-327 | All keys of a count table lie in a set exactly when all values of the column do |
| Counting.FirstMax | dashboard.py:269 | `idxmax()` gives a position whose count no entry exceeds, with every earlier entry strictly smaller |
| Records.Describe | dashboard.py:383 | A known type gets its `CERT_DESC` entry, and the description is "설명 없음" if and only if the type is unknown |
| Records.SentinelNotADescription | dashboard.py:75-86 | No `CERT_DESC` entry equals the fallback "설명 없음" |
| Records.VocabOf | dashboard.py:147-149 | The four vocabularies of the loaded table; used by `ParseDrawsFromData` |
| Aggregation.YearCounts | dashboard.py:256 | `groupby("year").size()` of the rows; specified by `YearCountsSpec` |
| Aggregation.PeakYear | dashboard.py:268-272 | The `idxmax()` row, or none for an empty table; specified by `PeakYearSpec` |
| Aggregation.YearCountsSpec | dashboard.py:256 | Per-year counts are in strictly ascending year order, each positive and equal to that year's number of rows, every year of the rows appears, and they sum to the number of rows |
| Aggregation.PeakYearSpec | dashboard.py:268-272 | The peak is reported exactly when rows exist; it is an entry of the year table whose count no year exceeds, and every earlier year has a strictly smaller count |
| Aggregation.GenderCounts | dashboard.py:231 | `value_counts()` of the gender column; specified by `GenderCountsSpec` |
| Aggregation.MaleCount | dashboard.py:232 | `.get("남성", 0)`; specified by `GenderCountsSpec` |
| Aggregation.FemaleCount | dashboard.py:233 | `.get("여성", 0)`; specified by `GenderCountsSpec` |
| Aggregation.FemaleShare | dashboard.py:286-289 | The exact female percentage; specified by `FemaleShareSpec` |
| Aggregation.GenderCountsSpec | dashboard.py:231-233 | The male and female counts are the numbers of male and female rows, 0 when there are none, and together at most the number of rows |
| Aggregation.FemaleShareSpec | dashboard.py:286-289 | The share exists exactly when there are rows; it is then exactly 100·female/rows, at most 100, and 0 without female rows |
| Aggregation.RegionCounts | dashboard.py:234 | `value_counts()` of the region column; specified by `TopRegionSpec` and `RegionMapDefined` |
| Aggregation.TopRegion | dashboard.py:234-235 | The first region of the count table, or "-"; specified by `TopRegionSpec` |
| Aggregation.TopRegionSpec | dashboard.py:234-235 | The top region is "-" with no rows; otherwise it is a region of the rows that no other region outnumbers |
| Aggregation.CoordLookup | dashboard.py:325-327 | The lookup succeeds if and only if every region of the count table is a key of the coordinate table; otherwise it fails naming the first region without a key |
| Aggregation.RegionMapDefined | dashboard.py:306-327 | The map lookup succeeds if and only if every region of the filtered rows is one of the 17 keyed regions |
| Aggregation.AgeGroup | dashboard.py:349-355 | `age_group`; specified by `AgeGroupBrackets` |
| Aggregation.AgeCounts | dashboard.py:358 | `value_counts()` of the `age_group` column; specified by `AgeCountsSpec` |
| Aggregation.AgeGroupBrackets | dashboard.py:349-355 | "20대" exactly for age < 30, "30대" exactly for 30 ≤ age < 40, "40대 이상" exactly for age ≥ 40; so 29, 30 and 40 fall into the three brackets in turn |
| Aggregation.AddAgeGroupColumn | dashboard.py:357 | The added column holds, row by row, the bracket of that row's age |
| Aggregation.BracketCount | dashboard.py:357-358 | A bracket label occurs in the column as often as there are rows whose age falls in that bracket |
| Aggregation.AgeCountsSpec | dashboard.py:358 | Only the three labels occur; each bracket's count is its number of rows; the counts sum to the number of rows and are listed largest first |
| Aggregation.CertPool | dashboard.py:376-379 | The rows the ranking counts; specified by `CertPoolSpec` |
| Aggregation.TopCertificates | dashboard.py:376-384 | The top-5 ranking with descriptions; specified by `TopCertificatesSpec` |
| Aggregation.CertPoolSpec | dashboard.py:376-379 | With exactly one selected year, the pool holds each filtered row of that year as often as it occurs and no other row, in table order; otherwise it is all filtered rows |
| Aggregation.Rank | dashboard.py:382-384 | The description column, `CERT_DESC.get(type, "설명 없음")` per entry of the top table; specified by `RankTop` and `TopCertificatesSpec` |
| Aggregation.RankTop | dashboard.py:380-384 | For any table listed largest first, its first min(5, size) entries, described, have distinct types, non-increasing correct counts and `CERT_DESC` descriptions |
| Aggregation.RankCutoff | dashboard.py:380 | For any table listed largest first, no type left out of its first min(5, size) entries has a larger count than the last one listed |
| Aggregation.TwoCounts | dashboard.py:232-233 | Two different values together occur at most as often as the column is long |
| Aggregation.TopCertificatesSpec | dashboard.py:376-384 | The ranking has min(5, number of distinct types) distinct entries with non-increasing counts. Each count is the type's number of pooled rows, and each description is `CERT_DESC` or "설명 없음". A type left out has no more rows than the last one listed |

## Left out

- The Streamlit page, its CSS and HTML header, the metric card markup, widget layout and `st.experimental_rerun` are UI and framework control flow. The rerun after reset and load is shown only by `ResetThenOverride` and `OverrideIdempotent`: the override runs again on the next pass.
- `load_data`, `pd.read_excel`, the file uploader and `generate_sample_data` are file I/O and seeded randomness. The table is a parameter.
- Streamlit refuses writes to a widget's session slot after that widget has been drawn in the same pass. The override (dashboard.py:181-188), reset (193-194) and load (210-211) all write slots of widgets drawn at 171-179. That is framework behaviour and is not modelled; every write takes effect in the model.
- Plotly figures, the download buttons and the PNG export are charting calls.
- The floating-point coordinates are left out; only which regions have an entry is modelled. The `.1f` rendering of the female percentage is also left out; the share is kept exact.
- `pd.to_datetime` on `acquired_at` is left out; no filter or summary reads that column.
- The order of tied counts in `value_counts()` is left out. The model sorts stably, and only non-increasing counts are promised.
- `QueryParser.IsDigits` accepts ASCII digits only. Python's `isdigit` is also true for other Unicode digits. For some of them, such as "²", `int(tok)` then raises at dashboard.py:156 and `parse_search` fails. The model drops such tokens instead of failing.
- `QueryParser.DigitsValue` reads ASCII digits only and has no length limit. At dashboard.py:156 Python's `int(tok)` behaves differently in two cases. It raises `ValueError` for a token of more than 4300 digits (the default integer string conversion limit of CPython 3.10.7 and later), so `parse_search` fails where the model returns a value. It also converts other Unicode decimal digits, so a fullwidth "２０２０" is read as 2020 and can add that year, where the model drops the token.
- `QueryParser.Tokens`: `query.strip().split()` is modelled by `split()` alone, because stripping does not change the tokens.
- `Aggregation.AddAgeGroupColumn` returns the `age_group` column beside the rows rather than storing it in the frame.
- The caption for the most frequent age bracket (dashboard.py:369-371) is left out. It is the first entry of the age table, which `AgeCountsSpec` states is listed largest first.
- The caption for the most popular certificate (dashboard.py:395-397) is left out. It is the first entry of the ranking, which `TopCertificatesSpec` states has the largest count.
