# Drug Safety Dashboard — a Dafny model of its data pipeline

The dashboard (`ds_final_project.py`) is a Streamlit front end over the
openFDA adverse-event feed. Under its three pages sits a small,
deterministic pipeline, and that pipeline is modelled here:

- **Loaders.** `load_events` and `load_search_events` flatten nested events,
  each with a `patient.drug[]` list of sub-records, into flat
  `(date, drug, role)` rows. The search loader keeps only rows whose
  stripped name equals the query, ignoring case. It turns an HTTP 404 into
  an empty table. Any other client or server error raises.
- **Role classification.** `role_map` plus `fillna("Unknown")` maps the
  codes "1", "2" and "3" to their roles. Everything else maps to `Unknown`,
  including a missing code, which `astype(str)` turns into "None".
- **Aggregations.** `value_counts()` counts roles and drug names.
  `nlargest(10)` ranks the drugs.
- **Search page date handling.** `YYYYMMDD` receipt dates are parsed, and
  rows whose date does not parse are dropped. The page reports the min and
  max date, and lists reports newest first, capped at 20 rows.

The HTTP response is a parameter: `Response(status, results)`, where
`results` is the `results` list of the JSON body, or `None` when the body
has none. What the user types is a parameter too.

Behaviour of the code worth stating explicitly:
- `load_events` keeps sub-records with an empty name; their rows have the
  drug name `""` (`Events.EmptyNamesKept`).
- There is no daily-trend view and no time window anywhere in the code.
- Only the search page parses dates. The role-distribution page counts
  every row (`Pages.DateFilterOnlyOnSearchPage`).

Modules, one per stage: `Wrappers` (Option/Result), `Text` (`strip`,
`lower`), `Sequences` (counting, filtering, subsequences), `Tally`
(`value_counts`, `nlargest`), `Events` (records, responses, the two
loaders), `Roles`, `Dates`, `Pages` (the three pages).

## Model

| member | source | states |
|---|---|---|
| Text.StripUnique | ds_final_project.py:35 | `strip()` is characterised independently of how it is computed: a trimmed text framed by white space strips to exactly that text |
| Text.Strip | ds_final_project.py:35 | `strip()` leaves no white space at either end and never lengthens a name |
| Text.StripStartDropsSpace | ds_final_project.py:35 | what the leading part of `strip()` removes is white space only, and what it keeps is a suffix of the text |
| Text.StripEndDropsSpace | ds_final_project.py:35 | what the trailing part of `strip()` removes is white space only, and what it keeps is a prefix of the text |
| Text.StripFrames | ds_final_project.py:60 | a stripped name is the original with only white space removed, and only at the two ends |
| Text.StripIdempotent | ds_final_project.py:96 | stripping an already stripped query changes nothing |
| Text.Lower | ds_final_project.py:61 | `lower()` keeps the length; each ASCII capital becomes the small letter 32 code points higher and every other character stays |
| Text.SameIgnoringCaseSpec | ds_final_project.py:61 | `a.lower() == b.lower()` holds exactly when both texts have the same length and each pair of characters differs at most in the case of an ASCII letter |
| Text.LowerIdempotent | ds_final_project.py:61 | lower-casing is idempotent and leaves no upper-case letter |
| Text.LowerKeepsTrimmed | ds_final_project.py:60-61 | lower-casing neither adds nor removes white space at the ends of a name |
| Text.UntrimmedQueryNeverMatches | ds_final_project.py:60-61 | a stripped name never equals, ignoring case, a query with white space at an end, which is why both pages strip the query first |
| Sequences.FilterSpec | ds_final_project.py:61-62 | the row selection is a subsequence of its input; each row that passes is kept as often as it occurs, and a row that fails never appears |
| Sequences.FilterCount | ds_final_project.py:109 | a selection holds each passing value exactly as often as the input does, and no failing value |
| Sequences.FilterKeepsAll | ds_final_project.py:109 | a selection keeps all rows exactly when every row passes |
| Sequences.FilterAppend | ds_final_project.py:57-66 | selecting rows from two batches one after the other gives the selection of the joined batches |
| Events.Flatten | ds_final_project.py:30-37 | `load_events` emits exactly one row per drug sub-record, summed over all events |
| Events.FlattenIndex | ds_final_project.py:31-37 | sub-record j of event i is at the position after the sub-records of all earlier events, and copies the receipt date, the stripped name and the role code |
| Events.FlattenPosition | ds_final_project.py:31-37 | the rows of event i come right after the rows of all earlier events |
| Events.FlattenAppend | ds_final_project.py:31-37 | flattening runs event by event: the rows of a concatenation are the concatenated rows |
| Events.EmptyNamesKept | ds_final_project.py:35 | a sub-record with a missing name, or one of white space only (empty included), still yields a row, with drug name `""` |
| Events.LoadEvents | ds_final_project.py:24-39 | every 4xx/5xx status raises, 404 included; otherwise the rows are exactly the flattening of the events, one per sub-record, and none when `results` is missing |
| Events.MatchingRowsIsFilter | ds_final_project.py:58-65 | the inner loop of `load_search_events` keeps exactly the rows of one event whose name matches the query |
| Events.SearchRows | ds_final_project.py:57-66 | the nested search loop emits at most one row per sub-record, and every row it emits matches the query ignoring case |
| Events.SearchRowsIsFilter | ds_final_project.py:57-66 | filtering while flattening yields exactly the rows of the unfiltered flattening whose name matches the query ignoring case, in order |
| Events.LoadSearchEvents | ds_final_project.py:48-67 | a 404 is an empty table; any other 4xx/5xx raises; otherwise the rows are exactly the matching subsequence, and each matches the query ignoring case |
| Roles.Classify | ds_final_project.py:119-120 | the role table is total: "1", "2", "3" each have their own role, and exactly the other values, a missing one included, are `Unknown` |
| Roles.AsStr | ds_final_project.py:120 | `astype(str)` keeps a present code's text and turns a missing code into "None", the same text as a code "None" |
| Roles.RoleColumn | ds_final_project.py:120 | the mapped column has exactly one role per row |
| Roles.RoleColumnIndex | ds_final_project.py:120 | the mapped column has one role per row, at the row's own position |
| Roles.FourRolesPartition | ds_final_project.py:119-121 | every row falls under exactly one of the four roles: the four counts add up to the number of rows |
| Roles.RoleCounts | ds_final_project.py:121 | role `value_counts()`: keys are exactly the roles that occur, each once, with their exact positive counts; the counts sum to the number of rows; at most four keys |
| Roles.LabelCountIsRoleCount | ds_final_project.py:120-121 | counting the `role_desc` texts gives the same number for each role as counting the roles, since the four labels are distinct |
| Roles.AtMostFourRoles | ds_final_project.py:121 | a list of roles without repetition has at most four entries |
| Roles.OnlyPrimaryAndConcomitant | ds_final_project.py:146-148 | rows with only codes "1" and "3" give exactly two entries, with no zero-count entry for the other roles |
| Tally.ValueCounts | ds_final_project.py:79 | `value_counts()`: one pair per occurring value, with its exact positive count, and keys without repetition |
| Tally.ValueCountsSum | ds_final_project.py:121 | the counts of `value_counts()` add up to the number of rows counted |
| Tally.ValueCountsSingle | ds_final_project.py:121 | a one-row column is counted as that value once |
| Tally.Largest | ds_final_project.py:79 | `nlargest(n)` returns min(n, table size) entries |
| Tally.ArgMaxSpec | ds_final_project.py:79 | the entry `nlargest` picks next has a largest count, and no earlier entry has one as large |
| Tally.LargestSubset | ds_final_project.py:79 | `nlargest(n)` returns entries of the table, each no more often than it occurs there |
| Tally.LargestNonIncreasing | ds_final_project.py:79 | the counts `nlargest(n)` returns never increase |
| Tally.LargestLeftOut | ds_final_project.py:79 | no entry left out by `nlargest(n)` has a larger count than one it returns |
| Tally.LargestDistinctKeys | ds_final_project.py:79 | `nlargest(n)` of a table with distinct keys has distinct keys |
| Tally.LargestSpec | ds_final_project.py:79 | `nlargest(n)` returns entries of the table, with counts never increasing; no entry left out has a larger count than one returned; distinct keys stay distinct |
| Tally.CountLeaderFirst | ds_final_project.py:79 | a value counted strictly more often than every other value heads the ranking, with its count |
| Tally.DrawnCountsExact | ds_final_project.py:79 | entries drawn from `value_counts()` name values of the column and carry their exact counts |
| Tally.LeftOutCounts | ds_final_project.py:79 | when no left-out entry outranks a returned one, no value missing from the ranking is counted more often than a ranked value |
| Pages.TopDrugs | ds_final_project.py:79 | the ranking has at most ten entries |
| Pages.TopDrugsSpec | ds_final_project.py:79 | min(10, distinct names) entries, each a distinct drug name with its exact case-sensitive count, counts never increasing, no left-out name counted more often than a listed one |
| Pages.TopDrugsExact | ds_final_project.py:79 | each ranked entry is a drug name of the table with its exact count |
| Pages.TopDrugsLeftOut | ds_final_project.py:79 | no drug name missing from the ranking is reported more often than a ranked one |
| Pages.StrictLeaderRanksFirst | ds_final_project.py:79 | a drug reported strictly more often than every other drug is ranked first, with its count |
| Pages.TopDrugsPage | ds_final_project.py:71-79 | an error status fails the page, 404 included; an empty table warns; otherwise the page shows the top-ten ranking of all loaded rows, with between one and ten drugs |
| Dates.ParseYmd | ds_final_project.py:108 | a parsed date is a real Gregorian day whose `YYYYMMDD` text is the input |
| Dates.ValueOfDigits | ds_final_project.py:108 | writing a number with a fixed number of digits and reading it back gives the number |
| Dates.DigitsOfValue | ds_final_project.py:108 | reading a digit text and writing it back with as many digits gives the text, leading zeros included |
| Dates.ParseFormat | ds_final_project.py:108 | every real day is recovered from its own text, so a text parses exactly when it is the text of a real day |
| Dates.InvalidDayRejected | ds_final_project.py:108 | "20230145" does not parse |
| Dates.DayPastMonthEnd | ds_final_project.py:108 | an eight-digit text whose day field exceeds 31 does not parse, whatever its month |
| Dates.LeapDay2024 | ds_final_project.py:108 | 29 February 2024 parses |
| Dates.NoLeapDay2023 | ds_final_project.py:108 | 29 February 2023 does not parse |
| Dates.NoLeapDay1900 | ds_final_project.py:108 | 29 February 1900 does not parse, because of the century rule |
| Dates.NotAfterTotalOrder | ds_final_project.py:114-115 | the chronological order used for min, max and sorting is a total order |
| Pages.DropInvalidDates | ds_final_project.py:109 | every row left after `dropna` has a parsable date |
| Pages.ParseDate | ds_final_project.py:108 | a missing date does not parse; a parsed date is a real day whose `YYYYMMDD` text is the cell |
| Pages.DateFilterSpec | ds_final_project.py:108-109 | for any table: every row whose date is the text of a real day survives the filter; every survivor's date text is that of a real day; each row with a valid date survives as often as it occurs and no other row survives |
| Pages.Reports | ds_final_project.py:110-120 | one report per surviving row, in order, with the parsed date whose text is the row's, the same drug and the classified role |
| Pages.DateSpan | ds_final_project.py:114-115 | min and max exist exactly when rows survive; both are dates of surviving rows, min is not after max, and every date lies between them |
| Pages.SortNewestFirst | ds_final_project.py:127 | sorting by date, descending, is a permutation with dates never increasing |
| Pages.InsertByDateNewestFirst | ds_final_project.py:127 | inserting a report into a listing sorted newest first keeps it sorted |
| Pages.TakeNewest | ds_final_project.py:127-129 | the first n reports of a listing sorted newest first are sorted, come from the listing, and none left out is newer than one taken |
| Pages.RecentReports | ds_final_project.py:127-129 | the listing has min(20, n) rows, newest first, all from the table; no row left out is newer than a listed one |
| Pages.SummarizeSpec | ds_final_project.py:108-129 | the breakdown and the listing cover only rows with a valid date; the breakdown sums to their number; the listing has min(20, that number) rows |
| Pages.Summarize | ds_final_project.py:108-129 | the reported number is that of rows with a valid date; the breakdown gives each role occurring among them its exact count and sums to that number; the span is two of their dates bounding all of them and is absent exactly when none survives; the listing holds min(20, that number) of their reports, newest first, with no report left out newer than a listed one |
| Pages.Matching | ds_final_project.py:57-66 | the rows both search pages work on are a subsequence of the flattened response, each matching the stripped query ignoring case, each matching row kept as often as it occurs and no other row |
| Pages.SearchPage | ds_final_project.py:94-129 | nothing is fetched for an empty stripped query; a 404 warns; another error status fails the page; the page is shown exactly when some row matches; then it shows the summary of the matching rows: the number with a valid date, a breakdown listing every role among them with its exact count and summing to that number, their date span, and their 20 newest reports |
| Pages.RoleDistributionPage | ds_final_project.py:133-148 | same prompt, warning and error behaviour, shown exactly when some row matches; each role of the breakdown carries its exact number of matching rows, every role that occurs is listed, and the counts sum to the number of matching rows |
| Pages.DateFilterOnlyOnSearchPage | ds_final_project.py:108-121 | both search pages show content for the same input; the search page's breakdown counts no more rows than the role-distribution page's, and the same number exactly when every matching row has a valid date |
| Pages.InvalidDateRows | ds_final_project.py:48-67 | a response with one IBUPROFEN sub-record dated "20230145" loads as exactly one matching row with that date |
| Pages.InvalidDateScenario | ds_final_project.py:108-121 | a matching report dated "20230145" is dropped by the search page but counted as a primary suspect by the role-distribution page |

## Left out

- Rendering (page config, sidebar, text inputs, warnings, charts, tables, `.title()` formatting) and the page dispatch at lines 7-14 and 155-161. This is presentation; the model returns the values the pages display.
- `requests.get`, its `limit`/`search` parameters and JSON decoding. The response is the parameter `Response(status, results)`. Transport exceptions and malformed JSON are not modelled.
- `@st.cache_data` memoisation (lines 18 and 43). Its hashing and expiry live inside Streamlit.
- The crash on a `medicinalproduct` key that is present but null (`.strip()` on `None`, line 35). This is a runtime error, not intended behaviour. A missing key is modelled.
- Role codes of a non-string JSON type, which `astype(str)` would render differently. Codes are modelled as strings or missing.
- Tally.ValueCounts: pandas sorts the pairs by count, descending; the contract states only which pairs occur and their counts, not their order.
- Tally.LargestSpec: the order among equal counts is a pandas detail and is not stated.
- Pages.RecentReports: the order among rows with the same date is not stated, since pandas' default sort is not stable.
- Dates.ParseYmd: a strict eight-digit `YYYYMMDD` parser with years 1 to 9999. `pd.to_datetime` may accept more text, and it rejects years outside its nanosecond range (1677-09-21 to 2262-04-11).
- Text.LowerChar: lower-cases ASCII letters only. Python's `str.lower` maps all Unicode letters and can change a text's length.
- Pages.SearchPage: when no row has a valid date the page still renders, showing a null value for the span. The model's span is then `None`.
