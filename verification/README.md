# Pharmacy stock tracker: decoder, search box and document converter

This project models, in Dafny, three small pure parts of a hospital pharmacy
stock-tracking web application and proves properties of them:

1. **Spreadsheet decoder** (`src/lib/google-sheets.ts`). A sheet range arrives
   as a grid of cells whose first row holds the column headers. Each data row
   is keyed by header (`mapRowToHeaders`), built into a `Drug`, `Service` or
   `Distribution` record with defaults for missing fields (`|| ''`,
   `parseInt(…, 10) || 0`), rows without a key field (barcode or id) are
   dropped, and distributions are sorted most recent first.
2. **Search suggestions** (`src/components/layout/Search.tsx`). The search box
   state is the query, up to five suggested drugs and whether the popover
   shows. Typing, a new drug list, focus, dismissal and picking a suggestion
   are events of a state machine.
3. **Document converter** (`src/firebase/firestore/utils.ts`). `toFirestore`
   drops a record's `id`; `fromFirestore` puts the document key back as `id`,
   with a stored `id` field winning because it is spread last.

Files and modules:

- `types.dfy` (`Types`): `Option`, spreadsheet `Cell`, and the `Drug`,
  `Service` and `Distribution` records of `src/lib/types.ts`. `Drug` also
  carries the optional `id` and `lotNumber` the search box reads from stored
  drugs; the decoder sets both to `None`.
- `js_string.dfy` (`JsString`): the JavaScript string built-ins used:
  `parseInt(s, 10)` as in section 19.2.5 of ECMA-262, `toLowerCase`,
  `includes` and `length` (UTF-16 code units).
- `sequences.dfy` (`Sequences`): order-preserving subsequences.
- `sheets.dfy` (`Sheets`): `mapRowToHeaders` and the decoding done by
  `getDrugs`, `getServices` and `getDistributions` after the fetch.
- `date_sort.dfy` (`DateSort`): the distribution comparator and a stable
  sort under it. Date parsing is a parameter `timeOf` (`None` is NaN).
- `search.dfy` (`Search`): the search box state machine.
- `converter.dfy` (`Converter`): `toFirestore` and `fromFirestore` over
  records modelled as `map<string, Value>`.

The decoder does not clamp numbers: a stock cell holding a negative integer
decodes to a negative stock, and `Sheets.IntOrSpec` states so.

## Model

| member | source | states |
|---|---|---|
| JsString.ParseIntAccepts | src/lib/google-sheets.ts:68 | any text of the form white space, optional sign, digits, then a non-digit rest parses to the signed value of those digits |
| JsString.ParseIntSound | src/lib/google-sheets.ts:68 | whenever `parseInt` yields a number, the text has that form and the number is the value of its sign and digits |
| JsString.ParseIntRejects | src/lib/google-sheets.ts:68 | `parseInt` yields NaN exactly when no prefix of that form exists |
| JsString.ParseFormatRoundTrip | src/lib/google-sheets.ts:68 | printing any integer and parsing it back, with leading white space and trailing non-digit text, gives the integer |
| JsString.ToLower | src/components/layout/Search.tsx:26 | lower-casing keeps the length and maps each character on its own |
| JsString.ToLowerIdempotent | src/components/layout/Search.tsx:26 | lower-casing twice gives the same text as lower-casing once |
| JsString.ToLowerKeepsLength | src/components/layout/Search.tsx:24-26 | the model's lower-casing does not change the length JavaScript reports |
| JsString.LowerChar | src/components/layout/Search.tsx:26 | the result is never an upper-case letter; an upper-case Basic Latin or Latin-1 letter maps to its lower-case partner, every other character is kept, and characters stay inside or outside the Basic Multilingual Plane |
| JsString.Includes | src/components/layout/Search.tsx:26 | `includes` is true exactly when the needle occurs at some index of the text |
| JsString.Utf16Length | src/components/layout/Search.tsx:24 | a string's length lies between its character count and twice it, and equals the character count when every character is in the Basic Multilingual Plane |
| JsString.Utf16LengthCountsAstral | src/components/layout/Search.tsx:24 | the length is the character count plus one for each character outside the Basic Multilingual Plane, so a single emoji has length 2 |
| Sheets.HeaderKeys | src/lib/google-sheets.ts:49-51 | the property names are exactly the header names |
| Sheets.MapRowToHeadersSpec | src/lib/google-sheets.ts:47-53 | the object's keys are the headers; each header's value is the cell in the last column with that header, or missing past the end of a short row |
| Sheets.LastColumnOf | src/lib/google-sheets.ts:49-51 | every header name has a last column carrying it |
| Sheets.KeyHasLastColumn | src/lib/google-sheets.ts:47-53 | every key of the object comes from a last column with that header and holds that column's cell |
| Sheets.ExtraCellsIgnored | src/lib/google-sheets.ts:47-53 | cells beyond the header count do not change the object |
| Sheets.ColumnIsLastWithName | src/lib/google-sheets.ts:64-70 | a field read from the object is the cell of the last column with that name, or missing when no column has it |
| Sheets.BuildAll | src/lib/google-sheets.ts:63-64 | one record per data row, built from that row keyed by the headers |
| Sheets.DecodeRows | src/lib/google-sheets.ts:63-72 | the output holds only kept records, each from some row, and each kept record exactly as many times as rows build it; rejected records never appear |
| Sheets.DecodeRowsInOrder | src/lib/google-sheets.ts:63-72 | the kept records appear in row order |
| Sheets.DecodeDrugs | src/lib/google-sheets.ts:56-73 | fewer than two rows decode to no drugs; every drug has a barcode and comes from a data row, never the header row; every data row with a barcode yields its drug; there are at most rows - 1 drugs; how many times each drug appears is stated by `Sheets.DrugCounts` |
| Sheets.DecodeDrugsInOrder | src/lib/google-sheets.ts:63-72 | drugs keep their row order |
| Sheets.DrugCounts | src/lib/google-sheets.ts:63-72 | each drug appears exactly as many times as data rows decode to it, and never without a barcode |
| Sheets.RepeatedRowsKept | src/lib/google-sheets.ts:63-72 | two identical data rows with a barcode decode to two identical drugs |
| Sheets.DrugFields | src/lib/google-sheets.ts:64-71 | each drug field comes from the column of that name; a missing column gives "" for text and 0 for numbers |
| Sheets.IntOrSpec | src/lib/google-sheets.ts:68-70 | a numeric field is the value of the cell's leading signed decimal integer, negative values included, or 0 when the cell is missing or has no such prefix |
| Sheets.DecodeServices | src/lib/google-sheets.ts:75-89 | fewer than two rows decode to no services; every service has an id and comes from a data row; every data row with an id yields its service; how many times each service appears is stated by `Sheets.ServiceCounts` |
| Sheets.DecodeServicesInOrder | src/lib/google-sheets.ts:82-88 | services keep their row order |
| Sheets.ServiceCounts | src/lib/google-sheets.ts:82-88 | each service appears exactly as many times as data rows decode to it, and never without an id |
| Sheets.ServiceFields | src/lib/google-sheets.ts:83-87 | a service's id and name come from the columns of those names, and a missing column gives "" |
| Sheets.KeptDistributions | src/lib/google-sheets.ts:98-108 | the unsorted distributions are those of the data rows with an id, each as many times as data rows give it |
| Sheets.DistributionFields | src/lib/google-sheets.ts:99-107 | each distribution field comes from the column of that name; a missing column gives "" for text and 0 for the quantity |
| Sheets.DecodeDistributions | src/lib/google-sheets.ts:91-109 | fewer than two rows decode to nothing; the result is a permutation of the data rows with an id, most recent first whenever every date parses |
| Sheets.DistributionsFromRows | src/lib/google-sheets.ts:98-108 | every decoded distribution has an id and comes from a data row; the result is most recent first whenever all its dates parse |
| Sheets.DecodeDistributionsStable | src/lib/google-sheets.ts:108 | distributions with the same date keep their row order |
| DateSort.Compare | src/lib/google-sheets.ts:108 | the comparator puts the later date first, and ties anything with an unparseable date |
| DateSort.Insert | src/lib/google-sheets.ts:108 | insertion adds exactly the one record |
| DateSort.InsertKeepsOrder | src/lib/google-sheets.ts:108 | inserting a dated record into a newest-first sequence keeps it newest-first |
| DateSort.SortNewestFirst | src/lib/google-sheets.ts:108 | the sort is a permutation, and newest-first when every date parses |
| DateSort.WithTimeInsert | src/lib/google-sheets.ts:108 | insertion puts a record before all others with the same date |
| DateSort.SortIsStable | src/lib/google-sheets.ts:108 | records with the same date keep their input order |
| Search.MatchingDrugs | src/components/layout/Search.tsx:25-27 | the matches are exactly the drugs whose lower-cased designation contains the lower-cased query; there are some exactly when one drug matches |
| Search.MatchingDrugsInOrder | src/components/layout/Search.tsx:25-27 | the matches keep the drug list's order |
| Search.MatchesIgnoresCase | src/components/layout/Search.tsx:26 | lower-casing the query or the designation first does not change whether a drug matches |
| Search.MatchingIgnoresQueryCase | src/components/layout/Search.tsx:25-27 | a query and its lower-cased form match the same drugs, in the same order |
| Search.ResultsFor | src/components/layout/Search.tsx:24-31 | no suggestions for a query of length at most 1 or no drug list; otherwise the first min(5, matches) matching drugs, all from the list |
| Search.ResultsComplete | src/components/layout/Search.tsx:25-28 | with fewer than five suggestions, every matching drug is suggested |
| Search.ResultsInOrder | src/components/layout/Search.tsx:25-28 | suggestions keep the drug list's order |
| Search.LongEnoughIgnoresCase | src/components/layout/Search.tsx:24 | the model's lower-casing of a query does not change whether it is long enough |
| Search.ResultsIgnoreQueryCase | src/components/layout/Search.tsx:24-28 | a query and its lower-cased form under the model's lower-casing get the same suggestions |
| Search.Recompute | src/components/layout/Search.tsx:23-34 | the recompute keeps the query, sets the suggestions, and opens the popover exactly when some drug matches, including matches beyond the first five; a short query or missing list closes it |
| Search.PopoverMeansResults | src/components/layout/Search.tsx:28-29 | after a recompute the popover shows only with suggestions in it |
| Search.Focus | src/components/layout/Search.tsx:56-58 | focus opens the popover only for a long enough query with suggestions, and otherwise changes nothing |
| Search.SelectDrug | src/components/layout/Search.tsx:36-41 | picking a drug clears query and suggestions, closes the popover and navigates to `/inventory?view=<id>&highlight=<id>` |
| Search.Step | src/components/layout/Search.tsx:23-58 | typing installs the new query and, when it differs, recomputes the suggestions from it, while retyping the same query changes nothing; a new drug list is installed and recomputed against; focus applies the focus rule; dismissal only closes the popover; only a selection navigates, and it leaves the box in its initial state with the list unchanged |
| Search.InitialValid | src/components/layout/Search.tsx:18-20 | the initial state is consistent with any drug list |
| Search.StepPreservesValid | src/components/layout/Search.tsx:23-58 | after every event the suggestions are the ones the query and list call for, at most five, all matching, and the popover shows only with suggestions |
| Search.SelectSettles | src/components/layout/Search.tsx:36-39 | the effect re-run after a selection leaves the reset state unchanged |
| Converter.ToFirestore | src/firebase/firestore/utils.ts:6-10 | the stored data has no `id`, keeps every other field with its value, and adds nothing |
| Converter.FromFirestore | src/firebase/firestore/utils.ts:11-20 | the record keeps every stored field; its `id` is the document key unless the data has its own `id`, which wins |
| Converter.WriteThenRead | src/firebase/firestore/utils.ts:6-20 | storing a record under its own id and reading it back gives the record |
| Converter.ReadThenWrite | src/firebase/firestore/utils.ts:6-20 | reading a document and writing it back stores the same data less any stored `id` |

## Left out

- Fetching the grid (`getSheetsClient`, `fetchData`, src/lib/google-sheets.ts:6-44): environment variables, service-account authentication and the network call. The grid is an input.
- Date parsing in the distribution sort: `new Date(text).getTime()` is the parameter `timeOf`. When some date does not parse, the comparator is inconsistent and the real order is implementation-defined; the model still sorts, and still proves a permutation and stability, but promises newest-first order only when every date parses.
- JsString.LowerChar: maps only Basic Latin and Latin-1 upper-case letters; the other Unicode case mappings of `toLowerCase`, including ones that change length, are not modelled.
- JsString.ParseInt: results are exact integers; JavaScript rounds integers beyond 2^53 to the nearest double.
- Sheets.HeaderKey: a header named `__proto__` is silently dropped by JavaScript property assignment; the model keeps it as an ordinary key.
- Sheets.DecodeDistributions: orders by the parsed time only; the relative order of records whose dates do not parse is that of a stable insertion sort, one of the orders the JavaScript engine may produce.
- Cell values are text or missing; non-text cell values are not modelled because the spreadsheet service returns formatted text by default.
- The order of properties in JavaScript objects: records and documents are maps.
- Strings are sequences of Unicode scalar values; `includes` on well-formed UTF-16 text agrees with substring search on them, and `length` is modelled as the UTF-16 length.
- Search rendering: the popover contents, the loading spinner, the "no result" message and `inputRef.current?.blur()`. Navigation is returned as an address instead of calling the router.
- Converter: the `SnapshotOptions` argument (server timestamp handling) and value kinds other than null, booleans, integers, text and timestamps.
- Firebase initialisation and context, the authentication listener, the live collection subscription (whose id merge is the `fromFirestore` rule), the generative-text suggestion flow, the navigation chrome, and the static fixtures: they are plumbing or opaque calls with no logic of their own here.
