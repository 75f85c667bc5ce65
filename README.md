# US crime, unemployment and education pipeline: a Dafny model

The repository is a batch ETL pipeline over three public US datasets, keyed by state
and year:

- a crime scraper reads one FBI table page per year and turns each state row into a
  record of 19 crime counts and rates;
- an unemployment scraper reads one table page per month and year and turns each row
  into a `state`/`rate`/`month`/`year` record;
- an education extractor groups one census spreadsheet per year by state code, sums
  the rows of each code and emits one record per code.

The records are staged in a document store, one collection per dataset; a reload drops
the collection first. They are then loaded into a relational schema: the loader builds
a table frame from the staged documents, cleans it (numeric coercion, comma removal,
code-to-name mapping), adds a `state_year` key and builds the insert tuples, dropping
duplicate keys and keeping the last. The reporting step runs the aggregation queries
and per-year totals behind the charts.

The project models each stage in the form the source has:

- The scrapers' row parsers and tables are functions. The source loops that fill a
  reused dictionary, walk the page rows and extend the result lists are methods whose
  `ensures` ties them to those functions.
- The staging writer is a class whose `collections` map the methods update.
- The loader works on a value model of a pandas frame (`Frames`). A frame is a set of
  named columns of cells: a text, a number or NaN. The loader's fetch functions are
  methods proved equal to a frame function, and lemmas state what that frame holds.
- The reporting aggregations are functions with lemmas. The in-place `Total_crime`
  column is a method on a class.

Files:

- `wrappers.dfy`: `Option`.
- `text.dfy`: whitespace splitting, `strip`, single-space joins, integer and decimal
  printing/parsing.
- `records.dfy`: the `Document` type (a JSON object of text values).
- `tables.dfy`: the generic "parse rows of a page" and "extend a list with each
  part" steps shared by the scrapers.
- `crime_scrape.dfy`, `unemployment_scrape.dfy`, `education_extract.dfy`: the scrapers
  and the extractor.
- `mongo_staging.dfy`: the staging writer.
- `state_codes.dfy`, `frames.dfy`, `loader.dfy`: the postgres loader.
- `reporting.dfy`: the visualisation step's data work.

Where the code does something other than its names, comments or documentation suggest,
the model follows the code:

- The crime `State` value keeps the trailing space that the regular expression's first
  group swallows (`"Alabama "`); only the loader's `strip` removes it, when it builds
  `state_year`.
- The education state map covers only the codes `'1'` to `'51'`. Any other `STATE`
  value, including one with leading zeros or blanks, becomes NaN (`StateCodes.StateName`).
- `dropna()` is called without `inplace` and its result is discarded. So no row is ever
  dropped, and the frames keep one row per document.
- A crime collection with documents but no document holding one of the measures,
  `State` or `Year` makes that column all NaN, which pandas stores as floats; the
  loader's `.str.replace` or `.str.strip` then raises. An empty collection does not
  raise (`PostgresLoader.CrimeFrameSpec`).
- The combined chart's unemployment series is `groupby('year').sum()` over the per-state
  averages: a per-year sum, although the neighbouring comment calls it an average.
  `Reporting.UnemploymentTotalIsSum` shows the sum on a two-state example.

## Model

| member | source | states |
|---|---|---|
| CrimeScrape.MatchRow | scrape_crime_data.py:77-78 | on a match, group 1 and group 2 are non-empty and together form a prefix of the row, group 1 first |
| CrimeScrape.MatchRowSplit | scrape_crime_data.py:77-78 | the regex fails exactly when the row has no point where a `[a-zA-Z ]+` run can be followed by a `[0-9,. ]` character; otherwise group 1 ends at the last such point, as backtracking finds it |
| CrimeScrape.MatchRowNumbers | scrape_crime_data.py:77-78 | group 2 is the maximal run of `[0-9,. ]` characters after group 1 |
| CrimeScrape.NoMatchWithoutLeadingName | scrape_crime_data.py:77-78 | a row that is empty or does not start with a letter or space has no match (so `match.group` raises) |
| CrimeScrape.StateIsNameRun | scrape_crime_data.py:77-79 | when the letter run is directly followed by a digit, comma or dot, `State` is exactly that letter run |
| CrimeScrape.KeysDistinct | scrape_crime_data.py:66-70 | the 19 measure keys are pairwise distinct and differ from `State` and `Year` |
| CrimeScrape.RecordFields | scrape_crime_data.py:79-84 | a record has exactly the keys `State`, `Year` and the 19 measures, with the state, the year text and the j-th token under the j-th key |
| CrimeScrape.RecordUnique | scrape_crime_data.py:79-84 | any document with those keys and values is that record |
| CrimeScrape.ParseRowFields | scrape_crime_data.py:76-84 | a row parses exactly when it matches and group 2 splits into at least 19 tokens; the record then holds group 1 as `State`, the year and the first 19 tokens in key order |
| CrimeScrape.ParseRowCases | scrape_crime_data.py:77-82 | no match, or fewer than 19 tokens, makes the row fail; otherwise it gives the record of group 1 and the tokens |
| CrimeScrape.MatchOfPrinted | scrape_crime_data.py:77-78 | a name of letters and spaces followed by a number run starting with a digit, comma or dot matches with exactly those two groups |
| CrimeScrape.ParseRowOfPrinted | scrape_crime_data.py:77-83 | a row printed as a state name, a space and 19 or more space-separated numbers parses back to the record of that name (with its trailing space), those numbers and the year |
| CrimeScrape.FillRecord | scrape_crime_data.py:78-84 | filling the reused dictionary from a row yields the row's parse, whatever the dictionary held before, and the copy has exactly the record's keys |
| CrimeScrape.ScrapeTable | scrape_crime_data.py:62-85 | the loop over table rows 5 to 54 returns the parse of those 50 rows, failing when any row fails; the code reads 50 rows (`range(5, 55)`) although the comment at line 74 speaks of 51 states |
| CrimeScrape.CrimeDataAt | scrape_crime_data.py:92-102 | the collected list has 50 records per year; the k-th record of year y sits at `50*(y-start)+k`, is the parse of page row `k+5` and carries `Year` = y |
| CrimeScrape.CrimeDataFails | scrape_crime_data.py:93-102 | one year's failing table makes the whole scrape fail |
| CrimeScrape.ScrapCrimeDataByYear | scrape_crime_data.py:88-102 | the year loop, extending `final_data` with each year's table, computes `CrimeData` |
| UnemploymentScrape.StateAndRate | scrape_unemployment_data.py:68-77 | a row fails (`IndexError`) exactly when it has fewer than two tokens |
| UnemploymentScrape.StateAndRateJoin | scrape_unemployment_data.py:69-77 | the state is the first one, two or three tokens (three if more than three tokens, else all but one) joined by single spaces, and the rate is the token right after them |
| UnemploymentScrape.ParseRow | scrape_unemployment_data.py:65-79 | a row record exists exactly when there are at least two tokens, and it has exactly the keys `state`, `rate`, `month` and `year`, with the given month and year |
| UnemploymentScrape.StateSingleSpaced | scrape_unemployment_data.py:68-77 | a parsed state is non-empty, does not start or end with whitespace, and has only single spaces between non-space characters |
| UnemploymentScrape.TokensOfPrinted | scrape_unemployment_data.py:68 | `strip().split()` of words joined by single spaces, with any surrounding whitespace, gives back the words |
| UnemploymentScrape.StateAndRateOfPrinted | scrape_unemployment_data.py:69-77 | a state of one to three words, then a rate, then (only after three words) extra tokens, splits back into that state and rate |
| UnemploymentScrape.ParseRowOfPrinted | scrape_unemployment_data.py:68-79 | such a printed row parses back to the record of that state, rate, month and year |
| UnemploymentScrape.MonthTableAt | scrape_unemployment_data.py:64-82 | in a month's table, record k is the parse of the page's (k+1)-th row, for the 52 rows |
| UnemploymentScrape.ScrapeTable | scrape_unemployment_data.py:54-83 | the row loop returns the month's table: the 52 parsed rows, or a failure when any row fails |
| UnemploymentScrape.MonthTablesAt | scrape_unemployment_data.py:27-46 | the tables are taken year by year and, within a year, in the twelve months' order |
| UnemploymentScrape.MonthTablesFull | scrape_unemployment_data.py:64-82 | every table that exists has 52 records |
| UnemploymentScrape.UnemploymentDataAt | scrape_unemployment_data.py:26-47 | the collected list has 624 records per year; row k of month m of year y sits at `624*(y-start)+52*m+k` and is that row's parse, carrying that month and year |
| UnemploymentScrape.UnemploymentDataFails | scrape_unemployment_data.py:27-47 | one failing month makes the whole scrape fail |
| UnemploymentScrape.FillOptions | scrape_unemployment_data.py:20-47 | the year and month loops extending `records` compute `UnemploymentData` |
| EducationExtract.Slice | extract_education_data.py:29 | Python slicing: the substring when both bounds are in range, the tail from the start when only the end is past the string, empty when the start is past the string or not before the end |
| EducationExtract.YearSuffixDigits | extract_education_data.py:28-29 | `str(year)[2:4]` of a four-digit year is its tens and units digits |
| EducationExtract.YearUrlInjective | extract_education_data.py:31-32 | distinct four-digit years download distinct URLs |
| EducationExtract.AddValues | extract_education_data.py:35 | summing two rows adds them column by column |
| EducationExtract.InsertCodes | extract_education_data.py:35 | adding a row to the groups adds its code to the group codes |
| EducationExtract.InsertAscending | extract_education_data.py:35 | adding a row keeps the groups strictly ascending by code |
| EducationExtract.InsertTotal | extract_education_data.py:35 | adding a row adds its values to the column totals of its own code only |
| EducationExtract.GroupSumTotal | extract_education_data.py:35 | grouping preserves every code's column totals |
| EducationExtract.GroupSumAscending | extract_education_data.py:35 | the groups are strictly ascending and have exactly the input's codes |
| EducationExtract.GroupSumSpec | extract_education_data.py:35 | `groupby(['STATE']).sum()`: one row per distinct code, ascending, each value the sum of that column over the input rows with that code |
| EducationExtract.MeasuresDistinct | extract_education_data.py:44-52 | the nine measure keys are distinct and differ from `STATE` and `YEAR` |
| EducationExtract.CsvRowKeys | extract_education_data.py:36-41 | each CSV row read back has the code's text under `STATE` and each formatted sum under its measure |
| EducationExtract.EduRecordFields | extract_education_data.py:42-53 | a record exists exactly when the CSV row has `STATE` and the nine measures (else `KeyError`); it then has exactly those keys and `YEAR`, copied from the row |
| EducationExtract.FilledEduRecord | extract_education_data.py:42-53 | the reused `output` filled from a row equals that row's record, whatever it held before |
| EducationExtract.FillOutput | extract_education_data.py:42-53 | filling `output` key by key yields the row's record, and the result has exactly the record's keys |
| EducationExtract.ReadCsv | extract_education_data.py:39-53 | the CSV loop appends a copy of each row's record in order, failing at the first row that lacks a column |
| EducationExtract.YearRecordsSpec | extract_education_data.py:33-53 | a year never fails; it yields one record per distinct code, codes ascending, each with its code, the year and the code's column totals |
| EducationExtract.YearTablesAt | extract_education_data.py:27-35 | year k's list is read from the URL built from `str(start+k)` and its `[2:4]` slice |
| EducationExtract.EduDataLength | extract_education_data.py:27-54 | the extraction never fails and holds as many records as the years' distinct codes together |
| EducationExtract.ExtractEduData | extract_education_data.py:20-54 | the year loop extending `data` computes `EduData` |
| Tables.ParseAll | scrape_crime_data.py:74-84 | parsing a list of rows fails exactly when some row fails; otherwise it keeps each row's parse in order |
| Tables.PageRowsAt | scrape_crime_data.py:74-84 | a page's row range parses exactly when every row in the range exists and parses; the result holds those parses in row order |
| Tables.PageRowsAll | scrape_unemployment_data.py:64-82 | rows that all parse give exactly their parses |
| Tables.PageRowsFails | scrape_unemployment_data.py:64-82 | a missing or failing row in the range fails the page |
| Tables.Flatten | scrape_crime_data.py:92-102 | extending with each part fails exactly when some part fails |
| Tables.FlattenAt | scrape_crime_data.py:92-102 | with parts of equal width w, element k of part i sits at `w*i+k` of the result |
| Tables.FlattenTotalLength | extract_education_data.py:54 | when no part fails, the result's length is the sum of the parts' lengths |
| MongoStaging.StagedContents | mongodb_upload_data.py:26-35 | after a reload the collection holds exactly the file's records in file order, and does not exist when the file is empty |
| MongoStaging.StagedOthers | mongodb_upload_data.py:26-35 | a reload leaves every other collection as it was |
| MongoStaging.StagedIdempotent | mongodb_upload_data.py:61-79 | reloading the same file twice gives the same store as reloading it once |
| MongoStaging.StagedSnoc | mongodb_upload_data.py:34-35 | inserting the next record after a prefix gives the reload of the longer prefix |
| MongoStaging.StagingStore.CollectionNames | mongodb_upload_data.py:26 | the listed names are exactly the existing collections |
| MongoStaging.StagingStore.Drop | mongodb_upload_data.py:27 | the collection is removed and nothing else changes |
| MongoStaging.StagingStore.InsertOne | mongodb_upload_data.py:35 | the record is appended to the collection, creating it when absent |
| MongoStaging.StagingStore.Reload | mongodb_upload_data.py:26-35 | it drops exactly when the collection existed, and leaves the store as `Staged`: that collection holds the file's records, the others are unchanged |
| MongoStaging.StagingStore.InsertUnempData | mongodb_upload_data.py:19-37 | the unemployment collection is reloaded as `Reload` states |
| MongoStaging.StagingStore.InsertEducationData | mongodb_upload_data.py:40-58 | the education collection is reloaded as `Reload` states, the handle rebound after the drop notwithstanding |
| MongoStaging.StagingStore.InsertCrimeData | mongodb_upload_data.py:61-79 | the crime collection is reloaded as `Reload` states |
| StateCodes.NameIndexOfName | postgresql_upload_data.py:92-102 | looking up the name of code k gives back k, for every k in 1..51 |
| StateCodes.NamesDistinct | postgresql_upload_data.py:92-102 | the 51 names in the map are pairwise distinct |
| StateCodes.CodeIndexExactly | postgresql_upload_data.py:92-102 | a `STATE` text is a key of the map exactly when it is the plain decimal text of 1..51 |
| StateCodes.StateName | postgresql_upload_data.py:92-102 | a code maps to a name exactly when it is a key, and that name is the one listed for it |
| StateCodes.StateNameCodeOf | postgresql_upload_data.py:92-102 | the map and its inverse agree in both directions |
| StateCodes.StateNameInjective | postgresql_upload_data.py:92-102 | two codes with the same name are the same code |
| StateCodes.StateNameExamples | postgresql_upload_data.py:92-102 | `'9'` is District of Columbia, `'1'` Alabama, `'51'` Wyoming; `'09'`, `'0'`, `'52'`, `' 9'` and `''` are not mapped |
| Frames.FromRecords | postgresql_upload_data.py:27 | `pd.DataFrame(list)`: one row per document, a column for every key some document has, NaN where a document lacks it |
| Frames.FromRecordsColumns | postgresql_upload_data.py:59 | `pd.DataFrame(list, columns=keys)`: exactly the listed columns, NaN where a document lacks the key |
| Frames.SetColumn | postgresql_upload_data.py:36 | assigning a column replaces or adds that column only |
| Frames.AddColumns | postgresql_upload_data.py:36 | adding two columns fails exactly when some row pair cannot be added (a number and a text) |
| Frames.Tuples | postgresql_upload_data.py:124 | the selected tuples exist exactly when every selected column exists; there is one per row, holding the row's cells in column order |
| Frames.DedupKeySet | postgresql_upload_data.py:123 | dropping duplicate keys keeps every key |
| Frames.DedupUnique | postgresql_upload_data.py:123 | after dropping duplicates, keys are pairwise distinct |
| Frames.DedupLastWins | postgresql_upload_data.py:123 | each kept row is the last row with its key (`keep='last'`) |
| Frames.DedupOrder | postgresql_upload_data.py:123 | the kept rows keep their input order |
| Frames.DedupDistinct | postgresql_upload_data.py:123 | rows with distinct keys are all kept |
| Frames.DedupIdempotent | postgresql_upload_data.py:123 | dropping duplicates twice is dropping them once |
| PostgresLoader.UpdateColumnSpec | postgresql_upload_data.py:30 | updating a column in place fails exactly when the column is absent, the update goes through `.str` and the column refuses it (rows but no text), or a cell's update fails; otherwise only that column changes, cell by cell |
| PostgresLoader.UpdatedSpec | postgresql_upload_data.py:105-106 | updating several distinct columns fails exactly when one of them raises (absent, refusing `.str`, or holding a failing cell); otherwise each listed column is updated cell by cell and the others are unchanged |
| PostgresLoader.UpdateColumns | postgresql_upload_data.py:105-106 | the `for` loop over the columns computes `Updated` |
| PostgresLoader.UpdatedFailsLater | postgresql_upload_data.py:65-66 | once an update over a prefix of the columns fails, the whole loop fails |
| PostgresLoader.AddTextColumns | postgresql_upload_data.py:36 | two columns of text or NaN always add, giving the concatenation or NaN row by row |
| PostgresLoader.UnemploymentFrameSpec | postgresql_upload_data.py:15-38 | the unemployment fetch raises exactly when no document has `rate`, `state` or `year`; otherwise there is one row per document, `rate` is coerced (NaN if not a number), `state_year` is `state + year` untrimmed, and the other columns are copied |
| PostgresLoader.FetchUnemploymentData | postgresql_upload_data.py:15-38 | the fetch's copy loop and frame steps compute `UnemploymentFrame` |
| PostgresLoader.CrimeKeysDistinct | postgresql_upload_data.py:52-54 | the crime keys are distinct, include `State` and `Year`, and the ten measures exclude them |
| PostgresLoader.CastOfCell | postgresql_upload_data.py:65-66 | a crime cell fails the cast exactly when it is present and not a number once its commas are removed; otherwise it gives that number, or NaN when absent |
| PostgresLoader.CastRaisesExactly | postgresql_upload_data.py:57-66 | the cast loop raises exactly when a measure is missing from every document of a non-empty collection (an all-NaN float column refuses `.str.replace`) or some present measure is not a number once its commas are gone |
| PostgresLoader.CrimeCast | postgresql_upload_data.py:57-66 | the cast loop raises exactly as `CastRaisesExactly` says; otherwise every measure is cast (NaN where a document lacks it) and `State`/`Year` are kept |
| PostgresLoader.WithCrimeKeySpec | postgresql_upload_data.py:69 | building the key raises exactly when `State` or `Year` is missing from every document of a non-empty collection (`.str.strip` on an all-NaN column); otherwise `state_year` is the trimmed `State` followed by the trimmed `Year`, NaN where either is missing |
| PostgresLoader.CrimeFrameSpec | postgresql_upload_data.py:41-71 | the crime fetch raises exactly when the cast raises or `State`/`Year` is missing from every document of a non-empty collection (there is no coercion); otherwise its frame has the twelve keys and `state_year`, cast measures, and `state_year` = trimmed `State` + trimmed `Year` |
| PostgresLoader.CrimeKeyIgnoresPadding | postgresql_upload_data.py:69 | whitespace around the state or the year does not change the crime key |
| PostgresLoader.FetchCrimeData | postgresql_upload_data.py:41-71 | the fetch's loops, including the `.str` checks on the measure, `State` and `Year` columns, compute `CrimeFrame` |
| PostgresLoader.FinancialListDistinct | postgresql_upload_data.py:81-82 | the nine education measures are distinct and differ from `STATE`, `YEAR` and `state_year` |
| PostgresLoader.EducationFrameSpec | postgresql_upload_data.py:74-114 | the education fetch raises exactly when `STATE`, `YEAR` or a measure is absent from every document; otherwise `STATE` is the mapped name (NaN outside the map), measures are coerced, and `state_year` = name + `YEAR` |
| PostgresLoader.FetchEducationData | postgresql_upload_data.py:74-114 | the fetch's loops compute `EducationFrame` |
| PostgresLoader.DedupTuplesSpec | postgresql_upload_data.py:122-124 | the deduplicated tuples have pairwise distinct keys, exactly the frame's `state_year` values, each the last of its key, in row order, and deduplicating again changes nothing |
| PostgresLoader.StateYearTuplesSpec | postgresql_upload_data.py:117-124 | dimension tuples exist exactly when `state_year`, `state` and `year` are columns; they are the rows' `(state_year, state, year)` with duplicate keys dropped, keeping the last |
| PostgresLoader.CrimeColumnsLayout | postgresql_upload_data.py:145-147 | the uploaded crime columns are `state_year` and then the ten measures in cast order |
| PostgresLoader.CrimeTuplesSpec | postgresql_upload_data.py:140-148 | the crime tuples always exist: one per document, in order, the key and then the ten cast measures, with no dedup |
| PostgresLoader.UnemploymentTuplesSpec | postgresql_upload_data.py:168-174 | unemployment tuples exist exactly when some document has `month`; they are each document's key, month and coerced rate, and the dimension tuples exist |
| PostgresLoader.EducationTuplesSpec | postgresql_upload_data.py:192-200 | the education tuples always exist: one per document before dedup (key then nine coerced measures), then duplicate keys dropped keeping the last |
| Reporting.MatchesSpec | visualize_data.py:19-22 | with unique dimension ids, a rate row joins with at most one dimension row: exactly one when its id is present, carrying that row's year and state and the rate |
| Reporting.JoinLength | visualize_data.py:19-22 | the join has at most as many rows as the rates, and exactly as many when every id is present |
| Reporting.PairsOfSpec | visualize_data.py:19-22 | the `GROUP BY year, state` groups are distinct, and a pair is a group exactly when some joined row has it |
| Reporting.RateSumBounds | visualize_data.py:19 | with every rate of a group within `[lo, hi]`, the group sum lies between count·lo and count·hi |
| Reporting.PairAverageSpec | visualize_data.py:19 | `avg` is NULL exactly when the group has no non-NULL rate, and otherwise lies within the bounds of the rates |
| Reporting.UnemploymentQuerySpec | visualize_data.py:19-37 | the query yields one row per (year, state), exactly the pairs the join has, each carrying its group's average |
| Reporting.InsertByYear | visualize_data.py:113 | inserting adds exactly the one row |
| Reporting.SortByYear | visualize_data.py:113 | sorting is a permutation of the rows |
| Reporting.InsertByYearSorted | visualize_data.py:113 | inserting into a year-sorted list keeps it sorted |
| Reporting.SortByYearSpec | visualize_data.py:113 | `sort_values(by=['year'])` gives rows in ascending year order and is a permutation of its input |
| Reporting.StateRowsSpec | visualize_data.py:142 | the Alabama filter keeps exactly the rows whose state is the given one, in their order |
| Reporting.YearTotalAppend | visualize_data.py:162 | a year's total over two lists is the sum of their totals |
| Reporting.GroupSumSpec | visualize_data.py:154-166 | `groupby('year').sum()` has exactly the years present as keys, each mapped to the sum of its rows' values with NaN skipped |
| Reporting.YearTotalPermutation | visualize_data.py:162 | a year's total does not depend on the rows' order |
| Reporting.GroupSumPermutation | visualize_data.py:113-166 | the per-year totals do not depend on the rows' order, so the unstable sort cannot change them |
| Reporting.TotalCrimeSpec | visualize_data.py:158-161 | `Total_crime` is the sum of the nine crime measures, NaN exactly when one of them is NaN, and does not depend on the population coverage |
| Reporting.CrimeData.AddTotalCrime | visualize_data.py:158-161 | the column is added in place, one `Total_crime` per row, leaving the rows unchanged |
| Reporting.VisualizeCombinedResult | visualize_data.py:148-169 | the crime rows are unchanged and gain a `Total_crime` column holding each row's total; the three series passed to the chart are the per-year sums of the unemployment averages, the total expenditure and the total crime |
| Reporting.UnemploymentTotalIsSum | visualize_data.py:165-166 | two states' averages 4.0 and 6.0 in one year give 10.0: the unemployment series is a sum, not an average |

## Left out

- Web pages, spreadsheets and files are not read. The Selenium pages are passed in as
  functions from year (and month) to the rows' texts. The downloaded spreadsheet is
  passed in as a function from URL to its rows. The CSV number printing of `to_csv` is a
  parameter `fmt`. The JSON files are not modelled either: the records go unchanged from
  a scraper to the staging writer.
- The form filling (`fillDriverDetails`, `fillOptions`, the drop-downs and submit
  clicks), the sleeps and the `print` calls have no effect on the data and are left out.
- The database connections (pymongo, psycopg2) are left out, and so are `create_schema`,
  the SQL text, `mogrify`, commits and the `try`/`except` blocks that print errors. An
  upload is modelled as the tuples it sends. The fetch failure in the reporting step
  (`data = None`, an empty frame) is not modelled.
- The document store's `_id` field is not modelled: the loader's `find({}, {'_id': 0})`
  never sees it.
- Floating point is modelled as exact reals. `ParseDecimal` accepts plain signed
  decimals only, not exponents, `inf` or `nan` texts.
- Reporting.UnemploymentQuerySpec: the database returns the groups in no promised order,
  so the model gives them in first-appearance order and its contract does not speak of
  order.
- Reporting.SortByYearSpec: pandas' default sort is not stable. The contract states
  ascending order and permutation only, while the model's insertion sort keeps equal
  years in input order.
- Pandas frames are modelled as values. An in-place column update returns a new frame,
  so aliasing between frames is not captured. A column holding both numbers and text,
  which makes `+` raise, cannot arise from the staged text and is modelled as a failure
  only.
- EducationExtract.YearRecordsSpec, EducationExtract.EduDataLength: a sheet is a list
  of rows, each with an integer `STATE` code and the nine numeric measures, none of
  them missing or NaN. So the model does not capture the `KeyError` when the sheet
  lacks a measure column (extract_education_data.py:44-52), the rows with a NaN
  `STATE` that `groupby` drops (line 35), or a float `STATE` column that the CSV writes
  as `1.0` and the state map then turns into NaN.
- Reporting.PairAverageSpec: a stored rate is NULL or a number. The loader's coercion
  uploads NaN for a rate that is not a number, and PostgreSQL's `avg` over a group
  holding a NaN is NaN; the model has no NaN rate, so its averages do not show that.
- runner.py (it runs the stages in order, and runs the crime scraper only under the
  `extract_education` flag), the YAML configuration, `delete_edu_files` and the plotly
  charts (`draw_combined_graph`, `visualize_*` plotting calls) are not part of this
  model.
