# Bank of Algeria exchange-rate scraper, modelled in Dafny

The original program is a small Node.js service. On each request to `/api/rates` it:

- fetches the Bank of Algeria's daily exchange-rate page;
- reads one USD and one EUR rate per published date from the page's tables;
- stores the rates whose `(date, currency)` pair is not stored yet in the SQLite table `exchange_rate`;
- answers with the whole table, ordered by date.

This project models the two pieces of logic between the network, the HTML parser and the database engine.

The modules:

- `Text` (`text.dfy`) holds the string operations the code relies on:
  - JavaScript's `trim`;
  - `split` on one character;
  - `replace` with a string pattern, which replaces only the first occurrence;
  - SQLite's BINARY order on TEXT values.
- `Calendar` (`calendar.dfy`) holds proleptic Gregorian day numbers and the `getDay()` weekday numbering, where 0 is Sunday and 6 is Saturday.
- `Scraper` (`scraper.dfy`) holds the per-table extraction rule of `fetchExchangeRates`, and the loop that applies it to the tables in page order.
  - A table is its header text plus its body rows of cell texts.
  - The page is either loaded tables or a failure.
- `Store` (`store.dfy`) holds the `exchange_rate` table of `database.js`. It is a class with a sequence of rows and the next AUTOINCREMENT id. It has the three queries `rateExists`, `saveExchangeRate` and `getExchangeRates`.
- `RatesRoute` (`rates_route.dfy`) holds:
  - `doesRateExist`;
  - the check-then-save loop of the `/api/rates` handler;
  - the handler itself.

  The records the loop writes are given by the function `Saves`. The properties of the loop are proved about `Saves`, and the loop method is proved to write the prefix of `Saves` that commits before the first rejected insert, which is all of it when no insert is rejected.
- `Wrappers` (`wrappers.dfy`) holds the `Option` type.

Storage failures are modelled as follows:

- `readFault`, fixed when a table is created, makes every lookup and listing fail.
- `writeBudget` says how many more inserts the engine accepts: `None` for any number, `Some(n)` for the next `n`. After that, every insert fails.
- An insert whose rate `parseFloat` reads as NaN (such as `-` or `N/D`) also fails. The binding passes NaN as NULL, and the `rate REAL NOT NULL` column rejects it.

The handler's loop has no transaction. A failed insert ends the request with an error, and the inserts committed before it stay in the table. `Committed(writes, budget)` counts the writes that go through before the first rejected one.

## Model

| member | source | states |
|---|---|---|
| Text.Trim | server.js:34 | the trimmed text neither starts nor ends with JavaScript whitespace; it is empty exactly when the text is all whitespace |
| Text.TrimPadded | server.js:34 | `trim` removes any whitespace margins around a core that neither starts nor ends with whitespace, and keeps that core unchanged |
| Text.TrimMargins | server.js:34 | the trimmed text is a slice of the input whose two margins are all whitespace |
| Text.TrimIdempotent | server.js:34 | trimming twice is trimming once |
| Text.Split | server.js:38 | `split('-')` gives at least one piece, and no piece holds the separator |
| Text.JoinSplit | server.js:38 | joining the pieces of `split` with the separator gives back the text |
| Text.SplitAfterPiece | server.js:38 | a separator-free first piece comes out of `split` as it is, followed by the split of the rest |
| Text.SplitNoSeparator | server.js:38 | text without the separator splits into itself alone |
| Text.ReplaceFirst | server.js:68-69 | `replace(',', '.')` changes only the first comma, and leaves text with no comma unchanged |
| Text.IndexOf | server.js:68-69 | the position found holds the character, and no earlier position does |
| Text.LexLe | database.js:60 | SQLite's BINARY order on TEXT: a prefix comes first, otherwise the first differing character decides; Text.LexLeTotal, Text.LexLeTransitive and Text.LexLeAntisymmetric make it a total order |
| Text.DigitsValue | server.js:39 | the decimal value of `k` digits is below `10^k` |
| Text.LexLeTotal | database.js:60 | any two dates are ordered one way or the other by text order |
| Text.LexLeTransitive | database.js:60 | text order is transitive |
| Text.LexLeAntisymmetric | database.js:60 | two texts ordered both ways are equal |
| Calendar.DaysInMonth | server.js:39 | a Gregorian month has 28 to 31 days |
| Calendar.DaysFromCivil | server.js:39 | the day number that `new Date("YYYY-MM-DD")` denotes, counted from 1 January 1970; Calendar.Epoch, Calendar.NextDay, Calendar.NextMonth and Calendar.NextYear pin it down day by day |
| Calendar.WeekDay | server.js:40 | `getDay()` is a weekday number from 0 to 6 |
| Calendar.NextWeekDay | server.js:40 | the weekday advances by one each day, Saturday wrapping to Sunday |
| Calendar.Epoch | server.js:39-40 | day 0 is 1 January 1970, a Thursday (4) |
| Calendar.NextDay | server.js:39 | consecutive days of a month have consecutive day numbers |
| Calendar.NextMonth | server.js:39 | each month starts right after the previous month's Gregorian length, leap Februaries included |
| Calendar.NextYear | server.js:39 | 1 January follows the 31 days of December |
| Scraper.HeaderDate | server.js:38-39 | a date that parses has month 1 to 12, day 1 to 31 and a four-digit year |
| Scraper.HeaderDateOfParts | server.js:38-39 | a `DD-MM-YYYY` header of digits in range denotes the day `YYYY-MM-DD` |
| Scraper.DayOfWeek | server.js:39-40 | the weekday is 0 to 6, and it exists exactly when the header parses; otherwise it is the NaN of an Invalid Date |
| Scraper.IsWeekend | server.js:40-43 | the weekday is 6 or 0; an Invalid Date is neither (Scraper.InvalidDateNotSkipped), Saturday `23-12-2023` is one (Scraper.SaturdayHeader) and Wednesday `20-12-2023` is not (Scraper.WednesdayHeader) |
| Scraper.InvalidDateNotSkipped | server.js:39-46 | a header that is not a date is never skipped as a weekend: the table yields an entry exactly when both rates are present |
| Scraper.Cell | server.js:49-57 | the text of body row `row+1`, column `col+1`, or the empty text when that row or cell is missing; Scraper.RateText states what the rate taken from those cells is |
| Scraper.RateText | server.js:49-58 | the rate is the trimmed second cell; when that is empty after trimming, it is the trimmed first cell; it is empty exactly when both cells are whitespace |
| Scraper.DecimalText | server.js:68-69 | the decimal text has the rate's length, and equals the rate when the rate has no comma |
| Scraper.TableEntry | server.js:34-73 | a weekend table yields nothing; a table missing either rate yields nothing; otherwise it yields the trimmed header with both rates, comma turned into point |
| Scraper.Present | server.js:27 | the collected entries are no more than the tables |
| Scraper.Sources | server.js:30 | every collected entry is the outcome of one table, named by its index |
| Scraper.SourcesIncreasing | server.js:30 | the source tables of successive entries come in increasing order |
| Scraper.SourcesComplete | server.js:30 | every table that yields an entry is the source of one collected entry |
| Scraper.PresentSnoc | server.js:66 | pushing one more outcome appends its entry, if any, at the end |
| Scraper.PresentAppend | server.js:30 | collecting over two runs of tables is collecting over each in turn |
| Scraper.ExtractAllSnoc | server.js:63-73 | one more table adds its entry at the end when it yields one, and nothing otherwise |
| Scraper.ExtractedEntries | server.js:63-70 | every scraped entry comes from a table, has a non-weekend date and has two non-empty rates |
| Scraper.ExtractionOrder | server.js:30-74 | entries keep the order of their tables, and every table that yields an entry contributes it |
| Scraper.ExtractAllAppend | server.js:30-74 | the entries of concatenated tables are the concatenated entries |
| Scraper.ExtractAll | server.js:27-74 | the entries of the tables that yield one, in table order; Scraper.ExtractedEntries, Scraper.ExtractionOrder and Scraper.ExtractAllAppend pin it down |
| Scraper.HeaderWeekDay | server.js:38-40 | the weekday of a `DD-MM-YYYY` header of digits in range is the weekday of the day those digits denote |
| Scraper.HeaderDateShape | server.js:38-39 | conversely, a header that parses is two digits, `-`, two digits, `-`, four digits, then nothing or further `-`-separated text that is ignored; its date is the one those digits denote |
| Scraper.SaturdayHeader | server.js:40 | `23-12-2023` falls on a Saturday (6) |
| Scraper.WednesdayHeader | server.js:40-43 | `20-12-2023` falls on a Wednesday (3) and is not a weekend |
| Scraper.SaturdaySkipped | server.js:42-46 | the table for Saturday `23-12-2023` yields nothing, whatever its rates |
| Scraper.FetchExchangeRates | server.js:20-82 | a failed fetch or load gives the empty list; otherwise the loop pushes exactly the entries of the extraction rule, in table order |
| Store.HasNumericPrefix | server.js:68-69 | `parseFloat` reads a number exactly when, after leading whitespace and an optional sign, the text starts with a digit, a point and a digit, or `Infinity` |
| Store.NumericPrefixAfterTrim | server.js:68-69 | a text reads as a number exactly when its leading whitespace trimmed off does, and then exactly when it starts, after an optional sign, with a digit, a point and a digit, or `Infinity` |
| Store.NumericPrefixExamples | database.js:9 | `-`, `N/D` and the empty text read as NaN, so their insert is rejected; ` 134.5`, `-0.5` and `.5` read as numbers |
| Store.AcceptsWrite | database.js:40-52 | the engine accepts an INSERT exactly when the budget is not spent and the rate is not NaN; Store.ExchangeRateTable.SaveExchangeRate and Store.CommittedStops state its effect |
| Store.NumericRun | database.js:9 | no more writes are counted than were issued |
| Store.NumericRunStops | database.js:9 | the counted writes all have a rate `parseFloat` reads, and the write after them, if any, has a NaN rate |
| Store.NumericRunAppend | database.js:9 | the count over two runs stops inside the first when its count does, and otherwise runs on into the second |
| Store.Committed | database.js:40-52 | no more writes commit than were issued, nor more than the budget allows |
| Store.CommittedStops | database.js:40-52 | every committed write had a rate `parseFloat` reads, and the write after them, if any, is the one the engine rejects |
| Store.CommittedAppend | database.js:40-52 | issuing two runs of writes in turn: a rejection in the first ends everything there; otherwise the second commits against the budget the first left |
| Store.CommitFirstRejected | server.js:130-143 | when a write of the first run is rejected, the second run commits nothing, and the table holds the same prefix |
| Store.CommitFirstAccepted | server.js:130-143 | when the whole first run commits, the second commits as it would on its own against the budget the first left |
| Store.InsertByDate | database.js:60 | inserting into a listing sorted by date descending keeps it sorted and adds exactly that row |
| Store.SortByDateDesc | database.js:60 | `ORDER BY date DESC` gives a permutation of the rows in which no date is text-smaller than a later one |
| Store.ListingNotChronological | database.js:55-60 | in a listing, `20-12-2023` comes before `05-01-2024`, although it is the earlier day |
| Store.Has | database.js:22 | some record has exactly this date and exactly this currency, the condition of `SELECT 1 ... WHERE date = ? AND currency = ?`; Store.ExchangeRateTable.RateExists answers it and RatesRoute.HasAppend keeps it under appends |
| Store.ExchangeRateTable.constructor | database.js:5-12 | a new table is empty, its ids start at 1, and it has the given read fault and write budget |
| Store.ExchangeRateTable.RateExists | database.js:20-31 | a failed query is an error; otherwise the answer is true exactly when some row has that date and that currency |
| Store.ExchangeRateTable.SaveExchangeRate | database.js:40-52 | an insert fails with a write error, changing nothing, exactly when the budget is spent or the rate is NaN to `parseFloat`; otherwise exactly one row is appended with the given currency, rate and date under a fresh id above every existing id, the rows already there are unchanged, and one unit of budget is spent |
| Store.ExchangeRateTable.GetExchangeRates | database.js:58-69 | a failed query is an error; otherwise the answer is every row, each once, sorted by date text descending |
| RatesRoute.DoesRateExist | server.js:90-100 | the answer is the lookup's answer, and false when the lookup fails |
| RatesRoute.Found | server.js:90-100 | what `doesRateExist` answers: the stored pair exists and the lookup did not fail; RatesRoute.DoesRateExist is proved to return it |
| RatesRoute.Scraped | server.js:118 | what `fetchExchangeRates` returns for the page: nothing for a failed page, otherwise Scraper.ExtractAll of its tables; Scraper.FetchExchangeRates is proved to return it |
| RatesRoute.EntrySaves | server.js:124-143 | the records one iteration writes: both checks against the records as they were, then USD if missing, then EUR if missing; RatesRoute.EntrySavesPresent and RatesRoute.OneNewEntry pin it down |
| RatesRoute.Saves | server.js:121-144 | the records the loop writes when no insert is rejected, each iteration checking against the records written so far; RatesRoute.SavesPresent, RatesRoute.SavesIdempotent, RatesRoute.SavesKeepUnique and RatesRoute.SavesAreScraped state what it promises |
| RatesRoute.SavesPrefix | server.js:121-144 | the writes for the first entries are a prefix of the writes for all entries |
| RatesRoute.SavesSnoc | server.js:121-144 | helper: one more entry adds the writes of one more check-then-save iteration, as `Saves` is defined, stated for a prefix of the entries |
| RatesRoute.HasAppend | database.js:42-48 | appending rows never loses a stored `(date, currency)` pair |
| RatesRoute.EntrySavesPresent | server.js:124-143 | after one iteration with working lookups, the date's USD and EUR pairs are both stored |
| RatesRoute.SavesPresent | server.js:121-144 | after the loop with working lookups, every scraped `(date, USD)` and `(date, EUR)` pair is stored |
| RatesRoute.SavesNothingWhenPresent | server.js:129-143 | when every scraped pair is already stored, the loop writes nothing |
| RatesRoute.SavesIdempotent | server.js:121-144 | running the loop again over the same entries writes nothing |
| RatesRoute.AppendUnique | database.js:42 | appending a record whose pair is not yet stored keeps every pair unique |
| RatesRoute.SavesKeepUnique | server.js:124-143 | with working lookups, the loop never stores a `(date, currency)` pair twice |
| RatesRoute.SavesAreScraped | server.js:129-143 | every record the loop writes is the USD or EUR rate of a scraped entry, under that entry's date |
| RatesRoute.SavesOnReadFault | server.js:96-99 | when every lookup fails, the loop writes both rates of every entry again: entry `k`'s USD record at position `2k` and its EUR record at `2k+1` |
| RatesRoute.SaveEntry | server.js:122-143 | of the missing-at-check-time USD then EUR records, one iteration appends exactly those committed before the first rejected insert; it ends with a write error exactly when an insert was rejected |
| RatesRoute.SaveRates | server.js:121-144 | the loop appends exactly the prefix of the records given by `Saves` that commits before the first rejected insert, and nothing else; it ends with a write error exactly when that prefix is short |
| RatesRoute.SavesStep | server.js:121-144 | after fully committed iterations, the next one's writes extend the run, and the table holds the committed prefix of the writes so far |
| RatesRoute.SavesAbort | server.js:121-156 | an insert rejected in iteration `i` is where the whole loop's committed prefix ends, so later entries write nothing |
| RatesRoute.OneNewEntry | server.js:130-143 | a single entry whose date has neither pair stored writes its USD record, then its EUR record |
| RatesRoute.UsdKeptWhenEurRejected | server.js:130-143 | with room for one insert, a new entry keeps its USD row although its EUR insert is rejected and the request fails |
| RatesRoute.NanRateRejected | server.js:130-133 | a missing USD pair whose rate is NaN to `parseFloat` is rejected before anything is written, whatever the budget |
| RatesRoute.HandleRatesRequest | server.js:115-157 | the table gains exactly the committed prefix of the loop's writes over the scraped entries; no entries means no writes; the answer is a write error exactly when an insert was rejected; it is the full listing, sorted by date, exactly when all inserts committed and reads work; otherwise it is a read error |

## Left out

- The HTTPS fetch and its certificate-ignoring TLS agent are left out because they are network I/O. The page is a parameter: either loaded tables or `Failed`, which stands for any exception during fetch or load.
- HTML parsing with cheerio and its CSS selectors are left out because they are a foreign library.
  - A table arrives as its header text and its body cells' texts.
  - A missing row or cell reads as the empty text.
- Scraper.HeaderDate: only the ISO date-only form `YYYY-MM-DD` is taken as a date. JavaScript engines also accept other shapes through implementation-defined fallback parsing, such as a one-digit day. Those shapes are modelled as an Invalid Date.
- Scraper.DayOfWeek: the weekday is taken in UTC. `new Date("YYYY-MM-DD")` is UTC midnight, but `getDay()` reads local time, so west of UTC it gives the previous weekday. Timezones are not modelled.
- `parseFloat` and the REAL `rate` column are left out because they are floating point. A rate is kept as the decimal text `parseFloat` would read, after the first comma becomes a point. That text is also what is stored. Of `parseFloat` the model keeps only whether the text reads as a number or as NaN (Store.HasNumericPrefix), because a NaN rate makes the insert fail.
- Express wiring is left out: static files, the `/` route, the 404 handler, `app.listen`, PORT, and the JSON body of the 500 answer. A response is either the listing or the error that aborted the request.
- Concurrency is left out. Two simultaneous requests can both find a pair missing and both insert it. The model runs requests one at a time, so RatesRoute.SavesKeepUnique covers only sequential runs.
- Promise plumbing and all console output are left out.
- Storage failures are modelled only as a read flag fixed per table and a count of inserts the engine still accepts. A read failure that comes and goes between statements, and an insert rejected for another reason (a full disk, a locked file) followed by one that succeeds, are not modelled. Within one request the first rejected insert ends the request anyway.
- The order SQLite picks among rows with equal dates is left out. Store.SortByDateDesc fixes one such order, and the listing's contract states only sortedness and permutation.
- Reopening a database file that already holds rows is left out. A new table is empty, as on first creation.

