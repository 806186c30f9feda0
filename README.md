# Finance tracker ledger — a Dafny model

This project models the transaction ledger behind the MicDog Finance Tracker
API (`api/index.php`). That ledger is one flat `transactions` table of dated,
signed amounts with a description, category, account and optional tags. The
model covers:

- the payload check `validate_transaction`, in create mode and in partial (PUT) mode;
- `query()` and the `from`/`to`/`category`/`q` filter builder, which is written
  out three times in the source (list, stats, export). The model has both the
  clause and parameter lists it builds and the row predicate SQLite evaluates
  for them;
- the list order (date descending, then id descending) and the export order
  (date ascending, then id ascending, header row first);
- create, get, the PUT partial-update builder and its effect on the stored
  row, and delete;
- the stats: income, expense, balance, the month series and the per-category
  breakdown;
- the CSV export lines and the CSV import loop: header check, insertion of
  the accepted rows, skipping of the others, the count it answers.

The table is a class `Store.Store` with the rows in rowid order and the
AUTOINCREMENT counter. Its methods are the API's state-changing operations,
written as in the source: a loop for the validator, the update builder and
the import. The SQL queries are functions over `seq<Transaction>`. The text
built-ins the code relies on are modelled exactly:
- PHP `trim` and `strtolower`.
- The PCRE date pattern, including PCRE's `$`, which also accepts one
  trailing newline.
- SQLite's BINARY text order.
- SQLite's `LIKE`, with `%`, `_` and ASCII case folding.

Module layout:
- `text.dfy` holds the string built-ins.
- `ledger.dfy` holds the record, payload and error types.
- `validation.dfy` holds the validator.
- `filter.dfy` holds the criteria, the clause builder and the row predicate.
- `ordering.dfy` holds the two orders.
- `stats.dfy` holds the aggregates.
- `csv.dfy` holds export and import.
- `store.dfy` holds the table and its operations.

The API means every stored row to have a well-formed date and non-blank
description, category and account, and never to bind a null to a NOT NULL
column. Where the code falls short of that, the model follows the code:

- **A null in create.** A present-but-null `date`, `description`, `category`
  or `account` passes validation, because `isset` is false for it. The
  INSERT then breaks the column's NOT NULL constraint, and the catch-all
  answers with a server error.
- **A null in update.** The same happens in PUT, but only when the row
  exists.
- **Accepting "0".** `query()` accepts the string `"0"`, but the builder's
  `if ($x = query(..))` treats it as false. So `"0"` filters nothing.
- **Trailing newline in dates.** The date check accepts a trailing newline,
  and that date is then stored as written.
- **Non-blank columns on import.** Import does not check that description,
  category or account are non-blank. So the "never empty" invariant holds
  for create and update only. The model states the date invariant, which
  every write path does enforce.

## Model

| member | source | states |
|---|---|---|
| Validation.Validate | api/index.php:103-128 | the error map has an entry exactly for each field that is missing (create mode only, all six keys including tags) or is set and fails its check; a missing key gets 'Required', a failed check its own message; no errors exactly when the payload is acceptable; partial mode never reports 'Required' |
| Validation.Flag | api/index.php:111-125 | definition of one `if (isset(..) && <check fails>)` step; its meaning is stated by Validation.FlagStep |
| Validation.FlagStep | api/index.php:111-125 | a check step turns the report of the fields checked so far into the report of those fields and its own: an entry for its field exactly when it is set and fails, with that field's message, and every earlier entry kept |
| Text.TrimEmptyIffBlank | api/index.php:114-121 | a value trims to the empty string exactly when all its characters are among " \t\n\r\0\x0B" |
| Text.Lower | api/index.php:342 | ASCII upper-case letters become lower case, every other character is kept, length is kept |
| Text.IntTextRoundTrip | api/index.php:320 | the text an amount is exported as is numeric and parses back to the same amount |
| Text.IsDatePattern | api/index.php:111 | definition, no contract: `^\d{4}-\d{2}-\d{2}$` with PCRE's `$`, so ten characters of that shape, optionally followed by one newline |
| Text.Like | api/index.php:152-153 | definition, no contract: SQLite's LIKE with `%`, `_` and ASCII case folding; its meaning for the search is stated by Text.LikeContains |
| Text.LexLe | api/index.php:148-149 | definition, no contract: SQLite's BINARY text order; its properties are stated by the LexLe lemmas below |
| Text.LikeContains | api/index.php:152-153 | for search text without wildcards, `LIKE '%q%'` holds exactly when q occurs in the value, compared ASCII case-insensitively |
| Text.LexLeTotal | api/index.php:148-149 | any two texts are comparable in SQLite's text order |
| Text.LexLeAntisymmetric | api/index.php:159 | texts ordered both ways are equal |
| Text.LexLeTransitive | api/index.php:159 | the text order is transitive |
| Text.LexLeFirstDifference | api/index.php:148-149 | texts agreeing on a prefix are ordered by their first differing character |
| Filter.ActiveQuery | api/index.php:80-82 | a criterion filters exactly when the request carries it with a value other than "" and "0", and then with that value |
| Filter.WherePlaceholders | api/index.php:157-158 | the number of `?` in the generated WHERE text equals the number of parameters the clauses take |
| Filter.HoldsAppend | api/index.php:158 | clauses joined with AND hold exactly when each part holds on its own parameters |
| Filter.AddClause | api/index.php:148-155 | one builder step adds its clause and its parameters exactly when its criterion is active, keeping clauses in fixed order and the clause list meaning "all criteria so far" |
| Filter.BuildFilter | api/index.php:145-158 | parameters line up with the placeholders; a clause appears exactly for each active criterion, in the order from, to, category, q; the clauses with their parameters hold on a row exactly when the row matches the criteria |
| Filter.MatchesEverythingUnfiltered | api/index.php:157-158 | with no active criterion every row matches |
| Filter.SearchHitIsSubstring | api/index.php:151-154 | q matches when it occurs in description, in non-null tags or in account; NULL tags never match |
| Filter.Select | api/index.php:157-162 | the selected rows are exactly the stored rows on which the WHERE clause holds |
| Filter.FilterRows | api/index.php:148-158 | the filtered rows are exactly the stored rows matching the criteria, no more of them than stored, ids still ascending |
| Filter.FilterRowsCount | api/index.php:148-158 | a matching row is kept as many times as it is stored, a non-matching row never |
| Filter.Matches | api/index.php:148-154 | definition, no contract: a row matches when it passes every active criterion; tied to the SQL by Filter.BuildFilter |
| Filter.ClauseHolds | api/index.php:148-154 | definition, no contract: what one WHERE clause means on a row, given its bound parameters |
| Filter.SelectIsFilter | api/index.php:157-162 | the SQL the builder generates selects the same rows, in the same order, as the criteria describe |
| Ordering.Sort | api/index.php:159 | the result is a permutation of its input sorted by (date, id), ascending or descending |
| Ordering.ListAndExportSelectMatches | api/index.php:157-159 | list and export are sorted in their respective orders and hold exactly the matching rows, each as many times as it is stored (multiset count), a non-matching row never |
| Ordering.ListIsReversedExport | api/index.php:307 | with unique ids, the list order is the export order reversed |
| Ordering.SortedUnique | api/index.php:159 | two sortings of the same rows by (date, id) agree when ids are unique, so the order is fully determined |
| Stats.Income | api/index.php:258 | income is never negative |
| Stats.Expense | api/index.php:259 | expense is never positive |
| Stats.IncomeExpensePartition | api/index.php:257-262 | income plus expense is the sum of all matching amounts |
| Stats.Month | api/index.php:265 | definition of `substr(date,1,7)`; its meaning is stated by Stats.MonthOfDate and Stats.MonthMonotone |
| Stats.MonthOfDate | api/index.php:265 | the month of a well-formed date is its YYYY-MM part: seven characters, digits around a '-' at position 4 |
| Stats.MonthMonotone | api/index.php:264-268 | an earlier date never falls in a later month, so the month series follows date order |
| Stats.GroupSums | api/index.php:264-280 | one group per distinct key with keys strictly ascending, each total the sum of that group's amounts, all totals adding up to the sum of every amount |
| Stats.AscendingKeysDistinct | api/index.php:264-268 | a series with strictly ascending keys has as many entries as distinct keys |
| Stats.SortByTotal | api/index.php:277 | the groups are permuted into non-decreasing total order, keeping their overall sum |
| Stats.Summarize | api/index.php:257-288 | definition, no contract: the stats answer; its properties are stated by Stats.SummaryConsistent |
| Stats.SummaryConsistent | api/index.php:257-288 | income ≥ 0, expense ≤ 0, balance = income + expense = sum of amounts, all zero with no rows; series has one entry per month present, ascending, with correct totals; byCategory has one entry per category, non-decreasing totals, correct totals; both views add up to balance |
| Csv.ExportLine | api/index.php:318-321 | each exported line has the six columns in header order |
| Csv.ExportFile | api/index.php:305-322 | the file is the header followed by one line per matching row |
| Csv.ExpectedHeaderAccepted | api/index.php:316 | the header the export writes passes the import's header check |
| Csv.AcceptedHasFiveCells | api/index.php:355-357 | an accepted CSV row has at least the five cells up to amount, so only tags may be missing |
| Csv.HeaderOk | api/index.php:340-343 | definition, no contract: six header cells equal to the expected names after trim and lower-casing; Csv.ExpectedHeaderAccepted states the export header passes it |
| Csv.Accepts | api/index.php:356-357 | definition, no contract: a CSV row is inserted when its first cell matches the date pattern and its fifth is numeric; Csv.AcceptedRows states the import keeps exactly these |
| Csv.RowRecord | api/index.php:355-358 | definition of the inserted row; its meaning is stated by Csv.RowRecordExportsBack |
| Csv.RowRecordExportsBack | api/index.php:318-321 | the record of an accepted CSV row exports to a line with the same date, description, category and account, an amount text parsing to the same amount, and tags as the row's sixth cell or ""; that line is accepted again and reads back as the same record, with NULL tags as "" |
| Csv.AcceptedRows | api/index.php:354-357 | the inserted rows are exactly those whose date matches the pattern and whose amount is numeric |
| Csv.AcceptedRowsCount | api/index.php:354-359 | each accepted row is inserted as often as it occurs; a rejected row never is |
| Csv.Records | api/index.php:358-359 | definition of the accepted rows' records, numbered consecutively; the loop's meaning is stated by Csv.ImportStep and Csv.ImportedWellFormed |
| Csv.ImportStep | api/index.php:354-360 | one loop step appends the row's record, numbered after the earlier ones, exactly when the row is accepted |
| Csv.ImportedWellFormed | api/index.php:354-360 | imported records have consecutive ascending ids and well-formed dates |
| Csv.ExportLineReadsBack | api/index.php:318-321 | an exported line with a well-formed date is accepted and reads back as the same record (NULL tags as "") |
| Csv.ExportImportRoundTrip | api/index.php:340-360 | importing an export re-creates every exported row in export order with the same date, texts and amount |
| Ledger.TextOf | api/index.php:180-185 | definition, no contract: the text PDO binds for a JSON value (null as "", booleans as "1"/"", numbers in decimal) |
| Ledger.AmountOf | api/index.php:185 | definition, no contract: PHP's `(float)` cast of an amount value, on integers |
| Ledger.NullableText | api/index.php:211 | definition, no contract: a JSON null binds NULL, anything else its text |
| Store.FirstNullColumn | api/index.php:53-56 | the reported NOT NULL failure is the first column in table order whose bound value is null |
| Store.NewRecord | api/index.php:175-186 | definition of the row INSERT stores; its meaning is stated by Store.NewRecordNonBlank |
| Store.NewRecordNonBlank | api/index.php:168-186 | a create payload that passes validation and binds no null to a NOT NULL column has all five required keys and is stored with a well-formed date and non-blank description, category and account |
| Store.UpdatedNonBlank | api/index.php:200-216 | a partial payload that passes validation and binds no null keeps a stored row's date well-formed and its text columns non-blank |
| Store.Assign | api/index.php:210-211 | definition, no contract: the listed columns take the payload's values; Store.SetColumnAssigns and Store.PatchEffect state its use |
| Store.Patch | api/index.php:206-216 | definition, no contract: the SET list applied column by column, stopping at a NOT NULL failure; its meaning is stated by Store.PatchEffect |
| Store.SetColumnAssigns | api/index.php:210-211 | assigning one column fails exactly on a null for a NOT NULL column, otherwise changes only that column |
| Store.PatchEffect | api/index.php:206-219 | the UPDATE fails exactly when a listed NOT NULL column is set to null (the first such in column order); otherwise exactly the listed columns change |
| Store.UpdateTagsOnly | api/index.php:208-216 | a PUT naming only tags changes only tags and `updated_at` |
| Store.Assignments | api/index.php:206-214 | the SET list names exactly the payload's keys, in column order; it is empty exactly for an empty payload |
| Store.Find | api/index.php:233 | the lookup finds a row with the id, or reports that no row has it |
| Store.Without | api/index.php:227-228 | deleting keeps exactly the rows with another id |
| Store.WithoutAbsent | api/index.php:227-229 | deleting an id no row has leaves the table as it is |
| Store.AppendKeepsTable | api/index.php:52 | appending records numbered from the counter keeps ids ascending and below the new counter and dates well-formed |
| Store.ReplaceKeepsTable | api/index.php:216-219 | replacing a row by one with the same id and a well-formed date keeps the table invariant |
| Store.WithoutKeepsTable | api/index.php:227-228 | deleting keeps the table invariant |
| Store.Store.constructor | api/index.php:51-61 | the table starts empty with the counter at 1 |
| Store.Store.Create | api/index.php:168-190 | an unacceptable payload gives the validation errors and no write; a null NOT NULL column gives that constraint error and no write; otherwise exactly one row with the next id is appended |
| Store.Store.Get | api/index.php:232-236 | a stored row with the id, or NotFound exactly when no row has it |
| Store.Store.Update | api/index.php:200-222 | validation errors, then 'Nothing to update' for an empty payload, then no change and no row for a missing id, then the first NOT NULL error; otherwise that one row is replaced by its update, and nothing else changes |
| Store.Store.Delete | api/index.php:225-229 | answers the id and removes exactly the rows with it; missing ids are no error |
| Store.Store.Import | api/index.php:327-364 | a missing or wrong header gives HeaderMismatch and no change; otherwise exactly the accepted rows are appended in file order with consecutive ids and their number is answered |
| Store.Store.InsertAccepted | api/index.php:354-360 | the records of the accepted rows are appended in file order with ids consecutive from the counter, the counter moves past them and their count is answered; every other row is skipped |
| Store.Store.List | api/index.php:142-164 | answers the matching rows by date and id descending |
| Store.Store.Statistics | api/index.php:241-288 | answers the stats of the matching rows |
| Store.Store.Export | api/index.php:291-324 | answers the export file of the matching rows |
| Store.SingleRowSummary | api/index.php:257-271 | a single row counts as income or expense by its sign and forms the one series entry of its month |
| Store.MarchFilterSelects | api/index.php:246-247 | a March date range keeps a March row and drops an April row |
| Store.MarchFilterExample | api/index.php:241-288 | with a -120 March expense and a -30 April expense filtered to March, expense and balance are -120 and the series is the single March entry |

## Left out

- Amounts are integers (whole units of the stored number), not PHP floats or SQLite REAL. The `(float)` casts and float-to-text conversion are modelled only for integer values.
- Text.IntTextRoundTrip: holds for the model's integer amounts only. The source writes an amount with PHP's `(string)` of a float, which keeps 14 significant digits, so from 10^14 up the text is in exponent form and rounded (123456789012345 exports as "1.2345678901234E+14" and reads back as 123456789012340). It also assumes PHP 8.1 or later: earlier pdo_sqlite fetches a REAL 5000 as "5000.0".
- Csv.ExportLineReadsBack: same limit as Text.IntTextRoundTrip; the exact read-back holds for amounts below 10^14 in magnitude and for PHP 8.1 or later.
- Csv.ExportImportRoundTrip: same limit as Text.IntTextRoundTrip; the exact round trip holds for amounts below 10^14 in magnitude and for PHP 8.1 or later.
- Csv.RowRecordExportsBack: same limit as Text.IntTextRoundTrip.
- Text.IsNumeric: PHP `is_numeric` is simplified to an optional sign followed by decimal digits. The source accepts decimals, exponents and leading whitespace; the model does not. So the model's validator reports 'Must be numeric' for an amount "12.50", and its import skips a row with that amount, where the source accepts both.
- Ledger.Value: JSON payload values are scalars only (null, boolean, integer, string). Nested arrays and objects, and non-object request bodies other than the empty payload, are not modelled.
- Unknown payload keys are dropped, because the source ignores them. A payload with only unknown keys is therefore the empty payload.
- HTTP routing, status codes, JSON emission, the session and the CSRF check are request plumbing. They are not modelled.
- The upload checks and file handles of import are not modelled.
- The `Throwable` catch-all is not modelled beyond the NOT NULL error it reports.
- CSV byte-level encoding (`fputcsv` quoting, `fgetcsv` parsing) is not modelled. A CSV file is the sequence of records `fgetcsv` returns. A blank line, which `fgetcsv` returns as a single null cell, is modelled as an empty record; both are skipped.
- The JSON key order of the error map is not modelled. Errors are a map from field to message.
- Stats.SortByTotal: SQLite leaves the order of categories with equal totals unspecified. The model fixes it to category text order, which is the grouping order, followed by a stable sort on total.
- Ids are unbounded. PHP and SQLite 64-bit id overflow is not modelled.
- Timestamps from `datetime('now')` are an opaque parameter `now`.
- Import atomicity: no accepted row can violate a constraint, because an accepted row has all five cells up to amount. So the only abort is the header check, which is modelled as no change. A failure of the database itself mid-import is not modelled.
- `public/app.js` is user interface code and is not part of this model.
