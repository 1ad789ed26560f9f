# BRVM daily bulletin parser, modelled in Dafny

`brvm_parser.py` fetches the daily quotation bulletin ("bulletin officiel de
la cote") of the BRVM, the regional stock exchange of the UEMOA countries. It
reads the stock tables from its PDF pages and upserts one record per listed
company and day into a database. This project models the part of the program
that decides what those records are, and proves what that part promises.

- **Cell cleaning (`clean_num`).** A cell is reduced to its digits, `,`, `.`
  and `-`. The comma becomes a dot. The result is read as a decimal number,
  or as nothing when it is not one. Numbers are exact decimals
  (`Decimal(mantissa, scale)`) rather than binary floats.
- **Row classification and mapping (`parse_stock_row`).** A row is a stock
  row when all of these hold:
  - it has at least 12 cells;
  - its first cell is one of the sector codes CB, CD, TEL, FIN, IND, ENE, SPU;
  - its second cell is a ticker of 3 to 6 capital letters.

  Such a row is mapped by column position into a record. Prices go through
  the cleaner, percentages through `pct`, volume and traded value through an
  integer conversion, and the PER cell is read before its first comma.
- **The bulletin (`parse_bulletin`).** The three nested loops walk page
  indices 1 to 5, every table on each page and every row of each table. They
  keep the first record seen for each ticker. The PDF layout engine is not
  modelled: the document is given as the grid it would yield (pages of tables
  of rows of cells, each cell `None` or text).
- **Trading days (`is_trading_day`, `last_trading_day`,
  `trading_days_back`).**
  - A trading day is Monday to Friday and not a holiday.
  - The two loops step back one day at a time from today.
  - Dates are day ordinals as `date.toordinal()` gives them.
  - Today and the holiday calendar are parameters.
- **The outcome of one date (`process_date`).** No document counts as a
  success. The download gives no document both for a missing bulletin
  (HTTP 404) and after all its retries have failed, so a failed download is
  reported as a success too. A document without records counts as a failure. Otherwise the
  result of the database write decides.

Files:
- `wrappers.dfy`: `Option`.
- `py_text.dfy`: the Python string behaviour the parser relies on.
- `clean_num.dfy`: the cleaner and its reference printer.
- `stock_row.dfy`: the row gate and the mapping.
- `bulletin.dfy`: the page, table and row loops, the properties of their
  result, and `process_date`.
- `calendar.dfy`: the trading-day helpers.

Where the code and its comments disagree, the model follows the code:
- **The newline split.** The comment in `clean_num` (brvm_parser.py:119) says
  a cell such as `"1 226,\n13"` is cut at the newline. But the filter on the
  line before has already deleted every newline and backslash, so the split
  never cuts anything, and that cell reads as 1226.13
  (`Cleaner.SplitAfterFilterIsInert`, `Cleaner.NewlineInsideCell`).
- **The page window.** The comment in `parse_bulletin` (brvm_parser.py:167)
  says page indices 1 to 4. The loop `range(1, 6)` visits indices 1 to 5
  (`Bulletin.Window`, `Bulletin.LaterPagesIgnored`).
- **Column 3** of a stock row is never read (`StockRow.ColumnThreeIgnored`).

## Model

| member | source | states |
|---|---|---|
| PyText.Strip | brvm_parser.py:131 | `strip()` is empty exactly when the text is all whitespace; otherwise it starts and ends with non-whitespace, it is the slice after the leading whitespace, and only whitespace follows it |
| PyText.StripUnpadded | brvm_parser.py:133 | text with no whitespace at either end is its own `strip()` |
| PyText.ReplaceChar | brvm_parser.py:146 | `replace(a, b)` keeps the length and changes exactly the positions holding `a` |
| PyText.ReplaceAbsent | brvm_parser.py:146 | replacing a character that does not occur leaves the text unchanged |
| PyText.RemoveChar | brvm_parser.py:151 | `replace(c, "")` leaves no `c` and never lengthens the text; `RemoveCharMultiset` and `RemoveCharAppend` pin down the rest |
| PyText.RemoveCharMultiset | brvm_parser.py:151 | every copy of `c` is removed and every other character is kept as often as it occurs |
| PyText.RemoveCharAppend | brvm_parser.py:151 | deletion works piece by piece, so the kept characters stay in their order |
| PyText.BeforeFirst | brvm_parser.py:120 | `split(c)[0]` is a prefix without `c`, followed in the input by `c` when it is shorter |
| PyText.BeforeFirstAbsent | brvm_parser.py:158 | `split(c)[0]` of text without `c` is the whole text |
| PyText.ReplacedStripHasNoNewline | brvm_parser.py:146 | a stripped company name with its newlines turned into spaces has no newline and no whitespace at either end |
| Cleaner.Filter | brvm_parser.py:118 | the filtered text keeps only digits, `.` and `-`, and is never longer than the cell; `FilterKept`, `FilterAppend` and `CleanNumIgnores` pin down the rest |
| Cleaner.FilterKept | brvm_parser.py:118 | text made only of digits, `,`, `.` and `-` keeps every character, in order, with each `,` turned into `.` |
| Cleaner.FilterAppend | brvm_parser.py:118 | the filter works piece by piece: the filter of a concatenation is the concatenation of the filters |
| Cleaner.CleanNum | brvm_parser.py:115-117 | a `None` cell cleans to `None` |
| Cleaner.CleanNumText | brvm_parser.py:118-124 | `clean_num` of a text cell, as written; `CleanNumIsParseOfFilter`, `CleanNumNone` and `CleanNumFormat` state what it returns |
| Cleaner.ParseDecimal | brvm_parser.py:122-124 | `float` on text over `[0-9.-]`, with `None` for a `ValueError`; `ParseDecimalAccepts` states when it succeeds, and `ParseUnsignedInteger`, `ParseUnsignedDotted`, `ParseDecimalUnsigned` and `ParseDecimalSigned` give its value on every accepted literal |
| Cleaner.ParseUnsignedInteger | brvm_parser.py:122 | a run of digits, leading zeros included, reads as the integer those digits spell |
| Cleaner.ParseUnsignedDotted | brvm_parser.py:122 | `a.f` with digits on at least one side of the dot (so `.5` and `5.` too) reads as the digits of `a` then `f`, scaled by the number of digits in `f` |
| Cleaner.ParseDecimalUnsigned | brvm_parser.py:122 | a literal without a sign reads as its unsigned value |
| Cleaner.ParseDecimalSigned | brvm_parser.py:122 | a `-` before an unsigned literal negates its value |
| Cleaner.LeadingDotAndZeros | brvm_parser.py:122 | `.5`, `-.5` and `-007`, which the printer never produces, read as 0.5, -0.5 and -7 |
| Cleaner.ParseFormat | brvm_parser.py:122 | the decimal parse inverts the reference printer: every decimal, printed and parsed back, is itself |
| Cleaner.CleanNumFormat | brvm_parser.py:115-124 | a printed decimal passes through `clean_num` unchanged |
| Cleaner.ParseDecimalAccepts | brvm_parser.py:121-124 | the parse succeeds exactly on the grammar `-? (digits+ ('.' digits*)? \| '.' digits+)`, stated without the parser |
| Cleaner.ParseUnsignedAccepts | brvm_parser.py:122 | the unsigned parse succeeds exactly on digits with at most one dot and at least one digit |
| Cleaner.SplitAfterFilterIsInert | brvm_parser.py:118-120 | the newline and backslash split after the filter never changes the filtered text |
| Cleaner.CleanNumIsParseOfFilter | brvm_parser.py:118-122 | `clean_num` is the decimal parse of the filtered text; the `""`/`"-"` guard agrees with the parse |
| Cleaner.CleanNumNone | brvm_parser.py:115-124 | `clean_num` gives `None` exactly when the filtered text is not one well-formed decimal; a cell without digits always gives `None` |
| Cleaner.CleanNumIgnores | brvm_parser.py:118 | a character outside `[0-9,.-]` anywhere in the cell has no effect on the result |
| Cleaner.CleanNumRemoveChar | brvm_parser.py:118 | deleting every occurrence of a dropped character first (space, `%`) does not change the result |
| Cleaner.CleanNumReplaceChar | brvm_parser.py:118 | replacing one dropped character by another first (newline by space) does not change the result |
| Cleaner.ThousandsAndDecimalComma | brvm_parser.py:118-122 | `"1 226,13"` cleans to 1226.13 |
| Cleaner.NewlineInsideCell | brvm_parser.py:119-120 | `"1 226,\n13"` cleans to 1226.13, not to 1226 |
| Cleaner.EmptyDashAndText | brvm_parser.py:122 | `""`, `"-"` and `"N/A"` clean to `None` |
| Cleaner.TwoDots | brvm_parser.py:121-124 | `"1.2.3"` cleans to `None` |
| Cleaner.InnerDash | brvm_parser.py:121-124 | `"1-2"` cleans to `None` |
| StockRow.Trunc | brvm_parser.py:151 | `int()` of a decimal truncates toward zero: for either sign, the result's magnitude is the largest whole number not above the value's magnitude |
| StockRow.IntCell | brvm_parser.py:151-152 | the volume and traded-value conversion; `IntCellRule` states its result in every case |
| StockRow.Pct | brvm_parser.py:137-140 | the inner `pct`; `PctRule` states its result |
| StockRow.PerText | brvm_parser.py:158 | the PER conversion; `PerBeforeComma` states that only the text before the first comma counts |
| StockRow.Company | brvm_parser.py:146 | the company name; `CompanyName` and `CompanyKeptAsIs` state its result |
| StockRow.TickerMatches | brvm_parser.py:111-112 | `TICKER_RE`, including the `$` before a final newline, together with `SectorCodes`; `StrippedTickerMatches` and `ParseStockRowGate` state what the gate accepts |
| StockRow.MapRow | brvm_parser.py:142-159 | the positional mapping; `ColumnThreeIgnored`, `TwelveCellRow`, `IntCellRule`, `PctRule`, `PerBeforeComma` and `CompanyName` state its fields |
| StockRow.ParseStockRow | brvm_parser.py:127-159 | `parse_stock_row`; `ParseStockRowGate` states exactly which rows it accepts and what the record carries |
| StockRow.ParseStockRowGate | brvm_parser.py:129-135 | a row gives a record exactly when it has at least 12 cells, a sector code in cell 0 and a ticker of 3 to 6 capitals in cell 1; the record carries the date and those two stripped cells |
| StockRow.StrippedTickerMatches | brvm_parser.py:112 | on a stripped cell, the ticker pattern (whose `$` also matches before a final newline) agrees with "3 to 6 capitals" |
| StockRow.ShortRowRejected | brvm_parser.py:129-130 | a row of fewer than 12 cells is never a record |
| StockRow.HeaderRowRejected | brvm_parser.py:133-135 | a row whose cell 1 is `Titre` is not a record |
| StockRow.CompanyName | brvm_parser.py:146 | the company name is `None` exactly for an empty or `None` cell 2; otherwise it has no newline and no whitespace at either end |
| StockRow.CompanyKeptAsIs | brvm_parser.py:146 | a company cell without surrounding whitespace or newlines is kept as written |
| StockRow.ColumnThreeIgnored | brvm_parser.py:142-159 | whatever cell 3 holds, the row parses the same |
| StockRow.IntCellRule | brvm_parser.py:151-152 | volume and traded value are 0 for a `None` cell or one that does not clean to a number, and otherwise the cleaned number truncated toward zero |
| StockRow.VolumeWithSeparator | brvm_parser.py:151 | the volume cell `"1 000"` is 1000 |
| StockRow.ExampleRowIsStockRow | brvm_parser.py:129-135 | a row of at least 12 cells with `FIN` and `ABCD` in cells 0 and 1 passes the gate |
| StockRow.ExampleRowAccepted | brvm_parser.py:142-152 | such a row with `"1 000"` in cell 8 is the record for FIN/ABCD with volume 1000 |
| StockRow.PctRule | brvm_parser.py:137-140 | a percentage is `None` for a missing or empty cell and otherwise the cleaned cell, the `%` making no difference |
| StockRow.PerBeforeComma | brvm_parser.py:158 | the PER is the cleaned text before the first comma; what follows the comma is ignored |
| StockRow.TwelveCellRow | brvm_parser.py:155-158 | a 12-cell stock row has no dividend, dividend date, net yield or PER |
| Bulletin.Window | brvm_parser.py:168-171 | the pages read are indices 1 to 5, fewer when the document is shorter, in order |
| Bulletin.Parsed | brvm_parser.py:174 | one verdict per row |
| Bulletin.ParsedAt | brvm_parser.py:173-174 | the verdict for row `k` is `parse_stock_row` of row `k` |
| Bulletin.FirstIndex | brvm_parser.py:175 | the first verdict accepting a ticker: it accepts it, and no earlier one does |
| Bulletin.KeepDistinct | brvm_parser.py:175-177 | the seen-set keeps each ticker at most once |
| Bulletin.KeepComplete | brvm_parser.py:175-177 | every accepted ticker is kept |
| Bulletin.KeepFirstInOrder | brvm_parser.py:175-177 | each kept record is the first verdict for its ticker, and the records follow the order of those first verdicts |
| Bulletin.KeepRow | brvm_parser.py:174-177 | the row-loop body extends the result exactly as reading one more row does, and the seen-set stays the set of kept tickers |
| Bulletin.ScanTable | brvm_parser.py:173-177 | the row loop reads a whole table in order |
| Bulletin.ScanPage | brvm_parser.py:172-177 | the table loop reads a whole page in order |
| Bulletin.ParseBulletin | brvm_parser.py:162-180 | the page loop returns exactly the bulletin of pages 1 to 5 |
| Bulletin.Bulletin | brvm_parser.py:162-180 | the result of `parse_bulletin`; `BulletinDistinctInOrder`, `BulletinFirstOccurrence` and `BulletinComplete` state which records it holds and in what order |
| Bulletin.BulletinDistinctInOrder | brvm_parser.py:175-177 | the bulletin's tickers are pairwise distinct and ordered by the row that first carried them |
| Bulletin.BulletinFirstOccurrence | brvm_parser.py:162-177 | every record is `parse_stock_row` of the first row of pages 1 to 5 accepted for its ticker |
| Bulletin.BulletinComplete | brvm_parser.py:162-177 | every ticker accepted on any row of pages 1 to 5 is in the bulletin |
| Bulletin.ShortDocument | brvm_parser.py:168-170 | a document of fewer than two pages gives no record |
| Bulletin.FirstPageIgnored | brvm_parser.py:168 | page 0 never affects the bulletin |
| Bulletin.LaterPagesIgnored | brvm_parser.py:168 | pages after index 5 never affect the bulletin |
| Bulletin.TablesOutsideWindow | brvm_parser.py:217-227 | a document with no table on pages 1 to 5 gives no record and makes `process_date` fail, while no document at all succeeds |
| Bulletin.ProcessDate | brvm_parser.py:217-227 | `process_date`; `ProcessDateOutcome` states its result |
| Bulletin.ProcessDateOutcome | brvm_parser.py:217-227 | no document is a success; a document succeeds exactly when some row of pages 1 to 5 is a stock row and the upsert succeeds |
| Calendar.Weekday | brvm_parser.py:56 | `weekday()` lies in 0..6 |
| Calendar.KnownDates | brvm_parser.py:37-48 | the ordinals and weekdays agree with Python's calendar on 0001-01-01 and on all ten listed holidays |
| Calendar.ShippedHolidays | brvm_parser.py:37-48 | the holiday list is these ten distinct days |
| Calendar.IsTradingDay | brvm_parser.py:55-56 | `is_trading_day`, Monday to Friday and not a holiday; `TradingDayAtOrBefore`, `LastTradingDay` and `TradingDaysBack` rely on it |
| Calendar.TradingDayAtOrBefore | brvm_parser.py:55-56 | from any day, a trading day exists at most three days per holiday plus two days back |
| Calendar.ShippedLookBack | brvm_parser.py:37-63 | with the listed holidays, a trading day is never more than 32 days back |
| Calendar.LastTradingDay | brvm_parser.py:59-63 | the result is a trading day on or before today, no later day up to today is one, and it lies within the bound above |
| Calendar.TradingDaysBack | brvm_parser.py:66-74 | exactly `n` days (none for `n <= 0`), each a trading day no later than today, strictly decreasing, and no trading day between the oldest and today left out |
| Calendar.LastIsFirstBack | brvm_parser.py:59-74 | `last_trading_day()` is the first of `trading_days_back(n)` for `n >= 1` |

## Left out

- `download_pdf` (brvm_parser.py:81-104) is network I/O with retries and sleeps. `process_date` receives its result as the `fetched` parameter, where `None` stands alike for a 404 (brvm_parser.py:91-93) and for all retries failing (brvm_parser.py:103-104).
- `upsert_to_supabase` (brvm_parser.py:187-210) is a REST call configured by environment variables. `process_date` receives its outcome as the `sinkAccepts` parameter. Its empty-list branch is unreachable from `process_date`.
- `main` and its argument parsing, logging, printing and exit codes are plumbing with no effect on the records.
- `pdfplumber` table extraction is a layout engine outside this model. The document is given as the pages, tables and rows it would yield.
- StockRow.Trunc, StockRow.IntCellRule: binary floating point is not modelled. Numbers are exact decimals, so rounding of long mantissas is not captured. Nor is the `OverflowError` that `int()` raises on a value of more than about 309 digits, which `float` turns into infinity.
- Cleaner.Filter: `\d` in Python's `re` also matches non-ASCII decimal digits. The model keeps only `0`-`9`.
- `Record.date` is the day ordinal, not its `isoformat()` text.
- Calendar.LastTradingDay, Calendar.TradingDaysBack: days are unbounded integers. Stepping back past `date.min`, which raises in Python, is not modelled.
- The three nested loops of `parse_bulletin` are written as three methods, one per loop level (`ParseBulletin`, `ScanPage`, `ScanTable`, with the row body in `KeepRow`). They run in the same order on the same state.
