# Voucher service model

A Dafny model of the core of the voucher management backend: the voucher
service (single-record create, update, delete and lookup, CSV import,
structured batch import, CSV export), the voucher repository it calls, the
pagination helpers and the list-response builder.

- **Store.** The repository is a class `Store.VoucherStore` over a table of
  voucher rows (a `seq<Voucher>` in insertion order), an id sequence and a
  logical clock that stamps `created_at`, `updated_at` and `deleted_at`.
  It has these semantics:
  - Delete is soft.
  - `Save` is an upsert.
  - The unique index on `voucher_code` covers every row, soft-deleted ones
    included.
  - The finds see only active rows.
  - The list query counts every active match, orders by a table column
    (`created_at desc` when no column is given), and cuts the page with
    OFFSET/LIMIT as the ORM renders them.
- **Service.** The service is a class `Service.VoucherService` holding the
  store. A ghost log records the repository calls it makes, so contracts
  state which calls happen and in which order.
- **Import loops.** The CSV and batch loops are imperative, as in the Go
  code. Each loop is proved against a function that describes the loop
  after `k` iterations (`PlanCsvRows`, `PlanBatch`). The report properties
  are lemmas about those functions.
- **Split-out steps.** Some methods of `Service.VoucherService` have no Go
  function of their own: `LookUpForUpdate`, `CheckRow`, `ValidateRows`,
  `CollectCodes`, `DuplicateMap`, `RouteOne`, `RouteBatch` and `ExportLines`.
  Each is a stretch of the Go method that contains it, split out so that its
  contract can be proved on its own.
- **Go's arithmetic and text handling.** These are written out in small
  modules:
  - `GoInt`: 64-bit wrap-around, and `/` and `%` truncating toward zero.
  - `GoStrings`: `strings.TrimSpace`, the UTF-8 byte length that `len`
    counts, and ASCII lower-casing.
  - `GoStrconv`: `strconv.Atoi`, the decimal forms of `ParseFloat`, and
    `%.2f` with round-half-even.
  - `Dates`: `time.Parse`/`Format` with layout `2006-01-02`, and day numbers
    for comparing dates.
- **Today.** The current day is a parameter `today`: a day number, compared
  with the expiry's day number.

Where the specification text and the code disagree, the model follows the
code:
- **Uniqueness.** The specification calls codes unique among non-deleted
  vouchers. The index is a plain unique index, so inserting a code that a
  soft-deleted row still holds fails (`Store.InsertDeletedCodeFails`).
- **Export header.** The header is `voucher_code, discount_percent,
  expiry_date`, not `code, discount, date`.
- **Batch error lines.** They read `Code <code>: <reason>`.
- **Unreadable CSV.** An unreadable CSV file is its own error, distinct from
  an empty one.

## Model

| member | source | states |
|---|---|---|
| GoInt.Wrap64 | pkg/utils/pagination.go:70-72 | the 64-bit value an `int` result holds: in range, congruent to the exact value modulo 2^64, equal to it when it fits |
| GoInt.Quot | internal/delivery/http/response/voucher_response.go:56 | Go's `/`: for a non-negative dividend, the quotient truncated toward zero for either sign of divisor |
| GoInt.Rem | internal/delivery/http/response/voucher_response.go:57 | Go's `%`: dividend = divisor * quotient + remainder, and the remainder of a non-negative dividend lies in [0, abs(divisor)) |
| GoStrings.TrimSpace | internal/service/voucher_service_impl.go:215 | the result has no leading or trailing white space and is an infix of the input with only white space cut on either side |
| GoStrings.TrimSpaceOfTrimmed | internal/service/voucher_service_impl.go:215 | text without surrounding white space is left unchanged |
| GoStrings.TrimSpaceIdempotent | internal/service/voucher_service_impl.go:233 | trimming twice is trimming once |
| GoStrings.RuneLen | internal/service/voucher_service_impl.go:219 | a character takes 1 to 4 UTF-8 bytes, exactly 1 iff it is ASCII |
| GoStrings.Utf8Len | internal/service/voucher_service_impl.go:219 | `len` of a string is between its character count and 4 times it, and equals the character count iff every character is ASCII |
| GoStrings.LowerAscii | internal/repository/voucher_repository_impl.go:29 | `LOWER` keeps the length and lower-cases exactly the ASCII capitals |
| GoStrings.ContainsAt | internal/repository/voucher_repository_impl.go:29 | the substring test holds iff the needle occurs at some position of the text |
| GoStrconv.FixedDigitsValue | internal/service/voucher_service_impl.go:283 | zero-padded digits of a number that fits read back as the number |
| GoStrconv.DigitsValueFixed | internal/service/voucher_service_impl.go:244 | reading a digit run and writing it back at the same width gives the same text |
| GoStrconv.DecimalDigitsValue | internal/service/voucher_service_impl.go:282 | the decimal spelling of a number reads back as the number |
| GoStrconv.Atoi | pkg/utils/pagination.go:50 | succeeds iff the text is an optionally signed digit run whose value fits in 64 bits, and then yields that value |
| GoStrconv.AtoiOfDecimal | pkg/utils/pagination.go:50 | `Atoi` reads back the decimal spelling of every non-negative `int` |
| GoStrconv.RoundHalfEven | internal/service/voucher_service_impl.go:239 | the rounded integer is within one half of the value, and non-negative for a non-negative value |
| GoStrconv.FormatFixed2 | internal/service/voucher_service_impl.go:282 | `%.2f` text has two digits after a point, a minus sign iff the value is negative, and digits at both ends otherwise |
| GoStrconv.FormatFixed2Cents | internal/service/voucher_service_impl.go:282 | for a value in whole cents the text is the whole part, a point and the two-digit cents |
| GoStrconv.CentsValue | internal/service/voucher_service_impl.go:282 | those whole and cent digits denote the value again |
| GoStrconv.RoundIntegral | internal/service/voucher_service_impl.go:282 | rounding an integral value returns it |
| GoStrconv.FormatFixed2RoundTrip | internal/service/voucher_service_impl.go:234 | `ParseFloat` of the `%.2f` text of a whole-cents value gives the value back |
| GoStrconv.ParsePointed | internal/service/voucher_service_impl.go:234 | `ParseFloat` reads `[-]digits.digits` as the signed value of those digits |
| GoStrconv.ParsePointedUnsigned | internal/service/voucher_service_impl.go:234 | the unsigned reader reads `digits.digits` as their value |
| GoStrconv.ParsePointedMantissa | internal/service/voucher_service_impl.go:234 | the mantissa reader reads `digits.digits` as their value |
| GoStrconv.ParseFloatSigned | internal/service/voucher_service_impl.go:234 | a minus sign before a numeral that starts with a digit negates its value; without a sign the value is unchanged |
| GoStrconv.IndexOfExp | internal/service/voucher_service_impl.go:234 | the position of the first exponent letter, or the length when there is none |
| GoStrconv.IndexOfDot | internal/service/voucher_service_impl.go:234 | the position of the first decimal point, or the length when there is none |
| GoStrconv.IndexOfExpAbsent | internal/service/voucher_service_impl.go:234 | text with no exponent letter has its exponent position at its end |
| GoStrconv.IndexOfDotAt | internal/service/voucher_service_impl.go:234 | the first point is found where it is |
| Dates.DaysInMonth | internal/service/voucher_service_impl.go:61 | every month has 28 to 31 days |
| Dates.ParseDate | internal/service/voucher_service_impl.go:61 | an accepted text has the `YYYY-MM-DD` shape and names a real calendar day |
| Dates.FormatDate | internal/service/voucher_service_impl.go:283 | `Format("2006-01-02")` output has the `YYYY-MM-DD` shape |
| Dates.ParseFormatDate | internal/service/voucher_service_impl.go:283 | parsing a formatted date gives the date back |
| Dates.FormatParseDate | internal/service/voucher_service_impl.go:61 | every accepted text is canonical: formatting the parsed date gives the text back |
| Dates.DayOfYearBounds | internal/service/voucher_service_impl.go:72 | a valid day's offset within its year is less than the year's length |
| Dates.MonthsOrdered | internal/service/voucher_service_impl.go:72 | in one year a day of an earlier month comes before every day of a later month |
| Dates.YearsOrdered | internal/service/voucher_service_impl.go:72 | every day of an earlier year comes before the first day of a later year |
| Dates.DayNumberOrder | internal/service/voucher_service_impl.go:72 | day numbers compare exactly as calendar dates do (`Before`), and are equal only for equal dates |
| Pagination.ParsePage | pkg/utils/pagination.go:49-55 | the page is the parsed value when it is an integer of at least 1, otherwise 1; always at least 1 |
| Pagination.ParseLimit | pkg/utils/pagination.go:58-67 | 10 for a non-integer or a value below 1, 100 above 100, the value otherwise; always in 1..100 |
| Pagination.CalculateOffsetAsWritten | pkg/utils/pagination.go:70-72 | the 64-bit offset equals (page - 1) * limit whenever that product fits |
| Pagination.CalculateOffset | pkg/utils/pagination.go:70-72 | for page >= 1 and limit >= 0 the offset is the non-negative count limit * (page - 1) of rows on earlier pages |
| Pagination.OffsetCountsEarlierRows | pkg/utils/pagination.go:70-72 | with a parsed limit the offset is non-negative and the next page starts exactly `limit` rows later |
| Pagination.CalculateOffsetWraps | pkg/utils/pagination.go:70-72 | page 2^63 - 1 with limit 100 gives offset -200 as written, where the intended offset is positive |
| Pagination.CalculateOffsetAgrees | pkg/utils/pagination.go:70-72 | the written and the intended offset agree while the product fits in 64 bits |
| Pagination.NormaliseSortOrder | pkg/utils/pagination.go:29-37 | the order is always "asc" or "desc", and "asc" exactly when "asc" was given |
| Pagination.ParsePaginationParams | pkg/utils/pagination.go:24-46 | page and limit parsed as above; the offset is the 64-bit `(page - 1) * limit`, equal to the non-negative count of earlier rows whenever that count fits in 64 bits; sortBy passed through unchanged, order normalised |
| Pagination.ParsedOffsetWraps | pkg/utils/pagination.go:24-27 | page text 9223372036854775807 with limit text 100 parses to offset -200 |
| Pagination.CalculateTotalPages | pkg/utils/pagination.go:75-77 | the least page count whose pages hold all rows: pages * limit >= total and (pages - 1) * limit < total |
| Pagination.TotalPagesZero | pkg/utils/pagination.go:75-77 | zero pages exactly when there are no rows |
| Pagination.TotalPagesUnique | pkg/utils/pagination.go:75-77 | the page count is the one number of pages that covers every row with no page left empty |
| Entity.NewVoucher | internal/service/voucher_service_impl.go:77-81 | a voucher to insert carries exactly the given code, discount and expiry, with id and timestamps unset and not deleted |
| Ordering.ColumnNamed | internal/repository/voucher_repository_impl.go:37 | the `created_at` and `deleted_at` columns are named by exactly those identifiers, case-insensitively |
| Ordering.DirectionNamed | internal/repository/voucher_repository_impl.go:37 | `desc` is descending; `asc` and an empty direction are ascending, case-insensitively |
| Ordering.ParseOrderBy | internal/repository/voucher_repository_impl.go:36-41 | no sort column means `created_at desc`; otherwise the clause is valid iff it names a column and a direction |
| Ordering.StrLeTotal | internal/repository/voucher_repository_impl.go:38 | text order is total |
| Ordering.StrLeTrans | internal/repository/voucher_repository_impl.go:38 | text order is transitive |
| Ordering.StrLeAntisymmetric | internal/repository/voucher_repository_impl.go:38 | text order is antisymmetric |
| Ordering.KeyLeTotal | internal/repository/voucher_repository_impl.go:38 | the order on every sortable column is total |
| Ordering.KeyLeTrans | internal/repository/voucher_repository_impl.go:38 | the order on every sortable column is transitive |
| Ordering.ExpiryKeyIsDayNumber | internal/repository/voucher_repository_impl.go:38 | sorting by `expiry_date` orders rows by calendar day |
| Ordering.PrecedesTotal | internal/repository/voucher_repository_impl.go:38 | any two rows are comparable under an ORDER BY in either direction |
| Ordering.PrecedesTrans | internal/repository/voucher_repository_impl.go:38 | the ORDER BY relation is transitive |
| Ordering.InsertRow | internal/repository/voucher_repository_impl.go:38 | inserting into a sorted list keeps it sorted and adds exactly that row |
| Ordering.PrecedesAll | internal/repository/voucher_repository_impl.go:38 | a row the head of a sorted list does not precede comes before every row of the list |
| Ordering.HeadPrecedesRest | internal/repository/voucher_repository_impl.go:38 | the head of a sorted list precedes its tail with a row it precedes inserted anywhere |
| Ordering.ConsSorted | internal/repository/voucher_repository_impl.go:38 | a row preceding every row of a sorted list can head it and keep it sorted |
| Ordering.SortRows | internal/repository/voucher_repository_impl.go:38 | the ordered rows are a permutation of the input, sorted by the clause |
| Ordering.SortByDeletedAtKeepsOrder | internal/repository/voucher_repository_impl.go:38 | ordering active rows by `deleted_at`, in either direction, keeps them in table order |
| Ordering.InsertTiedRowAppends | internal/repository/voucher_repository_impl.go:38 | a row that every row of a sorted list precedes is inserted at its end |
| Table.RowViolation | internal/domain/entity/voucher.go:11-13 | a row is accepted iff its discount is in 1..100, its code fits the column, and neither its id nor its code is already in the table |
| Table.WellFormedPrefix | internal/domain/entity/voucher.go:11-13 | every prefix of a table satisfying its constraints satisfies them too |
| Table.RowViolationWellFormed | internal/domain/entity/voucher.go:11-13 | a row is accepted exactly when the table with it appended still satisfies every constraint |
| Table.BatchViolationWellFormed | internal/repository/voucher_repository_impl.go:91-93 | a multi-row insert is accepted exactly when the table with all rows appended satisfies every constraint |
| Table.BatchRepeatedCodeFails | internal/repository/voucher_repository_impl.go:91-93 | a multi-row insert with two rows of one code is rejected |
| Table.Stamp | internal/repository/voucher_repository_impl.go:63-65 | an inserted row gets its id and zero timestamps set to now; code, discount, expiry and deletion are kept |
| Table.IdsDrawn | internal/repository/voucher_repository_impl.go:91-93 | an insert draws at most one sequence value per row |
| Table.AssignIds | internal/repository/voucher_repository_impl.go:91-93 | each row is stamped in order, keeping an explicit id; every id is at least 1 once the sequence starts at 1 |
| Table.AssignIdsConsecutive | internal/repository/voucher_repository_impl.go:91-93 | rows without ids get consecutive sequence values in order |
| Table.SavedRow | internal/repository/voucher_repository_impl.go:68-70 | a saved row takes the given values with updated_at set to now, keeping created_at of an active stored row |
| Table.ReplaceViolation | internal/repository/voucher_repository_impl.go:68-70 | overwriting a row is accepted iff the check constraints hold and no other row holds the code |
| Table.ReplaceWellFormed | internal/repository/voucher_repository_impl.go:68-70 | an accepted overwrite keeps every table constraint, and a rejected one would break one |
| Table.IndexOfId | internal/repository/voucher_repository_impl.go:68-70 | the position of the row with that id, found iff such a row exists |
| Table.SoftDelete | internal/repository/voucher_repository_impl.go:73-75 | the active row with that id gets deleted_at = now; every other row is unchanged |
| Table.SoftDeleteWellFormed | internal/repository/voucher_repository_impl.go:73-75 | a soft delete keeps every table constraint |
| Table.FindActiveById | internal/repository/voucher_repository_impl.go:53-60 | found iff an active row has that id, and the row found is such a row |
| Table.FindActiveByCode | internal/repository/voucher_repository_impl.go:78-88 | found iff an active row has that code, and the row found is such a row |
| Table.ActiveCodesAmong | internal/repository/voucher_repository_impl.go:96-109 | a code is returned iff it is among the requested codes and an active row holds it |
| Table.SearchActive | internal/repository/voucher_repository_impl.go:28-30 | a row is kept iff it is active and its lower-cased code contains the lower-cased search (empty search keeps all), each kept row as many times as the table holds it, so the length is the number of matching rows |
| Table.Window | internal/repository/voucher_repository_impl.go:44 | the page is the contiguous run starting at a positive offset (else at 0) of `limit` rows, or all remaining rows for a negative limit |
| Table.QueryPage | internal/repository/voucher_repository_impl.go:20-50 | fails iff the ORDER BY is invalid; otherwise the count is every active match and the page is the OFFSET/LIMIT window, at the 64-bit offset `(page - 1) * limit`, of the matches sorted by the clause: only matches, at most `limit` of them, sorted |
| Table.QueryPageHoldsPage | internal/repository/voucher_repository_impl.go:24-47 | while the offset fits in 64 bits the query succeeds with the window of the sorted matches at `(page - 1) * limit`, the last of the first `page` pages |
| Table.WindowIsPage | internal/repository/voucher_repository_impl.go:24-47 | the window at `(page - 1) * limit` holds exactly the rows from there up to `page * limit`, and extends the earlier pages to the first `page` pages |
| Table.DeletedAtOrderIsTableOrder | internal/repository/voucher_repository_impl.go:38 | ordering the list by `deleted_at` lists the matches in table order, since every match is active |
| Table.PagesTile | internal/repository/voucher_repository_impl.go:24 | pages 1..n together list the first n * limit ordered rows without gap or repetition |
| Table.PagesStep | internal/repository/voucher_repository_impl.go:24 | the rows before an offset followed by the page at that offset are the rows before the page's end |
| Store.InsertStep | internal/repository/voucher_repository_impl.go:63-65 | an insert draws sequence values even when it fails; on success it appends one row per input, on failure the table is unchanged |
| Store.InsertStepWellFormed | internal/repository/voucher_repository_impl.go:91-93 | an insert keeps the table constraints and succeeds exactly when the stamped rows keep them |
| Store.SaveStepWellFormed | internal/repository/voucher_repository_impl.go:68-70 | a save keeps the table constraints and never moves the sequence back |
| Store.SaveUnknownIdInserts | internal/repository/voucher_repository_impl.go:68-70 | saving a voucher with an unknown id creates an active row with that id and code |
| Store.SaveActiveRow | internal/repository/voucher_repository_impl.go:68-70 | saving over an active row changes only that row's code, discount, expiry and updated_at |
| Store.SaveResultRow | internal/repository/voucher_repository_impl.go:68-70 | the row Save returns for a voucher with an id keeps its id, code, discount, expiry and deletion mark, with updated_at stamped now |
| Store.InsertExistingCodeFails | internal/repository/voucher_repository_impl.go:63-65 | creating a voucher whose code is already stored fails and leaves the table unchanged |
| Store.InsertDeletedCodeFails | internal/domain/entity/voucher.go:12 | a code held only by a soft-deleted row still blocks an insert |
| Store.InsertRepeatedCodeFails | internal/repository/voucher_repository_impl.go:91-93 | a bulk insert of rows two of which share a code fails, whatever the table holds |
| Store.SoftDeleteHides | internal/repository/voucher_repository_impl.go:73-75 | after a soft delete the row is not found by id or by any search, but is still stored with deleted_at set |
| Store.VoucherStore.FindAll | internal/repository/voucher_repository_impl.go:20-50 | returns the list query's page, the OFFSET/LIMIT window of the sorted matches, and the total of active matches, at most `limit` rows |
| Store.VoucherStore.FindByID | internal/repository/voucher_repository_impl.go:53-60 | succeeds iff an active row has that id; otherwise record-not-found |
| Store.VoucherStore.FindByVoucherCode | internal/repository/voucher_repository_impl.go:78-88 | an absent code is "nothing found" (not an error); present iff an active row holds the code |
| Store.VoucherStore.CheckDuplicateCodes | internal/repository/voucher_repository_impl.go:96-109 | exactly the requested codes held by active rows |
| Store.VoucherStore.Create | internal/repository/voucher_repository_impl.go:63-65 | the store becomes the insert step's table, sequence and clock; returns the stored row or the constraint error |
| Store.VoucherStore.BulkCreate | internal/repository/voucher_repository_impl.go:91-93 | an empty slice is an error that writes nothing; otherwise the all-or-nothing insert step of all rows |
| Store.VoucherStore.Insert | internal/repository/voucher_repository_impl.go:64 | the store becomes the insert step's table, sequence and clock |
| Store.VoucherStore.Update | internal/repository/voucher_repository_impl.go:68-70 | the store becomes the save (upsert) step's table, sequence and clock |
| Store.VoucherStore.Delete | internal/repository/voucher_repository_impl.go:73-75 | the table becomes its soft delete at the current instant; the sequence is unchanged |
| Validation.CheckCode | internal/service/voucher_service_impl.go:360-365 | the code passes iff it is non-empty and at most 50 bytes; "required" is reported before "too long" |
| Validation.CheckTerms | internal/service/voucher_service_impl.go:367-382 | accepted iff the discount is in 1..100, the date parses and is not before today; the first failing check decides the error |
| Validation.ValidateAndConvert | internal/service/voucher_service_impl.go:358-391 | accepted iff code, discount and date checks pass (code not trimmed); the voucher has exactly the request's values; errors in check order |
| Validation.ExpiryBoundary | internal/service/voucher_service_impl.go:378-382 | an expiry equal to today is accepted; one before today is rejected as past |
| Validation.CsvRowCode | internal/service/voucher_service_impl.go:209-221 | fewer than 3 columns is its own error; otherwise the trimmed first column must be non-empty and at most 50 bytes |
| Validation.CsvRowTerms | internal/service/voucher_service_impl.go:232-261 | a trimmed discount that is not a number is rejected first; otherwise range, date format and expiry decide as for the batch check |
| Validation.CsvRowOutcome | internal/service/voucher_service_impl.go:209-262 | an accepted row has a valid trimmed code held by no active voucher, discount in 1..100 and expiry not before today; a stored code is rejected as existing |
| Validation.CsvAgreesWithBatch | internal/service/voucher_service_impl.go:209-262 | on trimmed fields with a numeric discount and a new code, a CSV row gets exactly the batch validator's verdict |
| Service.CreateChecks | internal/service/voucher_service_impl.go:50-81 | an existing active code is rejected before any date check; a bad date next; success iff code free, date parses and not before today, with the voucher of exactly the request's values |
| Service.CreateInsertOutcome | internal/service/voucher_service_impl.go:84-89 | after the checks pass, the insert succeeds iff no row (deleted or not) holds the code and the sequence's next id is free |
| Service.UpdateChecks | internal/service/voucher_service_impl.go:93-133 | an absent id is not found; success iff found, the code unchanged or free, and the date valid and not past; the result is the stored voucher with the three fields replaced |
| Service.UpdateKeepsIdentity | internal/service/voucher_service_impl.go:130-133 | a successful update keeps id, timestamps and active state and sets exactly code, discount and expiry |
| Service.ReadRecords | internal/service/voucher_service_impl.go:162-166 | a file is read iff it tokenises and all records have the first record's field count |
| Service.CsvOutcomes | internal/service/voucher_service_impl.go:180-183 | one verdict per data row, each the row validator's verdict against the same table, with a rejection carried as its report text |
| Service.Reported | internal/service/voucher_service_impl.go:182-186 | an accepted row keeps its voucher; a rejected row becomes the text of its error |
| Service.PlanCsvRows | internal/service/voucher_service_impl.go:179-194 | after k rows, accepted plus rejected rows number k |
| Service.PlanCsvRowsExtends | internal/service/voucher_service_impl.go:179-194 | later rows only append to the accepted list and the error list |
| Service.PlanCsvRowsErrorLines | internal/service/voucher_service_impl.go:181-188 | every reported error is a rejected row's line number (index + 2) with that row's message |
| Service.PlanCsvRowsErrorsOrdered | internal/service/voucher_service_impl.go:181-188 | errors appear in file order, each row at most once, only rows already processed |
| Service.PlanCsvRowsErrorsComplete | internal/service/voucher_service_impl.go:184-190 | every rejected row is reported with its line number and message |
| Service.PlanCsvRowsAccepted | internal/service/voucher_service_impl.go:193 | each accepted row's voucher is in the insert list, after those of earlier rows |
| Service.PlanCsvRowsAcceptedGrows | internal/service/voucher_service_impl.go:193 | the accepted count never decreases from one row to the next |
| Service.PlanCsvRowsRepeat | internal/service/voucher_service_impl.go:193 | two accepted rows with one code both reach the insert list |
| Service.CsvRepeatFailsInsert | internal/service/voucher_service_impl.go:196-203 | two accepted rows with one code make the single bulk insert fail, since lookups only see stored codes |
| Service.Codes | internal/service/voucher_service_impl.go:307-310 | the code list has one entry per request, in input order |
| Service.BatchRoute | internal/service/voucher_service_impl.go:326-342 | a duplicate iff the code is in the duplicate set; accepted iff not a duplicate and valid, as exactly the request's voucher |
| Service.Routes | internal/service/voucher_service_impl.go:326-342 | one route per request, in order |
| Service.PlanBatch | internal/service/voucher_service_impl.go:324-343 | after k elements, duplicates, errors and inserts together number k |
| Service.PlanBatchRoutes | internal/service/voucher_service_impl.go:328-342 | the duplicate list holds exactly the duplicates' codes and the insert list exactly the accepted vouchers |
| Service.PlanBatchExtends | internal/service/voucher_service_impl.go:324-343 | later elements only append to the three lists |
| Service.PlanBatchRepeat | internal/service/voucher_service_impl.go:342 | two accepted elements with one code both reach the insert list |
| Service.RepeatFailsInsert | internal/service/voucher_service_impl.go:346-350 | such an insert list makes the bulk insert fail |
| Service.NewCodeIsAccepted | internal/service/voucher_service_impl.go:313-342 | a valid element whose code no active voucher holds is accepted, whatever else the batch holds |
| Service.ExportRow | internal/service/voucher_service_impl.go:280-284 | three columns: the code; the `%.2f` discount text, which reads back as the discount for whole cents; the `YYYY-MM-DD` expiry text, which parses back to the expiry |
| Service.ExportQuery | internal/service/voucher_service_impl.go:266 | the export query succeeds and returns active vouchers oldest first: all of them up to 100000, as a permutation |
| Service.ExportRowReimports | internal/service/voucher_service_impl.go:279-284 | an exported line read back by the CSV row check gives the same code, discount and expiry, for whole-cent discounts and trimmed codes |
| Service.ExportedDiscountReads | internal/service/voucher_service_impl.go:282 | the `%.2f` text needs no trimming and parses back to the discount |
| Service.ExportedDateReads | internal/service/voucher_service_impl.go:283 | the date text needs no trimming and parses back to the date |
| Service.ExportRowRejectedInSameStore | internal/service/voucher_service_impl.go:224-230 | re-importing an active voucher's exported line into the same store is rejected as an existing code |
| Service.CsvLookup | internal/service/voucher_service_impl.go:215-230 | a row makes one code lookup, with its trimmed code, exactly when it has three columns and a present code of at most 50 bytes; otherwise none |
| Service.ConcatLookups | internal/service/voucher_service_impl.go:179-194 | the lookups of the rows one by one, joined, are the lookups of the first k rows |
| Service.VoucherService.GetAll | internal/service/voucher_service_impl.go:33-35 | the store's page and total, or its error, and one list call |
| Service.VoucherService.GetByID | internal/service/voucher_service_impl.go:38-47 | the active voucher with that id, else "voucher not found"; one lookup |
| Service.VoucherService.Create | internal/service/voucher_service_impl.go:50-90 | a failed check writes nothing and only looks the code up; otherwise exactly one insert; a created voucher has the request's values, a fresh id and is stored |
| Service.VoucherService.Update | internal/service/voucher_service_impl.go:93-142 | the calls made are the id lookup, the code lookup only for a changed code, and the save only after every check; a failed check writes nothing; a success returns the row Save stamped, with the request's fields and updated_at now |
| Service.VoucherService.LookUpForUpdate | internal/service/voucher_service_impl.go:94-112 | an absent id is not found; a changed code that an active voucher holds is taken; otherwise the stored voucher; the code is looked up only when it changes |
| Service.VoucherService.Delete | internal/service/voucher_service_impl.go:145-157 | an unknown id is "voucher not found" without a delete call; otherwise exactly that id is soft-deleted |
| Service.VoucherService.ParseCSVRow | internal/service/voucher_service_impl.go:209-262 | the row validator's verdict against the stored table, with the code lookup the row's checks call for |
| Service.VoucherService.CheckRow | internal/service/voucher_service_impl.go:180-183 | one row's verdict, as its message text on rejection, and that row's lookups appended to the call log |
| Service.VoucherService.ValidateRows | internal/service/voucher_service_impl.go:179-194 | the loop builds the accepted list and the error list of the plan over all rows' verdicts, failed = number of errors, and logs each row's lookups in order |
| Service.VoucherService.ImportVouchers | internal/service/voucher_service_impl.go:160-206 | unreadable or header-only files fail with no write; otherwise the report counts rows, successes and failures, with the bulk insert called only when a row passed; totalRows = success + failed |
| Service.VoucherService.DuplicateMap | internal/service/voucher_service_impl.go:318-322 | the map holds exactly the returned codes, each mapped to true |
| Service.VoucherService.CollectCodes | internal/service/voucher_service_impl.go:307-310 | the code array holds the requests' codes in input order |
| Service.VoucherService.RouteOne | internal/service/voucher_service_impl.go:326-342 | an element's route through the map lookup and the validator is its route in the batch plan |
| Service.VoucherService.RouteBatch | internal/service/voucher_service_impl.go:324-343 | the loop builds the duplicate codes, error lines and vouchers of the batch plan, duplicates = number of duplicate codes |
| Service.VoucherService.ImportBatch | internal/service/voucher_service_impl.go:299-355 | one duplicate query with all codes in order; insert only when something is valid, its failure returned without report; inserted + duplicates + errors = received |
| Service.VoucherService.ExportVouchers | internal/service/voucher_service_impl.go:265-296 | one list call `(1, 100000, "", "created_at", "asc")`; the header, then one line per returned voucher, in order |
| Service.VoucherService.ExportLines | internal/service/voucher_service_impl.go:274-290 | the header line, then one line per voucher in order |
| Response.ToVoucherResponse | internal/delivery/http/response/voucher_response.go:34-43 | id, code, discount and timestamps copied unchanged; the expiry text has the `YYYY-MM-DD` shape and parses back to the expiry |
| Response.ToVoucherListResponse | internal/delivery/http/response/voucher_response.go:46-52 | same length and order, element i converted from voucher i |
| Response.TotalPagesAsWritten | internal/delivery/http/response/voucher_response.go:56-59 | for a positive limit the truncating quotient plus remainder bump is exactly the ceiling page count |
| Response.QuotientPages | internal/delivery/http/response/voucher_response.go:56-59 | for a positive limit, the quotient with a bump for a remainder equals the pagination helper's page count |
| Response.NegativeLimitPages | internal/delivery/http/response/voucher_response.go:56-59 | with a negative limit the count is 1 only for 0 < total < -limit, at most 0 from -limit rows on and negative from -2 * limit on |
| Response.BuildVoucherListResponse | internal/delivery/http/response/voucher_response.go:55-70 | requires a non-zero limit; vouchers converted in order; page, limit and total echoed; for a positive limit the least page count holding every row |
| Response.HandlerLimit | internal/delivery/http/handler/voucher_handler.go:41 | the Atoi value when it parses, 0 for non-numeric text, always a 64-bit value |
| Response.HandlerLimitUnchecked | internal/delivery/http/handler/voucher_handler.go:41-52 | the query texts "0", "" and "abc" reach the builder as limit 0; "-1" reaches it as -1 and 10 rows become -10 pages |
| Response.ParsedLimitPages | pkg/utils/pagination.go:58-67 | a limit parsed by `parseLimit` is never 0, and the page count is then the non-negative ceiling |

## Left out

- HTTP handling, routing, status codes, JWT and the auth middleware are not modelled. The handler's file-size, `.csv` suffix and 1000-item caps are outside the model. The handler is used only for how it turns the `limit` query text into a number (`Response.HandlerLimit`).
- The CSV tokeniser and writer are not modelled. A file is given as `Malformed` or as its records. The exact bytes of the export (quoting, line ends) are not modelled: the export is its list of records.
- The CSV reader's error message text is not modelled: an unreadable file is one error value.
- Database errors other than constraint violations and an invalid ORDER BY (connection loss, timeouts) are not modelled.
- GoStrconv.ParseFloat: only the decimal forms are modelled: sign, digits, point and exponent. Hexadecimal, `inf`, `nan` and underscores are rejected, where Go accepts some of them. Values are exact reals, with no float64 rounding.
- FormatFixed2 and ExportRowReimports: the `%.2f` round trip is stated only for discounts in whole cents. Other values are rounded in float64, which is not modelled.
- RFC 3339 formatting of `created_at`/`updated_at` in responses is not modelled: they are the store's clock instants.
- Time zones are not modelled. Create and Update compare against local midnight, the CSV and batch validators against UTC midnight. Both are the day-number parameter `today`.
- Table.SearchActive: `LIKE` wildcards inside the search text (`%`, `_`) are taken literally. Lower-casing is ASCII only.
- Ordering.SortRows: rows with equal keys keep table order. The database leaves that order unspecified. Text is compared by code point, not by collation. `sortBy` is accepted only as one of the table's seven column names, where the code interpolates any SQL text.
- The id sequence is drawn even when an insert fails, and an explicit id does not advance it. Sequence caching and gaps from other causes are not modelled.
- Pagination.CalculateTotalPages is stated for a positive limit only. Its float64 division for other limits is not modelled.
- Concurrency and check-then-act races between requests are not modelled. Every operation runs alone on the store.
- Response envelopes (`pkg/utils/response.go`, `base_response.go`), the auth service, configuration and wiring are not modelled.

## Findings

| source | as written | input that shows it | evidently intended | confidence | as-written member | corrected member |
|---|---|---|---|---|---|---|
| pkg/utils/pagination.go:70-72 | `(page - 1) * limit` in 64-bit `int` | page 9223372036854775807 (accepted by `parsePage`) with limit 100 gives offset -200 | the offset counts the rows on earlier pages and is never negative | not executed | Pagination.CalculateOffsetWraps | Pagination.OffsetCountsEarlierRows |
| internal/delivery/http/handler/voucher_handler.go:41 | the list handler passes `Atoi(limit)` unchecked to a builder that divides by it | `GET /api/vouchers?limit=0` (or `limit=abc`) reaches `total / int64(limit)` with limit 0, an integer divide by zero | the limit is parsed as `parseLimit` does, so it lies in 1..100 | not executed | Response.HandlerLimitUnchecked | Response.ParsedLimitPages |
| internal/delivery/http/response/voucher_response.go:56-59 | the page count divides by a negative limit as it is | `limit=-1` with 10 vouchers reports total_pages -10 | a page count is never negative | not executed | Response.NegativeLimitPages | Response.ParsedLimitPages |
