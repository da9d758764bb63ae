/** The two row validators of the import paths: one CSV record, and one
    element of a structured batch. Both return the first failed check. */
module Validation {
  import opened Wrappers
  import opened GoStrings
  import opened GoStrconv
  import opened Dates
  import opened Entity
  import opened Table

  // The report texts of the row errors, each split where the offending value goes.
  const MsgColumns: string := "insufficient columns (expected 3: voucher_code, discount_percent, expiry_date)"
  const MsgRequired: string := "voucher code is required"
  const MsgTooLong: string := "voucher code exceeds 50 characters"
  const MsgExistsA: string := "voucher code '"
  const MsgExistsB: string := "' already exists"
  const MsgNotNumberA: string := "invalid discount percent '"
  const MsgNotNumberB: string := "': must be a number"
  const MsgRangeA: string := "discount percent "
  const MsgRangeB: string := " out of range (must be 1-100)"
  const MsgDateA: string := "invalid date format '"
  const MsgDateB: string := "': expected YYYY-MM-DD"
  const MsgPastA: string := "expiry date "
  const MsgPastB: string := " must be today or in the future"

  /** Why a row was rejected; `Message` is the text the report carries. */
  datatype RowError =
    | InsufficientColumns
    | CodeRequired
    | CodeTooLong
    | CodeExists(code: string)
    | DiscountNotNumber(text: string)
    | DiscountOutOfRange(discount: real)
    | BadDate(text: string)
    | ExpiryPast(text: string)
  {
    function Message(): string {
      match this
      case InsufficientColumns => MsgColumns
      case CodeRequired => MsgRequired
      case CodeTooLong => MsgTooLong
      case CodeExists(c) => MsgExistsA + c + MsgExistsB
      case DiscountNotNumber(t) => MsgNotNumberA + t + MsgNotNumberB
      case DiscountOutOfRange(d) => MsgRangeA + FormatFixed2(d) + MsgRangeB
      case BadDate(t) => MsgDateA + t + MsgDateB
      case ExpiryPast(t) => MsgPastA + t + MsgPastB
    }
  }

  /** The code checks both validators share: present, and at most 50 bytes of UTF-8. */
  function CheckCode(code: string): (e: Option<RowError>)
    ensures e.None? <==> code != "" && Utf8Len(code) <= MaxCodeLength
    ensures e.Some? ==> e.value == (if code == "" then CodeRequired else CodeTooLong)
  {
    if code == "" then Some(CodeRequired)
    else if Utf8Len(code) > MaxCodeLength then Some(CodeTooLong)
    else None
  }

  /** The checks after the code, shared by both validators: the discount range,
      then the date layout, then an expiry no earlier than `today`. */
  function CheckTerms(discount: real, dateText: string, today: int): (r: Result<CalendarDate, RowError>)
    ensures r.Success? <==> 1.0 <= discount <= 100.0 && ParseDate(dateText).Some? &&
                            DayNumber(ParseDate(dateText).value) >= today
    ensures r.Success? ==> r.value == ParseDate(dateText).value
    ensures !(1.0 <= discount <= 100.0) ==> r == Failure(DiscountOutOfRange(discount))
    ensures 1.0 <= discount <= 100.0 && ParseDate(dateText).None? ==> r == Failure(BadDate(dateText))
    ensures (1.0 <= discount <= 100.0 && ParseDate(dateText).Some? &&
             DayNumber(ParseDate(dateText).value) < today) ==> r == Failure(ExpiryPast(dateText))
  {
    if discount < 1.0 || discount > 100.0 then Failure(DiscountOutOfRange(discount))
    else match ParseDate(dateText)
      case None => Failure(BadDate(dateText))
      case Some(d) => if DayNumber(d) < today then Failure(ExpiryPast(dateText)) else Success(d)
  }

  /** Everything a batch element must satisfy to be inserted. */
  predicate AcceptableRequest(req: VoucherRequest, today: int) {
    req.code != "" && Utf8Len(req.code) <= MaxCodeLength && 1.0 <= req.discount <= 100.0 &&
    ParseDate(req.expiryDate).Some? && DayNumber(ParseDate(req.expiryDate).value) >= today
  }

  /** `validateAndConvert`: the code as given (not trimmed), the discount range,
      the date layout and the expiry, in that order; an accepted request becomes
      a new voucher with exactly its code, discount and parsed date. */
  function ValidateAndConvert(req: VoucherRequest, today: int): (r: Result<Voucher, RowError>)
    ensures r.Success? <==> AcceptableRequest(req, today)
    ensures r.Success? ==> r.value == NewVoucher(req.code, req.discount, ParseDate(req.expiryDate).value)
    ensures CheckCode(req.code).Some? ==> r == Failure(CheckCode(req.code).value)
    ensures CheckCode(req.code).None? && CheckTerms(req.discount, req.expiryDate, today).Failure? ==>
            r == Failure(CheckTerms(req.discount, req.expiryDate, today).error)
  {
    match CheckCode(req.code)
    case Some(e) => Failure(e)
    case None =>
      match CheckTerms(req.discount, req.expiryDate, today)
      case Failure(e) => Failure(e)
      case Success(d) => Success(NewVoucher(req.code, req.discount, d))
  }

  /** An expiry on `today` itself is accepted, the day before is not. */
  lemma ExpiryBoundary(req: VoucherRequest, d: CalendarDate, today: int)
    requires req.code != "" && Utf8Len(req.code) <= MaxCodeLength && 1.0 <= req.discount <= 100.0
    requires ParseDate(req.expiryDate) == Some(d)
    ensures DayNumber(d) == today ==> ValidateAndConvert(req, today).Success?
    ensures DayNumber(d) == today + 1 ==> ValidateAndConvert(req, today + 2) == Failure(ExpiryPast(req.expiryDate))
  {
  }

  // ------------------------------------------------------------ CSV records

  /** The checks of a CSV record before the store lookup: at least three
      fields, then the trimmed code present and at most 50 bytes. */
  function CsvRowCode(record: seq<string>): (r: Result<string, RowError>)
    ensures r.Success? <==> |record| >= 3 && CheckCode(TrimSpace(record[0])).None?
    ensures r.Success? ==> r.value == TrimSpace(record[0])
    ensures |record| < 3 ==> r == Failure(InsufficientColumns)
  {
    if |record| < 3 then Failure(InsufficientColumns)
    else
      var code := TrimSpace(record[0]);
      match CheckCode(code)
      case Some(e) => Failure(e)
      case None => Success(code)
  }

  /** The checks of a CSV record after the store lookup: the trimmed discount
      must read as a number, then the shared range, layout and expiry checks on
      the trimmed date. */
  function CsvRowTerms(record: seq<string>, code: string, today: int): (r: Result<Voucher, RowError>)
    requires |record| >= 3
    ensures ParseFloat(TrimSpace(record[1])).None? ==>
            r == Failure(DiscountNotNumber(TrimSpace(record[1])))
    ensures ParseFloat(TrimSpace(record[1])).Some? ==>
            var d := ParseFloat(TrimSpace(record[1])).value;
            var terms := CheckTerms(d, TrimSpace(record[2]), today);
            r == (if terms.Success? then Success(NewVoucher(code, d, terms.value)) else Failure(terms.error))
  {
    var discountText := TrimSpace(record[1]);
    match ParseFloat(discountText)
    case None => Failure(DiscountNotNumber(discountText))
    case Some(d) =>
      match CheckTerms(d, TrimSpace(record[2]), today)
      case Failure(e) => Failure(e)
      case Success(date) => Success(NewVoucher(code, d, date))
  }

  /** `parseCSVRow` against the table `t` its lookup reads: the column and code
      checks, then a code that an active voucher holds is rejected, then the
      discount and date checks. */
  function CsvRowOutcome(t: seq<Voucher>, record: seq<string>, today: int): (r: Result<Voucher, RowError>)
    ensures r.Success? ==> CsvRowCode(record).Success? && FindActiveByCode(t, r.value.code).None?
    ensures r.Success? ==> r.value.code == TrimSpace(record[0]) && r.value.id == 0 && r.value.IsActive()
    ensures r.Success? ==> 1.0 <= r.value.discount <= 100.0 && DayNumber(r.value.expiry) >= today
    ensures CsvRowCode(record).Success? && FindActiveByCode(t, CsvRowCode(record).value).Some? ==>
            r == Failure(CodeExists(CsvRowCode(record).value))
  {
    match CsvRowCode(record)
    case Failure(e) => Failure(e)
    case Success(code) =>
      if FindActiveByCode(t, code).Some? then Failure(CodeExists(code))
      else CsvRowTerms(record, code, today)
  }

  /** The two validators agree: a CSV record whose fields carry no surrounding
      space, whose discount reads as `d` and whose code no active voucher holds
      is judged exactly as the batch element with the same fields. */
  lemma CsvAgreesWithBatch(t: seq<Voucher>, record: seq<string>, d: real, today: int)
    requires |record| >= 3
    requires IsTrimmed(record[0]) && IsTrimmed(record[1]) && IsTrimmed(record[2])
    requires ParseFloat(record[1]) == Some(d)
    requires FindActiveByCode(t, record[0]).None?
    ensures CsvRowOutcome(t, record, today) == ValidateAndConvert(VoucherRequest(record[0], d, record[2]), today)
  {
    TrimSpaceOfTrimmed(record[0]);
    TrimSpaceOfTrimmed(record[1]);
    TrimSpaceOfTrimmed(record[2]);
  }
}
