/** The records the voucher service works with: the stored voucher, the
    create/update request body and the two import reports. */
module Entity {
  import opened Wrappers
  import opened Dates

  /** The longest voucher code: the column holds 50 characters, the service
      checks 50 bytes and the request binding 50 characters. */
  const MaxCodeLength: int := 50

  /** A row of the `vouchers` table. Timestamps are instants of the store's
      clock (0 is Go's zero time); a soft-deleted row has `deletedAt` set. */
  datatype Voucher = Voucher(
    id: nat,
    code: string,
    discount: real,
    expiry: CalendarDate,
    createdAt: int,
    updatedAt: int,
    deletedAt: Option<int>)
  {
    predicate IsActive() {
      deletedAt.None?
    }
  }

  /** The voucher the service hands to the store: only code, discount and
      expiry are set, the id and the timestamps are zero. */
  function NewVoucher(code: string, discount: real, expiry: CalendarDate): (v: Voucher)
    ensures v.id == 0 && v.createdAt == 0 && v.updatedAt == 0 && v.IsActive()
    ensures v.code == code && v.discount == discount && v.expiry == expiry
  {
    Voucher(0, code, discount, expiry, 0, 0, None)
  }

  /** The body of a create or update request, and an element of a batch upload. */
  datatype VoucherRequest = VoucherRequest(code: string, discount: real, expiryDate: string)

  /** The request binding: every field required, the code at most 50
      characters, the discount between 1 and 100. */
  predicate BindingValid(req: VoucherRequest) {
    0 < |req.code| <= MaxCodeLength && 1.0 <= req.discount <= 100.0 && req.expiryDate != ""
  }

  /** A rejected CSV row: its 1-based line number in the file and the message. */
  datatype ImportError = ImportError(row: int, error: string)

  datatype ImportResult = ImportResult(
    totalRows: int, success: int, failed: int, errors: seq<ImportError>)

  datatype BatchImportResult = BatchImportResult(
    totalReceived: int, inserted: int, duplicates: int,
    duplicateCodes: seq<string>, errors: seq<string>)
}
