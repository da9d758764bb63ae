/** The JSON shapes the voucher endpoints answer with: one voucher, a page of
    vouchers and its pagination block. */
module Response {
  import opened Wrappers
  import opened GoInt
  import opened GoStrconv
  import opened Dates
  import opened Entity
  import opened Pagination

  /** A voucher as the API shows it. The expiry date is `YYYY-MM-DD` text; the
      two timestamps are the store's clock instants (their RFC 3339 text is
      not modelled). */
  datatype VoucherResponse = VoucherResponse(
    id: nat,
    voucherCode: string,
    discountPercent: real,
    expiryDate: string,
    createdAt: int,
    updatedAt: int)

  datatype PaginationMeta = PaginationMeta(page: int, limit: int, total: int, totalPages: int)

  datatype VoucherListResponse = VoucherListResponse(vouchers: seq<VoucherResponse>, pagination: PaginationMeta)

  /** A voucher as the API shows it: the stored fields unchanged, and an
      expiry text that reads back as the stored expiry date. */
  function ToVoucherResponse(v: Voucher): (r: VoucherResponse)
    ensures r.id == v.id && r.voucherCode == v.code && r.discountPercent == v.discount
    ensures r.createdAt == v.createdAt && r.updatedAt == v.updatedAt
    ensures HasDateShape(r.expiryDate) && ParseDate(r.expiryDate) == Some(v.expiry)
  {
    ParseFormatDate(v.expiry);
    VoucherResponse(v.id, v.code, v.discount, FormatDate(v.expiry), v.createdAt, v.updatedAt)
  }

  /** Converts a page of vouchers one by one into a response slice of the same
      length, keeping their order. */
  method ToVoucherListResponse(vouchers: seq<Voucher>) returns (responses: seq<VoucherResponse>)
    ensures |responses| == |vouchers|
    ensures forall i :: 0 <= i < |vouchers| ==> responses[i] == ToVoucherResponse(vouchers[i])
  {
    var a := new VoucherResponse[|vouchers|];
    for i := 0 to |vouchers|
      invariant forall k :: 0 <= k < i ==> a[k] == ToVoucherResponse(vouchers[k])
    {
      a[i] := ToVoucherResponse(vouchers[i]);
    }
    responses := a[..];
  }

  /** The page count `BuildVoucherListResponse` computes: Go's truncating
      quotient of `total` by `limit`, plus one when the remainder is positive.
      For a positive limit it is the ceiling of `total / limit`. */
  function TotalPagesAsWritten(total: nat, limit: int): (pages: int)
    requires limit != 0
    ensures limit > 0 ==> pages == CalculateTotalPages(total, limit)
  {
    if limit > 0 then QuotientPages(total, limit); QuotientPagesValue(total, limit)
    else QuotientPagesValue(total, limit)
  }

  /** The quotient rounded up by a positive remainder. */
  function QuotientPagesValue(total: nat, limit: int): int
    requires limit != 0
  {
    var q := Quot(total, limit);
    if Rem(total, limit) > 0 then q + 1 else q
  }

  lemma QuotientPages(total: nat, limit: int)
    requires limit > 0
    ensures QuotientPagesValue(total, limit) == CalculateTotalPages(total, limit)
  {
    var q, r := Quot(total, limit), Rem(total, limit);
    assert total == limit * q + r && 0 <= r < limit;
    if q < 0 {
      MulMonotone(q, -1, limit);
    }
    var n := QuotientPagesValue(total, limit);
    if r > 0 {
      assert n * limit == q * limit + limit;
      assert (n - 1) * limit == q * limit;
    } else {
      assert n * limit == total;
      assert n == 0 || (n - 1) * limit == total - limit;
    }
    TotalPagesUnique(total, limit, n);
  }

  /** A negative limit reaches the page count as it is: a nonempty list
      shorter than `-limit` is one page, any longer list is reported as zero
      pages, and from `-2 * limit` vouchers on as a negative number of pages. */
  lemma NegativeLimitPages(total: nat, limit: int)
    requires limit < 0
    ensures TotalPagesAsWritten(total, limit) == 1 <==> 0 < total < -limit
    ensures total >= -limit ==> TotalPagesAsWritten(total, limit) <= 0
    ensures total >= -2 * limit ==> TotalPagesAsWritten(total, limit) < 0
  {
    var n := -limit;
    assert Quot(total, limit) == -(total / n);
    assert Rem(total, limit) == total % n;
    assert total == n * (total / n) + total % n;
    if total >= 2 * n {
      assert total / n >= 2;
    }
  }

  /** Builds the list answer: the vouchers converted in order and the
      pagination block echoing page, limit and total with the page count.
      Go panics on an integer division by zero, so the limit must not be 0. */
  method BuildVoucherListResponse(vouchers: seq<Voucher>, page: int, limit: int, total: nat)
    returns (r: VoucherListResponse)
    requires limit != 0
    ensures |r.vouchers| == |vouchers|
    ensures forall i :: 0 <= i < |vouchers| ==> r.vouchers[i] == ToVoucherResponse(vouchers[i])
    ensures r.pagination == PaginationMeta(page, limit, total, TotalPagesAsWritten(total, limit))
    ensures limit > 0 ==> r.pagination.totalPages * limit >= total &&
                          (r.pagination.totalPages == 0 || (r.pagination.totalPages - 1) * limit < total)
  {
    var totalPages := Quot(total, limit);
    if Rem(total, limit) > 0 {
      totalPages := totalPages + 1;
    }
    var responses := ToVoucherListResponse(vouchers);
    r := VoucherListResponse(responses, PaginationMeta(page, limit, total, totalPages));
  }

  /** The limit the list handler passes on: the query text through `Atoi`
      with its error ignored. Go's `Atoi` yields 0 on a syntax error and the
      nearest 64-bit bound on an out-of-range number. */
  function HandlerLimit(limitText: string): (limit: int)
    ensures IsInt64(limit)
    ensures Atoi(limitText).Some? ==> limit == Atoi(limitText).value
    ensures !IsIntegerText(limitText) ==> limit == 0
  {
    if !IsIntegerText(limitText) then 0
    else
      var n := IntegerTextValue(limitText);
      if n > MaxInt64 then MaxInt64 else if n < MinInt64 then MinInt64 else n
  }

  /** The query texts "0", "" and "abc" all reach the list answer as limit 0,
      where its page count divides by zero; "-1" reaches it as limit -1, where
      10 vouchers are reported as -10 pages. */
  lemma HandlerLimitUnchecked()
    ensures HandlerLimit("0") == 0 && HandlerLimit("") == 0 && HandlerLimit("abc") == 0
    ensures HandlerLimit("-1") == -1 && TotalPagesAsWritten(10, -1) == -10
  {
    assert IsIntegerText("0") && IntegerTextValue("0") == 0 by {
      assert "0"[0] != '-' && "0"[0] != '+';
      assert DigitsValue("0") == DigitsValue("") * 10 + DigitValue('0');
    }
    assert !IsDigit('a');
    assert !IsIntegerText("abc");
    assert IsIntegerText("-1") && IntegerTextValue("-1") == -1 by {
      assert "-1"[1..] == "1";
      assert DigitsValue("1") == DigitsValue("") * 10 + DigitValue('1');
    }
  }

  /** With the limit parsed as the pagination helpers parse it, every query
      text gives a limit of 1 to 100, so the page count is defined and is the
      least number of pages that hold every voucher. */
  lemma ParsedLimitPages(limitText: string, total: nat)
    ensures ParseLimit(limitText) != 0
    ensures var limit := ParseLimit(limitText);
            var pages := TotalPagesAsWritten(total, limit);
            pages >= 0 && pages * limit >= total && (pages == 0 || (pages - 1) * limit < total)
  {
  }
}
