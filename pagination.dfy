/** Query-string pagination: page and limit parsing with defaults and a cap,
    the row offset of a page, the sort order and the page count. */
module Pagination {
  import opened Wrappers
  import opened GoInt
  import opened GoStrconv

  const DefaultPage: int := 1
  const DefaultLimit: int := 10
  const MaxLimit: int := 100

  datatype PaginationParams = PaginationParams(
    page: int, limit: int, offset: int, sortBy: string, sortOrder: string)

  /** The page number from its query text: an integer of at least 1, otherwise page 1. */
  function ParsePage(pageText: string): (page: int)
    ensures page >= 1 && IsInt64(page)
    ensures Atoi(pageText).Some? && Atoi(pageText).value >= 1 ==> page == Atoi(pageText).value
    ensures Atoi(pageText).None? || Atoi(pageText).value < 1 ==> page == DefaultPage
  {
    match Atoi(pageText)
    case Some(p) => if p < 1 then DefaultPage else p
    case None => DefaultPage
  }

  /** The page size from its query text: 10 when the text is not an integer
      or is below 1, 100 when it is above 100, the value otherwise. */
  function ParseLimit(limitText: string): (limit: int)
    ensures 1 <= limit <= MaxLimit
    ensures Atoi(limitText).None? || Atoi(limitText).value < 1 ==> limit == DefaultLimit
    ensures Atoi(limitText).Some? && Atoi(limitText).value > MaxLimit ==> limit == MaxLimit
    ensures Atoi(limitText).Some? && 1 <= Atoi(limitText).value <= MaxLimit ==>
              limit == Atoi(limitText).value
  {
    match Atoi(limitText)
    case None => DefaultLimit
    case Some(l) => if l < 1 then DefaultLimit else if l > MaxLimit then MaxLimit else l
  }

  /** `calculateOffset` as written: `(page - 1) * limit` in Go's 64-bit `int`,
      which wraps around once the product leaves the `int` range. */
  function CalculateOffsetAsWritten(page: int, limit: int): (offset: int)
    requires IsInt64(page) && IsInt64(limit)
    ensures IsInt64(offset)
    ensures IsInt64((page - 1) * limit) ==> offset == (page - 1) * limit
  {
    Wrap64(Wrap64(page - 1) * limit)
  }

  /** The row offset of a page: the rows of the `page - 1` earlier pages. */
  function CalculateOffset(page: int, limit: int): (offset: int)
    ensures page >= 1 && limit >= 0 ==> offset >= 0
    ensures page >= 1 && limit >= 0 ==> offset == limit * (page - 1)
  {
    (page - 1) * limit
  }

  /** On every page a parsed limit can reach, the offset is the number of rows
      on the earlier pages, and it never goes negative. */
  lemma OffsetCountsEarlierRows(page: int, limit: int)
    requires page >= 1 && 1 <= limit <= MaxLimit
    ensures CalculateOffset(page, limit) >= 0
    ensures CalculateOffset(page + 1, limit) == CalculateOffset(page, limit) + limit
  {
  }

  /** The wrapped offset: page `MaxInt64`, the largest page `Atoi` accepts,
      with limit 100 gives offset -200 where 100 * (2^63 - 2) rows precede it. */
  lemma CalculateOffsetWraps()
    ensures CalculateOffsetAsWritten(MaxInt64, MaxLimit) == -200
    ensures CalculateOffset(MaxInt64, MaxLimit) > 0
  {
  }

  /** The unbounded offset and the wrapped one agree exactly while the product
      stays in the 64-bit range. */
  lemma CalculateOffsetAgrees(page: int, limit: int)
    requires IsInt64(page) && IsInt64(limit) && IsInt64((page - 1) * limit)
    ensures CalculateOffsetAsWritten(page, limit) == CalculateOffset(page, limit)
  {
  }

  /** The sort direction: "asc" stays "asc", everything else (the empty string
      included) becomes "desc". */
  function NormaliseSortOrder(sortOrder: string): (r: string)
    ensures r == "asc" || r == "desc"
    ensures r == "asc" <==> sortOrder == "asc"
  {
    var order := if sortOrder == "" then "desc" else sortOrder;
    if order != "asc" && order != "desc" then "desc" else order
  }

  /** Parses the four pagination query values. Page and limit are normalised,
      the offset is the 64-bit offset of the parsed page, `sortBy` passes
      through untouched and the order is always a valid direction. */
  function ParsePaginationParams(pageText: string, limitText: string, sortBy: string,
                                 sortOrder: string): (p: PaginationParams)
    ensures p.page == ParsePage(pageText) && p.page >= 1
    ensures p.limit == ParseLimit(limitText) && 1 <= p.limit <= MaxLimit
    ensures IsInt64(p.offset)
    ensures IsInt64(CalculateOffset(p.page, p.limit)) ==>
              p.offset == CalculateOffset(p.page, p.limit) && p.offset >= 0
    ensures p.sortBy == sortBy
    ensures p.sortOrder == NormaliseSortOrder(sortOrder)
    ensures p.sortOrder == "asc" || p.sortOrder == "desc"
  {
    var page := ParsePage(pageText);
    var limit := ParseLimit(limitText);
    PaginationParams(page, limit, CalculateOffsetAsWritten(page, limit), sortBy, NormaliseSortOrder(sortOrder))
  }

  /** The parsed parameters carry the wrapped offset: the page text of
      `MaxInt64` (9223372036854775807) with limit text `100` yields offset -200. */
  lemma ParsedOffsetWraps()
    ensures ParsePaginationParams(DecimalDigits(MaxInt64), DecimalDigits(MaxLimit), "", "").offset == -200
  {
    AtoiOfDecimal(MaxInt64);
    AtoiOfDecimal(MaxLimit);
    CalculateOffsetWraps();
  }

  /** `CalculateTotalPages`: the least page count whose pages hold `total` rows,
      that is the ceiling of `total / limit`. */
  function CalculateTotalPages(total: nat, limit: int): (pages: nat)
    requires limit > 0
    ensures pages * limit >= total
    ensures pages == 0 || (pages - 1) * limit < total
  {
    (total + limit - 1) / limit
  }

  /** The page count is the only one with that property: any `n` pages that
      hold every row, one page fewer not holding them all, is the ceiling. */
  lemma TotalPagesUnique(total: nat, limit: int, n: int)
    requires limit > 0 && n >= 0
    requires n * limit >= total && (n == 0 || (n - 1) * limit < total)
    ensures n == CalculateTotalPages(total, limit)
  {
    var c := CalculateTotalPages(total, limit);
    if n < c {
      MulMonotone(n, c - 1, limit);
    } else if n > c {
      MulMonotone(c, n - 1, limit);
    }
  }

  lemma MulMonotone(a: int, b: int, k: int)
    requires a <= b && k >= 0
    ensures a * k <= b * k
  {
    assert b * k - a * k == (b - a) * k;
  }

  /** A positive count always needs at least one page, and no rows need none. */
  lemma TotalPagesZero(total: nat, limit: int)
    requires limit > 0
    ensures CalculateTotalPages(total, limit) == 0 <==> total == 0
  {
  }
}
