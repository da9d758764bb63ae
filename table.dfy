/** The `vouchers` table as a sequence of rows, and the queries and
    constraint checks the store runs against it. */
module Table {
  import opened Wrappers
  import opened GoInt
  import opened GoStrings
  import opened Dates
  import opened Entity
  import opened Ordering

  /** Errors the database reports to the store. */
  datatype StoreError =
    | RecordNotFound   // `First` matched no active row
    | DuplicateId      // primary-key violation
    | DuplicateCode    // the unique index on voucher_code
    | CheckViolation   // discount_percent outside 1..100
    | ValueTooLong     // voucher_code longer than its 50-character column
    | InvalidOrderBy   // an ORDER BY naming no column or direction
    | EmptySlice       // a bulk insert of no rows

  // ------------------------------------------------------------ constraints

  /** The column constraints of one row: a positive id, a discount within the
      check constraint, a code that fits its column. */
  predicate RowValid(v: Voucher) {
    v.id >= 1 && 1.0 <= v.discount <= 100.0 && |v.code| <= MaxCodeLength
  }

  /** Every constraint of the table holds: primary key, unique code index over
      all rows (soft-deleted ones included) and the per-row checks. */
  predicate WellFormed(t: seq<Voucher>) {
    (forall i :: 0 <= i < |t| ==> RowValid(t[i])) &&
    (forall i, j :: 0 <= i < j < |t| ==> t[i].id != t[j].id) &&
    (forall i, j :: 0 <= i < j < |t| ==> t[i].code != t[j].code)
  }

  predicate HasId(t: seq<Voucher>, id: nat) {
    exists i :: 0 <= i < |t| && t[i].id == id
  }

  predicate HasCode(t: seq<Voucher>, code: string) {
    exists i :: 0 <= i < |t| && t[i].code == code
  }

  /** The first constraint the row `v` breaks when added to `prior`. */
  function RowViolation(prior: seq<Voucher>, v: Voucher): (e: Option<StoreError>)
    ensures e.None? <==> 1.0 <= v.discount <= 100.0 && |v.code| <= MaxCodeLength &&
                         !HasId(prior, v.id) && !HasCode(prior, v.code)
  {
    if !(1.0 <= v.discount <= 100.0) then Some(CheckViolation)
    else if |v.code| > MaxCodeLength then Some(ValueTooLong)
    else if HasId(prior, v.id) then Some(DuplicateId)
    else if HasCode(prior, v.code) then Some(DuplicateCode)
    else None
  }

  /** The first violation of a multi-row insert, row by row; the statement is
      atomic, so any violation rejects every row. */
  function BatchViolation(prior: seq<Voucher>, rows: seq<Voucher>): (e: Option<StoreError>)
    decreases |rows|
  {
    if rows == [] then None
    else match RowViolation(prior, rows[0])
      case Some(e) => Some(e)
      case None => BatchViolation(prior + [rows[0]], rows[1..])
  }

  lemma WellFormedPrefix(t: seq<Voucher>, k: nat)
    requires WellFormed(t) && k <= |t|
    ensures WellFormed(t[..k])
  {
  }

  lemma RowViolationWellFormed(prior: seq<Voucher>, v: Voucher)
    requires WellFormed(prior) && v.id >= 1
    ensures RowViolation(prior, v).None? <==> WellFormed(prior + [v])
  {
    var t := prior + [v];
    if RowViolation(prior, v).None? {
      forall i, j | 0 <= i < j < |t| ensures t[i].id != t[j].id && t[i].code != t[j].code {
        if j == |prior| {
          assert t[i] == prior[i];
        }
      }
    } else {
      assert !WellFormed(t) by {
        assert t[|prior|] == v;
        assert forall i :: 0 <= i < |prior| ==> t[i] == prior[i];
      }
    }
  }

  /** A multi-row insert succeeds exactly when the table that results still
      satisfies every constraint. */
  lemma {:induction false} BatchViolationWellFormed(prior: seq<Voucher>, rows: seq<Voucher>)
    requires WellFormed(prior)
    requires forall i :: 0 <= i < |rows| ==> rows[i].id >= 1
    ensures BatchViolation(prior, rows).None? <==> WellFormed(prior + rows)
    decreases |rows|
  {
    if rows != [] {
      var next := prior + [rows[0]];
      assert prior + rows == next + rows[1..];
      RowViolationWellFormed(prior, rows[0]);
      if RowViolation(prior, rows[0]).None? {
        BatchViolationWellFormed(next, rows[1..]);
      } else {
        assert !WellFormed(prior + rows) by {
          assert (prior + rows)[..|next|] == next;
          if WellFormed(prior + rows) {
            WellFormedPrefix(prior + rows, |next|);
          }
        }
      }
    }
  }

  /** Two rows of one insert with the same code always fail it: the unique
      index sees the rows of the statement as well as the table. */
  lemma BatchRepeatedCodeFails(prior: seq<Voucher>, rows: seq<Voucher>, i: nat, j: nat)
    requires WellFormed(prior)
    requires forall k :: 0 <= k < |rows| ==> rows[k].id >= 1
    requires i < j < |rows| && rows[i].code == rows[j].code
    ensures BatchViolation(prior, rows).Some?
  {
    BatchViolationWellFormed(prior, rows);
    assert (prior + rows)[|prior| + i].code == (prior + rows)[|prior| + j].code;
  }

  // ------------------------------------------------------------ inserting

  /** The timestamps the ORM fills in on insert: zero ones become `now`. */
  function Stamp(v: Voucher, id: nat, now: int): (r: Voucher)
    ensures r.id == id && r.code == v.code && r.discount == v.discount
    ensures r.expiry == v.expiry && r.deletedAt == v.deletedAt
    ensures r.createdAt == (if v.createdAt == 0 then now else v.createdAt)
    ensures r.updatedAt == (if v.updatedAt == 0 then now else v.updatedAt)
  {
    v.(id := id,
       createdAt := if v.createdAt == 0 then now else v.createdAt,
       updatedAt := if v.updatedAt == 0 then now else v.updatedAt)
  }

  /** The number of rows that take their id from the table's sequence. */
  function IdsDrawn(rows: seq<Voucher>): (n: nat)
    ensures n <= |rows|
  {
    if rows == [] then 0 else (if rows[0].id == 0 then 1 else 0) + IdsDrawn(rows[1..])
  }

  /** The rows an insert writes: a row without an id draws the sequence's next
      value, in order, a row with one keeps it; timestamps are stamped. */
  function AssignIds(rows: seq<Voucher>, nextId: nat, now: int): (r: seq<Voucher>)
    ensures |r| == |rows|
    ensures forall i :: 0 <= i < |rows| ==>
              r[i] == Stamp(rows[i], if rows[i].id == 0 then r[i].id else rows[i].id, now)
    ensures forall i :: 0 <= i < |rows| ==> r[i].id >= 1 || (rows[i].id == 0 && nextId == 0)
    decreases |rows|
  {
    if rows == [] then []
    else
      var v := rows[0];
      var id := if v.id == 0 then nextId else v.id;
      [Stamp(v, id, now)] + AssignIds(rows[1..], if v.id == 0 then nextId + 1 else nextId, now)
  }

  /** The ids a batch of id-less rows draws are consecutive values of the sequence. */
  lemma {:induction false} AssignIdsConsecutive(rows: seq<Voucher>, nextId: nat, now: int)
    requires forall i :: 0 <= i < |rows| ==> rows[i].id == 0
    ensures IdsDrawn(rows) == |rows|
    ensures forall i :: 0 <= i < |rows| ==> AssignIds(rows, nextId, now)[i].id == nextId + i
    decreases |rows|
  {
    if rows != [] {
      AssignIdsConsecutive(rows[1..], nextId + 1, now);
      var r := AssignIds(rows, nextId, now);
      assert r == [Stamp(rows[0], nextId, now)] + AssignIds(rows[1..], nextId + 1, now);
      forall i | 0 <= i < |rows| ensures r[i].id == nextId + i {
        if i > 0 {
          assert r[i] == AssignIds(rows[1..], nextId + 1, now)[i - 1];
        }
      }
    }
  }

  // ------------------------------------------------------------ saving

  /** The row a save writes over row `k`: every column from `v`, `updated_at`
      now; a save that revives a soft-deleted row keeps its `created_at`. */
  function SavedRow(old_row: Voucher, v: Voucher, now: int): (r: Voucher)
    ensures r.id == v.id && r.code == v.code && r.discount == v.discount
    ensures r.expiry == v.expiry && r.deletedAt == v.deletedAt && r.updatedAt == now
    ensures r.createdAt == (if old_row.IsActive() then v.createdAt else old_row.createdAt)
  {
    if old_row.IsActive() then v.(updatedAt := now)
    else v.(createdAt := old_row.createdAt, updatedAt := now)
  }

  /** The first constraint a row `v` written over row `k` breaks. */
  function ReplaceViolation(t: seq<Voucher>, k: nat, v: Voucher): (e: Option<StoreError>)
    requires k < |t|
    ensures e.None? <==> 1.0 <= v.discount <= 100.0 && |v.code| <= MaxCodeLength &&
                         forall j :: 0 <= j < |t| && j != k ==> t[j].code != v.code
  {
    if !(1.0 <= v.discount <= 100.0) then Some(CheckViolation)
    else if |v.code| > MaxCodeLength then Some(ValueTooLong)
    else if exists j :: 0 <= j < |t| && j != k && t[j].code == v.code then Some(DuplicateCode)
    else None
  }

  /** Overwriting a row keeps the table's constraints exactly when the
      replacement breaks none of them. */
  lemma ReplaceWellFormed(t: seq<Voucher>, k: nat, v: Voucher)
    requires WellFormed(t) && k < |t| && v.id == t[k].id
    ensures ReplaceViolation(t, k, v).None? <==> WellFormed(t[k := v])
  {
    var r := t[k := v];
    if ReplaceViolation(t, k, v).None? {
      forall i, j | 0 <= i < j < |r| ensures r[i].id != r[j].id && r[i].code != r[j].code {
        if i != k && j != k {
          assert r[i] == t[i] && r[j] == t[j];
        }
      }
    } else {
      assert !WellFormed(r) by {
        assert r[k] == v;
        assert forall j :: 0 <= j < |t| && j != k ==> r[j] == t[j];
      }
    }
  }

  /** The position of the row with primary key `id`, soft-deleted or not. */
  function IndexOfId(t: seq<Voucher>, id: nat): (k: Option<nat>)
    ensures k.Some? ==> k.value < |t| && t[k.value].id == id
    ensures k.None? <==> !HasId(t, id)
  {
    if t == [] then None
    else if t[0].id == id then Some(0)
    else match IndexOfId(t[1..], id)
      case Some(k) => Some(k + 1)
      case None => assert forall i :: 1 <= i < |t| ==> t[i] == t[1..][i - 1]; None
  }

  // ------------------------------------------------------------ deleting

  /** Soft delete: every active row with primary key `id` gets `deleted_at` set;
      nothing is removed. */
  function SoftDelete(t: seq<Voucher>, id: nat, now: int): (r: seq<Voucher>)
    ensures |r| == |t|
    ensures forall i :: 0 <= i < |t| ==>
              r[i] == (if t[i].id == id && t[i].IsActive() then t[i].(deletedAt := Some(now)) else t[i])
  {
    seq(|t|, i requires 0 <= i < |t| =>
      if t[i].id == id && t[i].IsActive() then t[i].(deletedAt := Some(now)) else t[i])
  }

  lemma SoftDeleteWellFormed(t: seq<Voucher>, id: nat, now: int)
    requires WellFormed(t)
    ensures WellFormed(SoftDelete(t, id, now))
  {
    var r := SoftDelete(t, id, now);
    assert forall i :: 0 <= i < |t| ==> r[i].id == t[i].id && r[i].code == t[i].code;
  }

  // ------------------------------------------------------------ queries

  /** `First(&v, id)`: the active row with primary key `id`, if any. */
  function FindActiveById(t: seq<Voucher>, id: nat): (r: Option<Voucher>)
    ensures r.Some? <==> exists i :: 0 <= i < |t| && t[i].id == id && t[i].IsActive()
    ensures r.Some? ==> r.value in t && r.value.id == id && r.value.IsActive()
  {
    FindActiveByIdFrom(t, id, 0)
  }

  /** The first active row at or after position `k` with primary key `id`. */
  function FindActiveByIdFrom(t: seq<Voucher>, id: nat, k: nat): (r: Option<Voucher>)
    requires k <= |t|
    ensures r.Some? <==> exists i :: k <= i < |t| && t[i].id == id && t[i].IsActive()
    ensures r.Some? ==> r.value in t && r.value.id == id && r.value.IsActive()
    decreases |t| - k
  {
    if k == |t| then None
    else if t[k].id == id && t[k].IsActive() then Some(t[k])
    else FindActiveByIdFrom(t, id, k + 1)
  }

  /** `Where("voucher_code = ?").First(&v)`: the active row with that code, if any. */
  function FindActiveByCode(t: seq<Voucher>, code: string): (r: Option<Voucher>)
    ensures r.Some? <==> exists i :: 0 <= i < |t| && t[i].code == code && t[i].IsActive()
    ensures r.Some? ==> r.value in t && r.value.code == code && r.value.IsActive()
  {
    FindActiveByCodeFrom(t, code, 0)
  }

  /** The first active row at or after position `k` with that code. */
  function FindActiveByCodeFrom(t: seq<Voucher>, code: string, k: nat): (r: Option<Voucher>)
    requires k <= |t|
    ensures r.Some? <==> exists i :: k <= i < |t| && t[i].code == code && t[i].IsActive()
    ensures r.Some? ==> r.value in t && r.value.code == code && r.value.IsActive()
    decreases |t| - k
  {
    if k == |t| then None
    else if t[k].code == code && t[k].IsActive() then Some(t[k])
    else FindActiveByCodeFrom(t, code, k + 1)
  }

  /** `voucher_code IN codes`, plucked: the codes of the active rows that occur
      in `codes`, in table order. */
  function ActiveCodesAmong(t: seq<Voucher>, codes: seq<string>): (r: seq<string>)
    ensures forall c :: c in r <==> c in codes && FindActiveByCode(t, c).Some?
    ensures |r| <= |t|
  {
    ActiveCodesAmongPrefix(t, codes, |t|)
  }

  /** The same over the first `k` rows. */
  function ActiveCodesAmongPrefix(t: seq<Voucher>, codes: seq<string>, k: nat): (r: seq<string>)
    requires k <= |t|
    ensures forall c :: c in r <==> c in codes && exists i :: 0 <= i < k && t[i].code == c && t[i].IsActive()
    ensures |r| <= k
    decreases k
  {
    if k == 0 then []
    else
      var v := t[k - 1];
      ActiveCodesAmongPrefix(t, codes, k - 1) + (if v.IsActive() && v.code in codes then [v.code] else [])
  }

  /** `LOWER(voucher_code) LIKE LOWER('%' + search + '%')`, with no filter at all
      for an empty search. */
  predicate MatchesSearch(v: Voucher, search: string) {
    search == "" || Contains(LowerAscii(v.code), LowerAscii(search))
  }

  /** The active rows the search keeps, in table order. */
  function SearchActive(t: seq<Voucher>, search: string): (r: seq<Voucher>)
    ensures forall v :: v in r <==> v in t && v.IsActive() && MatchesSearch(v, search)
    ensures forall v :: multiset(r)[v] == (if v.IsActive() && MatchesSearch(v, search) then multiset(t)[v] else 0)
    ensures |r| <= |t|
  {
    assert t[..|t|] == t;
    SearchActivePrefix(t, search, |t|)
  }

  /** The same over the first `k` rows. */
  function SearchActivePrefix(t: seq<Voucher>, search: string, k: nat): (r: seq<Voucher>)
    requires k <= |t|
    ensures forall v :: v in r <==> v in t[..k] && v.IsActive() && MatchesSearch(v, search)
    ensures forall v :: multiset(r)[v] == (if v.IsActive() && MatchesSearch(v, search) then multiset(t[..k])[v] else 0)
    ensures |r| <= k
    decreases k
  {
    if k == 0 then []
    else
      var v := t[k - 1];
      assert t[..k] == t[..k - 1] + [v];
      SearchActivePrefix(t, search, k - 1) + (if v.IsActive() && MatchesSearch(v, search) then [v] else [])
  }

  function Min(a: int, b: int): int {
    if a < b then a else b
  }

  /** `OFFSET offset LIMIT limit` as the ORM renders it: a non-positive offset
      and a negative limit are left out of the query. */
  function Window(rows: seq<Voucher>, offset: int, limit: int): (r: seq<Voucher>)
    ensures var start := if offset > 0 then Min(offset, |rows|) else 0;
            |r| == (if limit >= 0 then Min(limit, |rows| - start) else |rows| - start) &&
            r == rows[start..start + |r|]
  {
    var start := if offset > 0 then Min(offset, |rows|) else 0;
    var rest := rows[start..];
    if limit >= 0 && limit < |rest| then rest[..limit] else rest
  }

  /** The whole list query: the matching active rows are counted, ordered and
      cut to the requested page, whose offset is `(page - 1) * limit` in Go's
      64-bit arithmetic. */
  function QueryPage(t: seq<Voucher>, page: int, limit: int, search: string,
                     sortBy: string, sortOrder: string): (r: Result<(seq<Voucher>, nat), StoreError>)
    requires IsInt64(page) && IsInt64(limit)
    ensures r.Failure? <==> ParseOrderBy(sortBy, sortOrder).None?
    ensures r.Failure? ==> r.error == InvalidOrderBy
    ensures r.Success? ==> r.value.1 == |SearchActive(t, search)|
    ensures r.Success? ==> forall v :: v in r.value.0 ==> v in SearchActive(t, search)
    ensures r.Success? && limit >= 0 ==> |r.value.0| <= limit
    ensures r.Success? ==> SortedBy(ParseOrderBy(sortBy, sortOrder).value, r.value.0)
    ensures r.Success? ==>
              r.value.0 == Window(SortRows(ParseOrderBy(sortBy, sortOrder).value, SearchActive(t, search)),
                                  Wrap64(Wrap64(page - 1) * limit), limit)
  {
    var matches := SearchActive(t, search);
    match ParseOrderBy(sortBy, sortOrder)
    case None => Failure(InvalidOrderBy)
    case Some(o) =>
      var sorted := SortRows(o, matches);
      var rows := Window(sorted, Wrap64(Wrap64(page - 1) * limit), limit);
      forall v | v in rows ensures v in matches {
        assert v in multiset(sorted);
      }
      Success((rows, |matches|))
  }

  /** While the offset fits in 64 bits, the list query returns page `page` of
      the ordered matches: the window at `(page - 1) * limit`, which is the
      last of the first `page` pages (`WindowIsPage` gives its rows). */
  lemma QueryPageHoldsPage(t: seq<Voucher>, page: int, limit: int, search: string,
                           sortBy: string, sortOrder: string)
    requires IsInt64(page) && IsInt64(limit) && page >= 1 && limit >= 1
    requires IsInt64((page - 1) * limit) && ParseOrderBy(sortBy, sortOrder).Some?
    ensures var sorted := SortRows(ParseOrderBy(sortBy, sortOrder).value, SearchActive(t, search));
            var r := QueryPage(t, page, limit, search, sortBy, sortOrder);
            r.Success? && r.value.0 == Window(sorted, (page - 1) * limit, limit) &&
            Pages(sorted, page, limit) == Pages(sorted, page - 1, limit) + r.value.0
  {
    var sorted := SortRows(ParseOrderBy(sortBy, sortOrder).value, SearchActive(t, search));
    OffsetFits(page, limit);
    WindowIsPage(sorted, page, limit);
  }

  /** The 64-bit offset of a page is the plain product while that fits. */
  lemma OffsetFits(page: int, limit: int)
    requires IsInt64(page) && page >= 1 && IsInt64((page - 1) * limit)
    ensures Wrap64(Wrap64(page - 1) * limit) == (page - 1) * limit
  {
    assert Wrap64(page - 1) == page - 1;
  }

  /** The window at `(page - 1) * limit` is page `page`: the rows up to
      `page * limit` after those of the earlier pages. */
  lemma WindowIsPage(rows: seq<Voucher>, page: int, limit: int)
    requires page >= 1 && limit >= 1
    ensures var w := Window(rows, (page - 1) * limit, limit);
            w == rows[Min((page - 1) * limit, |rows|)..Min(page * limit, |rows|)] &&
            Pages(rows, page, limit) == Pages(rows, page - 1, limit) + w
  {
    PageBounds(page, limit);
  }

  /** Ordering the list query by `deleted_at` lists the matches in table
      order: every match is active, so all of them tie. */
  lemma DeletedAtOrderIsTableOrder(t: seq<Voucher>, search: string, d: Direction)
    ensures SortRows(OrderBy(DeletedAt, d), SearchActive(t, search)) == SearchActive(t, search)
  {
    var r := SearchActive(t, search);
    forall i | 0 <= i < |r| ensures r[i].IsActive() {
      assert r[i] in r;
    }
    SortByDeletedAtKeepsOrder(d, r);
  }

  /** The pages of a query, one after another, list its ordered rows from the
      start without gap or repetition: pages 1..n hold the first n * limit rows. */
  lemma {:induction false} PagesTile(rows: seq<Voucher>, n: nat, limit: int)
    requires limit >= 1
    ensures Pages(rows, n, limit) == rows[..Min(n * limit, |rows|)]
  {
    if n > 0 {
      PagesTile(rows, n - 1, limit);
      PageBounds(n, limit);
      PagesStep(rows, (n - 1) * limit, limit);
    }
  }

  /** The rows before offset `m`, then the page at `m`, are the rows before `m + limit`. */
  lemma PagesStep(rows: seq<Voucher>, m: int, limit: int)
    requires m >= 0 && limit >= 1
    ensures rows[..Min(m, |rows|)] + Window(rows, m, limit) == rows[..Min(m + limit, |rows|)]
  {
    var a := Min(m, |rows|);
    var b := Min(m + limit, |rows|);
    assert Window(rows, m, limit) == rows[a..b];
    assert rows[..a] + rows[a..b] == rows[..b];
  }

  /** Page `n` starts at `(n - 1) * limit`, one page before `n * limit`. */
  lemma PageBounds(n: nat, limit: int)
    requires n > 0 && limit >= 1
    ensures (n - 1) * limit >= 0 && n * limit == (n - 1) * limit + limit
  {
  }

  /** The first `n` pages of `rows`, each `limit` long. */
  function Pages(rows: seq<Voucher>, n: nat, limit: int): seq<Voucher> {
    if n == 0 then [] else Pages(rows, n - 1, limit) + Window(rows, (n - 1) * limit, limit)
  }
}
