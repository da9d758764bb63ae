/** `ORDER BY` as the voucher list query renders it: a column of the
    `vouchers` table and a direction, defaulting to newest first. */
module Ordering {
  import opened Wrappers
  import opened GoStrings
  import opened Dates
  import opened Entity

  datatype Column = Id | VoucherCode | DiscountPercent | ExpiryDate | CreatedAt | UpdatedAt | DeletedAt
  datatype Direction = Asc | Desc
  datatype OrderBy = OrderBy(column: Column, direction: Direction)

  /** The column an (unquoted, so case-insensitive) identifier names. */
  function ColumnNamed(name: string): (c: Option<Column>)
    ensures c == Some(CreatedAt) <==> LowerAscii(name) == "created_at"
    ensures c == Some(DeletedAt) <==> LowerAscii(name) == "deleted_at"
  {
    var n := LowerAscii(name);
    if n == "id" then Some(Id)
    else if n == "voucher_code" then Some(VoucherCode)
    else if n == "discount_percent" then Some(DiscountPercent)
    else if n == "expiry_date" then Some(ExpiryDate)
    else if n == "created_at" then Some(CreatedAt)
    else if n == "updated_at" then Some(UpdatedAt)
    else if n == "deleted_at" then Some(DeletedAt)
    else None
  }

  /** The direction keyword; an empty one means ascending. */
  function DirectionNamed(name: string): (d: Option<Direction>)
    ensures d == Some(Desc) <==> LowerAscii(name) == "desc"
    ensures d == Some(Asc) <==> LowerAscii(name) == "" || LowerAscii(name) == "asc"
  {
    var n := LowerAscii(name);
    if n == "" || n == "asc" then Some(Asc)
    else if n == "desc" then Some(Desc)
    else None
  }

  /** The order clause of the list query: `created_at desc` when no sort column
      is given, otherwise `sortBy sortOrder`; a clause naming no column of the
      table, or no direction, is a query error (`None`). */
  function ParseOrderBy(sortBy: string, sortOrder: string): (o: Option<OrderBy>)
    ensures sortBy == "" ==> o == Some(OrderBy(CreatedAt, Desc))
    ensures sortBy != "" ==> (o.Some? <==> ColumnNamed(sortBy).Some? && DirectionNamed(sortOrder).Some?)
  {
    if sortBy == "" then Some(OrderBy(CreatedAt, Desc))
    else match (ColumnNamed(sortBy), DirectionNamed(sortOrder))
      case (Some(c), Some(d)) => Some(OrderBy(c, d))
      case _ => None
  }

  // ------------------------------------------------------------ comparisons

  /** Text ordered by code point, character by character. */
  predicate StrLe(a: string, b: string) {
    a == [] || (b != [] && (a[0] < b[0] || (a[0] == b[0] && StrLe(a[1..], b[1..]))))
  }

  lemma {:induction false} StrLeTotal(a: string, b: string)
    ensures StrLe(a, b) || StrLe(b, a)
  {
    if a != [] && b != [] && a[0] == b[0] {
      StrLeTotal(a[1..], b[1..]);
    }
  }

  lemma {:induction false} StrLeTrans(a: string, b: string, c: string)
    requires StrLe(a, b) && StrLe(b, c)
    ensures StrLe(a, c)
  {
    if a != [] && b != [] && c != [] && a[0] == b[0] && b[0] == c[0] {
      StrLeTrans(a[1..], b[1..], c[1..]);
    }
  }

  lemma {:induction false} StrLeAntisymmetric(a: string, b: string)
    requires StrLe(a, b) && StrLe(b, a)
    ensures a == b
  {
    if a != [] && b != [] {
      StrLeAntisymmetric(a[1..], b[1..]);
      assert a == [a[0]] + a[1..] && b == [b[0]] + b[1..];
    }
  }

  /** `a` sorts no later than `b` on `column`, ascending. Dates compare
      chronologically, as their day numbers do; a NULL `deleted_at` sorts
      after every instant, as PostgreSQL puts NULLs last in ascending order. */
  predicate KeyLe(column: Column, a: Voucher, b: Voucher) {
    match column
    case Id => a.id <= b.id
    case VoucherCode => StrLe(a.code, b.code)
    case DiscountPercent => a.discount <= b.discount
    case ExpiryDate => !DateBefore(b.expiry, a.expiry)
    case CreatedAt => a.createdAt <= b.createdAt
    case UpdatedAt => a.updatedAt <= b.updatedAt
    case DeletedAt => b.deletedAt.None? || (a.deletedAt.Some? && a.deletedAt.value <= b.deletedAt.value)
  }

  lemma KeyLeTotal(column: Column, a: Voucher, b: Voucher)
    ensures KeyLe(column, a, b) || KeyLe(column, b, a)
  {
    if column == VoucherCode {
      StrLeTotal(a.code, b.code);
    }
  }

  lemma KeyLeTrans(column: Column, a: Voucher, b: Voucher, c: Voucher)
    requires KeyLe(column, a, b) && KeyLe(column, b, c)
    ensures KeyLe(column, a, c)
  {
    if column == VoucherCode {
      StrLeTrans(a.code, b.code, c.code);
    }
  }

  /** Sorting on the expiry column is sorting by day number. */
  lemma ExpiryKeyIsDayNumber(a: Voucher, b: Voucher)
    ensures KeyLe(ExpiryDate, a, b) <==> DayNumber(a.expiry) <= DayNumber(b.expiry)
  {
    DayNumberOrder(b.expiry, a.expiry);
  }

  /** `a` may come before `b` in a result ordered by `o`. */
  predicate Precedes(o: OrderBy, a: Voucher, b: Voucher) {
    if o.direction == Asc then KeyLe(o.column, a, b) else KeyLe(o.column, b, a)
  }

  lemma PrecedesTotal(o: OrderBy, a: Voucher, b: Voucher)
    ensures Precedes(o, a, b) || Precedes(o, b, a)
  {
    KeyLeTotal(o.column, a, b);
  }

  lemma PrecedesTrans(o: OrderBy, a: Voucher, b: Voucher, c: Voucher)
    requires Precedes(o, a, b) && Precedes(o, b, c)
    ensures Precedes(o, a, c)
  {
    if o.direction == Asc {
      KeyLeTrans(o.column, a, b, c);
    } else {
      KeyLeTrans(o.column, c, b, a);
    }
  }

  predicate SortedBy(o: OrderBy, s: seq<Voucher>) {
    forall i, j :: 0 <= i < j < |s| ==> Precedes(o, s[i], s[j])
  }

  /** Inserts `x` into the sorted `s` after every row it does not strictly precede. */
  function InsertRow(o: OrderBy, x: Voucher, s: seq<Voucher>): (r: seq<Voucher>)
    requires SortedBy(o, s)
    ensures multiset(r) == multiset(s) + multiset{x}
    ensures SortedBy(o, r)
  {
    if s == [] then [x]
    else if !Precedes(o, s[0], x) then
      PrecedesAll(o, x, s);
      ConsSorted(o, x, s);
      [x] + s
    else
      var rest := InsertRow(o, x, s[1..]);
      assert s == [s[0]] + s[1..];
      HeadPrecedesRest(o, s, x, rest);
      ConsSorted(o, s[0], rest);
      [s[0]] + rest
  }

  /** A row that the head of a sorted list does not precede precedes the
      whole list. */
  lemma PrecedesAll(o: OrderBy, x: Voucher, s: seq<Voucher>)
    requires SortedBy(o, s) && s != [] && !Precedes(o, s[0], x)
    ensures forall j :: 0 <= j < |s| ==> Precedes(o, x, s[j])
  {
    PrecedesTotal(o, x, s[0]);
    forall j | 0 < j < |s| ensures Precedes(o, x, s[j]) {
      PrecedesTrans(o, x, s[0], s[j]);
    }
  }

  /** The head of a sorted list precedes its tail with a row it precedes
      inserted anywhere. */
  lemma HeadPrecedesRest(o: OrderBy, s: seq<Voucher>, x: Voucher, rest: seq<Voucher>)
    requires SortedBy(o, s) && s != [] && Precedes(o, s[0], x)
    requires multiset(rest) == multiset(s[1..]) + multiset{x}
    ensures forall j :: 0 <= j < |rest| ==> Precedes(o, s[0], rest[j])
  {
    forall j | 0 <= j < |rest| ensures Precedes(o, s[0], rest[j]) {
      assert rest[j] in multiset(rest);
      if rest[j] != x {
        assert rest[j] in multiset(s[1..]);
        var k :| 0 <= k < |s[1..]| && s[1..][k] == rest[j];
        assert s[k + 1] == rest[j];
      }
    }
  }

  /** A row preceding every row of a sorted list can head it. */
  lemma ConsSorted(o: OrderBy, h: Voucher, rest: seq<Voucher>)
    requires SortedBy(o, rest) && forall j :: 0 <= j < |rest| ==> Precedes(o, h, rest[j])
    ensures SortedBy(o, [h] + rest)
  {
    var r := [h] + rest;
    forall i, j | 0 <= i < j < |r| ensures Precedes(o, r[i], r[j]) {
      assert r[j] == rest[j - 1];
      if i > 0 {
        assert r[i] == rest[i - 1];
      }
    }
  }

  /** The rows in the order `o` asks for; rows with equal keys keep their table order. */
  function SortRows(o: OrderBy, s: seq<Voucher>): (r: seq<Voucher>)
    ensures multiset(r) == multiset(s)
    ensures SortedBy(o, r)
  {
    if s == [] then []
    else
      assert s == s[..|s| - 1] + [s[|s| - 1]];
      InsertRow(o, s[|s| - 1], SortRows(o, s[..|s| - 1]))
  }

  /** Every active row has a NULL `deleted_at`, so ordering active rows by it
      keeps them in table order, in either direction. */
  lemma {:induction false} SortByDeletedAtKeepsOrder(d: Direction, s: seq<Voucher>)
    requires forall i :: 0 <= i < |s| ==> s[i].IsActive()
    ensures SortRows(OrderBy(DeletedAt, d), s) == s
  {
    if s != [] {
      var o := OrderBy(DeletedAt, d);
      var init, x := s[..|s| - 1], s[|s| - 1];
      assert s == init + [x];
      SortByDeletedAtKeepsOrder(d, init);
      ActiveRowsTie(d, init, x);
      SortTiedLast(o, init, x);
    }
  }

  /** Sorting a sorted list with a last row that every row precedes leaves it
      as it is. */
  lemma SortTiedLast(o: OrderBy, init: seq<Voucher>, x: Voucher)
    requires SortRows(o, init) == init
    requires forall i :: 0 <= i < |init| ==> Precedes(o, init[i], x)
    ensures SortRows(o, init + [x]) == init + [x]
  {
    var s := init + [x];
    assert s[..|s| - 1] == init;
    InsertTiedRowAppends(o, x, init);
  }

  /** Active rows tie on `deleted_at`, so each may precede any other. */
  lemma ActiveRowsTie(d: Direction, s: seq<Voucher>, x: Voucher)
    requires x.IsActive() && forall i :: 0 <= i < |s| ==> s[i].IsActive()
    ensures forall i :: 0 <= i < |s| ==> Precedes(OrderBy(DeletedAt, d), s[i], x)
  {
  }

  /** A row that every row of a sorted list precedes goes to its end. */
  lemma {:induction false} InsertTiedRowAppends(o: OrderBy, x: Voucher, s: seq<Voucher>)
    requires SortedBy(o, s) && forall i :: 0 <= i < |s| ==> Precedes(o, s[i], x)
    ensures InsertRow(o, x, s) == s + [x]
  {
    if s != [] {
      assert SortedBy(o, s[1..]);
      InsertTiedRowAppends(o, x, s[1..]);
      assert s == [s[0]] + s[1..];
    }
  }
}
