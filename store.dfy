/** The voucher repository: an in-memory `vouchers` table behind the
    repository interface, with the database's constraints, its id sequence,
    soft delete and upsert-on-save. */
module Store {
  import opened Wrappers
  import opened GoInt
  import opened Entity
  import opened Table

  /** The outcome of a write as a function of the state before it: what the
      call returns, the table afterwards and the id sequence afterwards. */
  datatype Step<T> = Step(result: Result<T, StoreError>, table: seq<Voucher>, nextId: nat)

  /** An `INSERT` of `rows` at instant `now`: rows without an id draw from the
      sequence whether or not the statement succeeds; the rows go in together
      or not at all. */
  function InsertStep(t: seq<Voucher>, nextId: nat, now: int, rows: seq<Voucher>): (s: Step<seq<Voucher>>)
    ensures s.nextId == nextId + IdsDrawn(rows)
    ensures s.result.Success? ==> s.table == t + s.result.value && |s.result.value| == |rows|
    ensures s.result.Failure? ==> s.table == t
  {
    var stamped := AssignIds(rows, nextId, now);
    match BatchViolation(t, stamped)
    case Some(e) => Step(Failure(e), t, nextId + IdsDrawn(rows))
    case None => Step(Success(stamped), t + stamped, nextId + IdsDrawn(rows))
  }

  /** `Save`: a voucher without an id is inserted; one whose id has a row
      overwrites that row; one whose id has none is inserted with that id. */
  function SaveStep(t: seq<Voucher>, nextId: nat, now: int, v: Voucher): (s: Step<Voucher>)
  {
    if v.id == 0 then
      var ins := InsertStep(t, nextId, now, [v]);
      Step(if ins.result.Success? then Success(ins.result.value[0]) else Failure(ins.result.error),
           ins.table, ins.nextId)
    else match IndexOfId(t, v.id)
      case Some(k) =>
        var row := SavedRow(t[k], v, now);
        (match ReplaceViolation(t, k, row)
         case Some(e) => Step(Failure(e), t, nextId)
         case None => Step(Success(row), t[k := row], nextId))
      case None =>
        var row := Stamp(v.(updatedAt := now), v.id, now);
        (match RowViolation(t, row)
         case Some(e) => Step(Failure(e), t, nextId)
         case None => Step(Success(row), t + [row], nextId))
  }

  /** Every write keeps the table's constraints. */
  lemma InsertStepWellFormed(t: seq<Voucher>, nextId: nat, now: int, rows: seq<Voucher>)
    requires WellFormed(t) && nextId >= 1
    ensures WellFormed(InsertStep(t, nextId, now, rows).table)
    ensures InsertStep(t, nextId, now, rows).result.Success? <==>
            WellFormed(t + AssignIds(rows, nextId, now))
  {
    BatchViolationWellFormed(t, AssignIds(rows, nextId, now));
  }

  lemma SaveStepWellFormed(t: seq<Voucher>, nextId: nat, now: int, v: Voucher)
    requires WellFormed(t) && nextId >= 1
    ensures WellFormed(SaveStep(t, nextId, now, v).table)
    ensures SaveStep(t, nextId, now, v).nextId >= nextId
  {
    if v.id == 0 {
      InsertStepWellFormed(t, nextId, now, [v]);
    } else {
      match IndexOfId(t, v.id)
      case Some(k) => ReplaceWellFormed(t, k, SavedRow(t[k], v, now));
      case None => RowViolationWellFormed(t, Stamp(v.(updatedAt := now), v.id, now));
    }
  }

  /** Saving under an id that has no row creates the row with that id and
      code, as long as the code is free and the discount in range. */
  lemma SaveUnknownIdInserts(t: seq<Voucher>, nextId: nat, now: int, v: Voucher)
    requires v.id != 0 && !HasId(t, v.id) && !HasCode(t, v.code)
    requires 1.0 <= v.discount <= 100.0 && |v.code| <= MaxCodeLength && v.IsActive()
    ensures var s := SaveStep(t, nextId, now, v);
            s.result.Success? && s.nextId == nextId &&
            FindActiveById(s.table, v.id).Some? && FindActiveById(s.table, v.id).value.code == v.code
  {
    var row := Stamp(v.(updatedAt := now), v.id, now);
    assert (t + [row])[|t|] == row;
  }

  /** The row `Save` hands back for a voucher with an id: the voucher's own
      id, code, discount, expiry and deletion mark, stamped `updated_at` now. */
  lemma SaveResultRow(t: seq<Voucher>, nextId: nat, now: int, v: Voucher)
    requires v.id != 0 && SaveStep(t, nextId, now, v).result.Success?
    ensures var r := SaveStep(t, nextId, now, v).result.value;
            r.id == v.id && r.code == v.code && r.discount == v.discount &&
            r.expiry == v.expiry && r.deletedAt == v.deletedAt && r.updatedAt == now
  {
  }

  /** Saving an active row writes the new code, discount and expiry under the
      same id, and leaves every other row as it was. */
  lemma SaveActiveRow(t: seq<Voucher>, nextId: nat, now: int, v: Voucher, k: nat)
    requires WellFormed(t) && k < |t| && t[k].IsActive() && v.id == t[k].id && v.id != 0
    requires SaveStep(t, nextId, now, v).result.Success?
    ensures var s := SaveStep(t, nextId, now, v);
            |s.table| == |t| && s.nextId == nextId &&
            s.table[k].id == t[k].id && s.table[k].code == v.code &&
            s.table[k].discount == v.discount && s.table[k].expiry == v.expiry &&
            s.table[k].updatedAt == now &&
            forall j :: 0 <= j < |t| && j != k ==> s.table[j] == t[j]
  {
    assert IndexOfId(t, v.id) == Some(k) by {
      var m := IndexOfId(t, v.id);
      assert m.Some? by { assert t[k].id == v.id; }
    }
  }

  /** A second insert of a code the table already holds fails and leaves the
      table, and so the first voucher, untouched. */
  lemma InsertExistingCodeFails(t: seq<Voucher>, nextId: nat, now: int, v: Voucher)
    requires HasCode(t, v.code)
    ensures var s := InsertStep(t, nextId, now, [v]);
            s.result.Failure? && s.table == t
  {
  }

  /** A soft-deleted row still holds its code in the unique index: an insert of
      that code fails although no active voucher has it. */
  lemma InsertDeletedCodeFails(t: seq<Voucher>, nextId: nat, now: int, v: Voucher, k: nat)
    requires k < |t| && t[k].code == v.code && !t[k].IsActive()
    ensures InsertStep(t, nextId, now, [v]).result.Failure?
  {
  }

  /** A multi-row insert of two rows with one code fails: the unique index
      rejects the second whatever ids the sequence hands out. */
  lemma InsertRepeatedCodeFails(t: seq<Voucher>, nextId: nat, now: int, rows: seq<Voucher>, k: nat, l: nat)
    requires WellFormed(t) && nextId >= 1
    requires k < l < |rows| && rows[k].code == rows[l].code
    ensures InsertStep(t, nextId, now, rows).result.Failure?
  {
    var stamped := AssignIds(rows, nextId, now);
    assert stamped[k].code == stamped[l].code;
    BatchRepeatedCodeFails(t, stamped, k, l);
  }

  /** Soft delete hides exactly the row with that id from the finds and keeps it
      in the table with its deletion time. */
  lemma SoftDeleteHides(t: seq<Voucher>, id: nat, now: int, k: nat)
    requires k < |t| && t[k].id == id && t[k].IsActive()
    ensures var r := SoftDelete(t, id, now);
            FindActiveById(r, id).None? &&
            r[k] == t[k].(deletedAt := Some(now)) &&
            forall search :: t[k] !in SearchActive(r, search)
  {
  }

  /** A repository call, as the service makes it. */
  datatype Call =
    | FindAllCall(page: int, limit: int, search: string, sortBy: string, sortOrder: string)
    | FindByIdCall(id: nat)
    | CreateCall(v: Voucher)
    | UpdateCall(v: Voucher)
    | DeleteCall(id: nat)
    | FindByCodeCall(code: string)
    | BulkCreateCall(rows: seq<Voucher>)
    | CheckDuplicatesCall(codes: seq<string>)

  class VoucherStore {
    var table: seq<Voucher>
    /** The next value of the id sequence. */
    var nextId: nat
    /** The current instant; every write advances it. */
    var clock: int

    ghost predicate Valid()
      reads this
    {
      WellFormed(table) && nextId >= 1 && clock >= 1
    }

    constructor ()
      ensures Valid() && table == [] && nextId == 1 && clock == 1
    {
      table := [];
      nextId := 1;
      clock := 1;
    }

    /** The list query: one page of the active vouchers matching `search`, in
        the requested order, and the number of all matches. */
    method FindAll(page: int, limit: int, search: string, sortBy: string, sortOrder: string)
      returns (r: Result<(seq<Voucher>, nat), StoreError>)
      requires IsInt64(page) && IsInt64(limit)
      ensures r == QueryPage(table, page, limit, search, sortBy, sortOrder)
      ensures r.Success? ==> r.value.1 == |SearchActive(table, search)|
      ensures r.Success? && limit >= 0 ==> |r.value.0| <= limit
    {
      r := QueryPage(table, page, limit, search, sortBy, sortOrder);
    }

    /** The active voucher with primary key `id`, or `RecordNotFound`; a
        soft-deleted voucher is not found. */
    method FindByID(id: nat) returns (r: Result<Voucher, StoreError>)
      ensures r.Success? <==> exists i :: 0 <= i < |table| && table[i].id == id && table[i].IsActive()
      ensures r.Success? ==> r.value in table && r.value.id == id && r.value.IsActive()
      ensures r.Success? ==> r.value == FindActiveById(table, id).value
      ensures r.Failure? ==> r.error == RecordNotFound
    {
      match FindActiveById(table, id)
      case Some(v) => r := Success(v);
      case None => r := Failure(RecordNotFound);
    }

    /** The active voucher with that code; an absent code is no error, just
        no voucher. */
    method FindByVoucherCode(code: string) returns (r: Option<Voucher>)
      ensures r == FindActiveByCode(table, code)
      ensures r.Some? <==> exists i :: 0 <= i < |table| && table[i].code == code && table[i].IsActive()
    {
      r := FindActiveByCode(table, code);
    }

    /** The codes among `codes` that active vouchers hold, and no others. */
    method CheckDuplicateCodes(codes: seq<string>) returns (r: seq<string>)
      ensures r == ActiveCodesAmong(table, codes)
      ensures forall c :: c in r <==> c in codes && FindActiveByCode(table, c).Some?
    {
      r := ActiveCodesAmong(table, codes);
    }

    /** Inserts one voucher; on success the stored row, with its id and
        timestamps, is returned. */
    method Create(v: Voucher) returns (r: Result<Voucher, StoreError>)
      requires Valid()
      modifies this
      ensures Valid()
      ensures var s := InsertStep(old(table), old(nextId), old(clock), [v]);
              table == s.table && nextId == s.nextId && clock == old(clock) + 1 &&
              r == (if s.result.Success? then Success(s.result.value[0]) else Failure(s.result.error))
    {
      var rows := Insert([v]);
      if rows.Success? {
        r := Success(rows.value[0]);
      } else {
        r := Failure(rows.error);
      }
    }

    /** Inserts all of `rows` in one statement, or none of them. */
    method BulkCreate(rows: seq<Voucher>) returns (r: Result<seq<Voucher>, StoreError>)
      requires Valid()
      modifies this
      ensures Valid()
      ensures rows == [] ==> r == Failure(EmptySlice) && unchanged(this)
      ensures rows != [] ==>
              var s := InsertStep(old(table), old(nextId), old(clock), rows);
              r == s.result && table == s.table && nextId == s.nextId && clock == old(clock) + 1
    {
      if rows == [] {
        return Failure(EmptySlice);
      }
      r := Insert(rows);
    }

    method Insert(rows: seq<Voucher>) returns (r: Result<seq<Voucher>, StoreError>)
      requires Valid()
      modifies this
      ensures Valid()
      ensures var s := InsertStep(old(table), old(nextId), old(clock), rows);
              r == s.result && table == s.table && nextId == s.nextId && clock == old(clock) + 1
    {
      var stamped := AssignIds(rows, nextId, clock);
      var violation := BatchViolation(table, stamped);
      InsertStepWellFormed(table, nextId, clock, rows);
      nextId := nextId + IdsDrawn(rows);
      clock := clock + 1;
      if violation.Some? {
        r := Failure(violation.value);
      } else {
        table := table + stamped;
        r := Success(stamped);
      }
    }

    /** `Save`: updates the row with `v`'s id, or inserts `v` when there is none
        (or when `v` has no id). */
    method Update(v: Voucher) returns (r: Result<Voucher, StoreError>)
      requires Valid()
      modifies this
      ensures Valid()
      ensures var s := SaveStep(old(table), old(nextId), old(clock), v);
              r == s.result && table == s.table && nextId == s.nextId && clock == old(clock) + 1
    {
      SaveStepWellFormed(table, nextId, clock, v);
      if v.id == 0 {
        r := Create(v);
        return;
      }
      var now := clock;
      clock := clock + 1;
      var k := IndexOfId(table, v.id);
      if k.Some? {
        var row := SavedRow(table[k.value], v, now);
        var violation := ReplaceViolation(table, k.value, row);
        if violation.Some? {
          r := Failure(violation.value);
        } else {
          table := table[k.value := row];
          r := Success(row);
        }
      } else {
        var row := Stamp(v.(updatedAt := now), v.id, now);
        var violation := RowViolation(table, row);
        if violation.Some? {
          r := Failure(violation.value);
        } else {
          table := table + [row];
          r := Success(row);
        }
      }
    }

    /** Soft delete: the active row with that id gets its deletion time; an id
        with no active row changes nothing and is no error. */
    method Delete(id: nat)
      requires Valid()
      modifies this
      ensures Valid()
      ensures table == SoftDelete(old(table), id, old(clock)) && nextId == old(nextId)
      ensures clock == old(clock) + 1
    {
      SoftDeleteWellFormed(table, id, clock);
      table := SoftDelete(table, id, clock);
      clock := clock + 1;
    }
  }
}
