/** The voucher service: single-record create, update, delete and lookup,
    CSV import, structured batch import and CSV export, over a voucher store.
    `today` is the current calendar day as a day number; the repository calls
    the service makes are recorded in the ghost log `calls`. */
module Service {
  import opened Wrappers
  import opened GoInt
  import opened GoStrings
  import opened GoStrconv
  import opened Dates
  import opened Entity
  import opened Ordering
  import opened Table
  import opened Store
  import opened Validation

  /** The errors the service returns. */
  datatype ServiceError =
    | NotFound                    // "voucher not found"
    | CodeTaken                   // "voucher code already exists"
    | BadDateFormat               // "invalid date format, expected YYYY-MM-DD"
    | ExpiryBeforeToday           // "expiry date must be today or in the future"
    | CsvUnreadable               // "failed to read CSV file: ..."
    | CsvEmpty                    // "CSV file is empty or has no data rows"
    | InsertFailed(cause: StoreError)  // "failed to insert vouchers: ..."
    | FetchFailed(cause: StoreError)   // "failed to fetch vouchers: ..."
    | Repo(cause: StoreError)          // a store error returned as it is

  // ------------------------------------------------------------ single records

  /** The checks `Create` makes before it writes: the code must not belong to
      an active voucher, then the date must parse, then it must not be before
      `today`. The result is the voucher to insert. */
  function CreateChecks(t: seq<Voucher>, req: VoucherRequest, today: int): (r: Result<Voucher, ServiceError>)
    ensures FindActiveByCode(t, req.code).Some? ==> r == Failure(CodeTaken)
    ensures FindActiveByCode(t, req.code).None? && ParseDate(req.expiryDate).None? ==> r == Failure(BadDateFormat)
    ensures r.Success? <==> FindActiveByCode(t, req.code).None? && ParseDate(req.expiryDate).Some? &&
                            DayNumber(ParseDate(req.expiryDate).value) >= today
    ensures r.Success? ==> r.value == NewVoucher(req.code, req.discount, ParseDate(req.expiryDate).value)
    ensures r.Failure? ==> r.error in {CodeTaken, BadDateFormat, ExpiryBeforeToday}
  {
    if FindActiveByCode(t, req.code).Some? then Failure(CodeTaken)
    else match ParseDate(req.expiryDate)
      case None => Failure(BadDateFormat)
      case Some(d) => if DayNumber(d) < today then Failure(ExpiryBeforeToday) else Success(NewVoucher(req.code, req.discount, d))
  }

  /** After the checks pass, the insert of a bound request fails only on a
      code that a soft-deleted row still holds, or an id the sequence hands out
      that an explicit save already used. */
  lemma CreateInsertOutcome(t: seq<Voucher>, nextId: nat, now: int, req: VoucherRequest, today: int)
    requires WellFormed(t) && nextId >= 1 && BindingValid(req)
    requires CreateChecks(t, req, today).Success?
    ensures var v := CreateChecks(t, req, today).value;
            InsertStep(t, nextId, now, [v]).result.Success? <==> !HasCode(t, req.code) && !HasId(t, nextId)
    ensures var v := CreateChecks(t, req, today).value;
            (exists i :: 0 <= i < |t| && t[i].code == req.code) ==> InsertStep(t, nextId, now, [v]).result.Failure?
  {
    var v := CreateChecks(t, req, today).value;
    var stamped := AssignIds([v], nextId, now);
    assert stamped[0].id == nextId;
    assert BatchViolation(t, stamped) == RowViolation(t, stamped[0]) by {
      assert stamped[1..] == [];
    }
  }

  /** The checks `Update` makes before it saves: the id must name an active
      voucher; a changed code must not belong to an active voucher; the date
      must parse and not be before `today`. The result is the fetched voucher
      with the request's code, discount and expiry written over it. */
  function UpdateChecks(t: seq<Voucher>, id: nat, req: VoucherRequest, today: int): (r: Result<Voucher, ServiceError>)
    ensures FindActiveById(t, id).None? ==> r == Failure(NotFound)
    ensures r.Success? ==>
              (FindActiveById(t, id).Some? && ParseDate(req.expiryDate).Some? &&
               r.value == FindActiveById(t, id).value.(code := req.code, discount := req.discount,
                                                      expiry := ParseDate(req.expiryDate).value))
    ensures r.Success? <==>
            FindActiveById(t, id).Some? &&
            (req.code == FindActiveById(t, id).value.code || FindActiveByCode(t, req.code).None?) &&
            ParseDate(req.expiryDate).Some? && DayNumber(ParseDate(req.expiryDate).value) >= today
  {
    match FindActiveById(t, id)
    case None => Failure(NotFound)
    case Some(v) =>
      if req.code != v.code && FindActiveByCode(t, req.code).Some? then Failure(CodeTaken)
      else match ParseDate(req.expiryDate)
        case None => Failure(BadDateFormat)
        case Some(d) =>
          if DayNumber(d) < today then Failure(ExpiryBeforeToday)
          else Success(v.(code := req.code, discount := req.discount, expiry := d))
  }

  /** The repository calls `Update` makes: the id lookup, the code lookup only
      when the code changes, and the save only when every check passed. */
  function UpdateCalls(t: seq<Voucher>, id: nat, req: VoucherRequest, today: int): seq<Call> {
    [FindByIdCall(id)] +
    (if FindActiveById(t, id).Some? && req.code != FindActiveById(t, id).value.code
     then [FindByCodeCall(req.code)] else []) +
    (if UpdateChecks(t, id, req, today).Success? then [UpdateCall(UpdateChecks(t, id, req, today).value)] else [])
  }

  /** A successful update keeps the id and every column but the three the
      request sets. */
  lemma UpdateKeepsIdentity(t: seq<Voucher>, id: nat, req: VoucherRequest, today: int)
    requires UpdateChecks(t, id, req, today).Success?
    ensures var v := UpdateChecks(t, id, req, today).value;
            var before := FindActiveById(t, id).value;
            v.id == id && v.createdAt == before.createdAt && v.updatedAt == before.updatedAt &&
            v.IsActive() && v.code == req.code && v.discount == req.discount &&
            Some(v.expiry) == ParseDate(req.expiryDate)
  {
  }

  // ------------------------------------------------------------ CSV import

  /** A CSV upload as the tokenizer delivers it: malformed, or its records. */
  datatype CsvFile = Malformed | Parsed(records: seq<seq<string>>)

  /** `ReadAll`: a malformed file, or one whose records do not all have the
      first record's field count, cannot be read. */
  function ReadRecords(f: CsvFile): (r: Option<seq<seq<string>>>)
    ensures r.Some? <==> f.Parsed? && forall i :: 0 <= i < |f.records| ==> |f.records[i]| == |f.records[0]|
    ensures r.Some? ==> r.value == f.records
  {
    match f
    case Malformed => None
    case Parsed(records) =>
      if forall i :: 0 <= i < |records| ==> |records[i]| == |records[0]| then Some(records) else None
  }

  /** What the CSV import loop builds from the data rows: the accepted
      vouchers, in order, and one report entry per rejected row. */
  datatype CsvPlan = CsvPlan(accepted: seq<Voucher>, errors: seq<ImportError>)

  /** A row verdict as the import loop keeps it: the voucher, or the text of
      the row's error. */
  type Verdict = Result<Voucher, string>

  function Reported(r: Result<Voucher, RowError>): (v: Verdict)
    ensures v.Success? <==> r.Success?
    ensures v.Success? ==> v.value == r.value
    ensures v.Failure? ==> v.error == r.error.Message()
  {
    match r
    case Success(voucher) => Success(voucher)
    case Failure(e) => Failure(e.Message())
  }

  /** The verdict on each data row, its lookup reading table `t`. */
  function CsvOutcomes(t: seq<Voucher>, rows: seq<seq<string>>, today: int): (os: seq<Verdict>)
    ensures |os| == |rows| && forall i :: 0 <= i < |rows| ==> os[i] == Reported(CsvRowOutcome(t, rows[i], today))
  {
    seq(|rows|, i requires 0 <= i < |rows| => Reported(CsvRowOutcome(t, rows[i], today)))
  }

  /** `outcomes` holds the verdict on each data row against table `t`, stated
      row by row so that a verdict is worked out only where its row is checked. */
  ghost predicate OutcomesOf(outcomes: seq<Verdict>, t: seq<Voucher>, rows: seq<seq<string>>, today: int) {
    |outcomes| == |rows| &&
    forall i {:trigger CsvRowOutcome(t, rows[i], today)} :: 0 <= i < |rows| ==>
      outcomes[i] == Reported(CsvRowOutcome(t, rows[i], today))
  }

  lemma CsvOutcomesAreOutcomesOf(t: seq<Voucher>, rows: seq<seq<string>>, today: int)
    ensures OutcomesOf(CsvOutcomes(t, rows, today), t, rows, today)
  {
  }

  /** The import loop over the verdicts on the data rows (the file without its
      header), after its first `k` iterations: data row `i` is line `i + 2` of
      the file. */
  function PlanCsvRows(outcomes: seq<Verdict>, k: nat): (p: CsvPlan)
    requires k <= |outcomes|
    ensures |p.accepted| + |p.errors| == k
    decreases k
  {
    if k == 0 then CsvPlan([], [])
    else
      var p := PlanCsvRows(outcomes, k - 1);
      match outcomes[k - 1]
      case Success(v) => CsvPlan(p.accepted + [v], p.errors)
      case Failure(msg) => CsvPlan(p.accepted, p.errors + [ImportError(k + 1, msg)])
  }

  /** Later iterations only append to what earlier ones built. */
  lemma {:induction false} PlanCsvRowsExtends(outcomes: seq<Verdict>, k: nat, j: nat)
    requires k <= j <= |outcomes|
    ensures var p, q := PlanCsvRows(outcomes, k), PlanCsvRows(outcomes, j);
            |p.accepted| <= |q.accepted| && q.accepted[..|p.accepted|] == p.accepted &&
            |p.errors| <= |q.errors| && q.errors[..|p.errors|] == p.errors
    decreases j - k
  {
    if k < j {
      PlanCsvRowsExtends(outcomes, k + 1, j);
    }
  }

  /** `e` reports row `e.row - 2` of `outcomes`, which was rejected. */
  ghost predicate RejectedAt(outcomes: seq<Verdict>, e: ImportError) {
    2 <= e.row <= |outcomes| + 1 && outcomes[e.row - 2].Failure? &&
    e.error == outcomes[e.row - 2].error
  }

  /** Each reported error names a rejected row among the first `k` by its line
      number `index + 2` and carries that row's message. */
  lemma {:induction false} PlanCsvRowsErrorLines(outcomes: seq<Verdict>, k: nat)
    requires k <= |outcomes|
    ensures var p := PlanCsvRows(outcomes, k);
            forall m :: 0 <= m < |p.errors| ==> RejectedAt(outcomes, p.errors[m]) && p.errors[m].row <= k + 1
    decreases k
  {
    if k > 0 {
      PlanCsvRowsErrorLines(outcomes, k - 1);
      var p0, p := PlanCsvRows(outcomes, k - 1), PlanCsvRows(outcomes, k);
      assert var q := PlanCsvRows(outcomes, k - 1);
        forall m :: 0 <= m < |q.errors| ==> RejectedAt(outcomes, q.errors[m]) && q.errors[m].row <= k;
      forall m | 0 <= m < |p.errors|
        ensures RejectedAt(outcomes, p.errors[m]) && p.errors[m].row <= k + 1
      {
        if m < |p0.errors| {
          assert p.errors[m] == p0.errors[m];
        } else {
          assert outcomes[k - 1].Failure?;
          assert p.errors[m] == ImportError(k + 1, outcomes[k - 1].error);
        }
      }
    }
  }

  /** The report lists rejected rows in file order, each once, and only rows
      among the first `k`. */
  lemma {:induction false} PlanCsvRowsErrorsOrdered(outcomes: seq<Verdict>, k: nat)
    requires k <= |outcomes|
    ensures var p := PlanCsvRows(outcomes, k);
            (forall m :: 0 <= m < |p.errors| ==> p.errors[m].row <= k + 1) &&
            (forall m, l :: 0 <= m < l < |p.errors| ==> p.errors[m].row < p.errors[l].row)
    decreases k
  {
    if k > 0 {
      PlanCsvRowsErrorsOrdered(outcomes, k - 1);
      var p0, p := PlanCsvRows(outcomes, k - 1), PlanCsvRows(outcomes, k);
      assert var q := PlanCsvRows(outcomes, k - 1);
        (forall m :: 0 <= m < |q.errors| ==> q.errors[m].row <= k) &&
        (forall m, l :: 0 <= m < l < |q.errors| ==> q.errors[m].row < q.errors[l].row);
      assert |p.errors| == |p0.errors| || p.errors == p0.errors + [ImportError(k + 1, outcomes[k - 1].error)];
      forall m | 0 <= m < |p.errors|
        ensures p.errors[m].row <= k + 1
      {
        if m < |p0.errors| {
          assert p.errors[m] == p0.errors[m];
        }
      }
      forall m, l | 0 <= m < l < |p.errors|
        ensures p.errors[m].row < p.errors[l].row
      {
        assert p.errors[m] == p0.errors[m];
        if l < |p0.errors| {
          assert p.errors[l] == p0.errors[l];
        }
      }
    }
  }

  /** Every rejected row among the first `k` is reported. */
  lemma PlanCsvRowsErrorsComplete(outcomes: seq<Verdict>, k: nat, i: nat)
    requires i < k <= |outcomes| && outcomes[i].Failure?
    ensures var p := PlanCsvRows(outcomes, k);
            exists m :: 0 <= m < |p.errors| && p.errors[m] == ImportError(i + 2, outcomes[i].error)
  {
    PlanCsvRowsExtends(outcomes, i + 1, k);
    var p, q := PlanCsvRows(outcomes, i + 1), PlanCsvRows(outcomes, k);
    var m := |p.errors| - 1;
    assert p.errors[m] == ImportError(i + 2, outcomes[i].error);
    assert q.errors[m] == q.errors[..|p.errors|][m];
  }

  /** The accepted vouchers are the accepted rows' vouchers, in file order:
      row `i`'s voucher sits after those of the rows before it. */
  lemma PlanCsvRowsAccepted(outcomes: seq<Verdict>, k: nat, i: nat)
    requires i < k <= |outcomes| && outcomes[i].Success?
    ensures var accepted := PlanCsvRows(outcomes, k).accepted;
            var n := |PlanCsvRows(outcomes, i).accepted|;
            n < |accepted| && accepted[n] == outcomes[i].value
  {
    PlanCsvRowsExtends(outcomes, i + 1, k);
    var p, q := PlanCsvRows(outcomes, i + 1), PlanCsvRows(outcomes, k);
    var n := |PlanCsvRows(outcomes, i).accepted|;
    assert p.accepted[n] == outcomes[i].value;
    assert q.accepted[n] == q.accepted[..|p.accepted|][n];
  }

  /** The number of accepted rows only grows from one iteration to the next. */
  lemma {:induction false} PlanCsvRowsAcceptedGrows(outcomes: seq<Verdict>, k: nat, j: nat)
    requires k <= j <= |outcomes|
    ensures |PlanCsvRows(outcomes, k).accepted| <= |PlanCsvRows(outcomes, j).accepted|
    decreases j - k
  {
    if k < j {
      PlanCsvRowsAcceptedGrows(outcomes, k + 1, j);
    }
  }

  /** Two accepted rows with the same code both reach the insert list. */
  lemma PlanCsvRowsRepeat(outcomes: seq<Verdict>, i: nat, j: nat)
    requires i < j < |outcomes| && outcomes[i].Success? && outcomes[j].Success?
    requires outcomes[i].value.code == outcomes[j].value.code
    ensures var accepted := PlanCsvRows(outcomes, |outcomes|).accepted;
            exists k, l :: 0 <= k < l < |accepted| && accepted[k].code == accepted[l].code == outcomes[i].value.code
  {
    var accepted := PlanCsvRows(outcomes, |outcomes|).accepted;
    PlanCsvRowsAccepted(outcomes, |outcomes|, i);
    PlanCsvRowsAccepted(outcomes, |outcomes|, j);
    PlanCsvRowsAcceptedGrows(outcomes, i + 1, j);
    var k := |PlanCsvRows(outcomes, i).accepted|;
    var l := |PlanCsvRows(outcomes, j).accepted|;
    assert |PlanCsvRows(outcomes, i + 1).accepted| == k + 1;
    assert 0 <= k < l < |accepted| && accepted[k].code == accepted[l].code == outcomes[i].value.code;
  }

  /** So the all-or-nothing insert of such a file fails: a code repeated in
      the file is not caught by the per-row lookups. */
  lemma CsvRepeatFailsInsert(t: seq<Voucher>, nextId: nat, now: int, outcomes: seq<Verdict>,
                             i: nat, j: nat)
    requires WellFormed(t) && nextId >= 1
    requires i < j < |outcomes| && outcomes[i].Success? && outcomes[j].Success?
    requires outcomes[i].value.code == outcomes[j].value.code
    ensures InsertStep(t, nextId, now, PlanCsvRows(outcomes, |outcomes|).accepted).result.Failure?
  {
    PlanCsvRowsRepeat(outcomes, i, j);
    var accepted := PlanCsvRows(outcomes, |outcomes|).accepted;
    var k, l :| 0 <= k < l < |accepted| && accepted[k].code == accepted[l].code == outcomes[i].value.code;
    InsertRepeatedCodeFails(t, nextId, now, accepted, k, l);
  }

  /** The code lookup the row check makes on one record: one, when the record
      passes the column and code checks. */
  function CsvLookup(record: seq<string>): (calls: seq<Call>)
    ensures |calls| <= 1
    ensures calls != [] <==> |record| >= 3 && CheckCode(TrimSpace(record[0])).None?
    ensures calls != [] ==> calls == [FindByCodeCall(TrimSpace(record[0]))]
  {
    if CsvRowCode(record).Success? then [FindByCodeCall(CsvRowCode(record).value)] else []
  }

  /** The code lookups the import loop makes in its first `k` iterations: one
      per row that passes the column and code checks, in file order. */
  function CsvLookups(rows: seq<seq<string>>, k: nat): seq<Call>
    requires k <= |rows|
    decreases k
  {
    if k == 0 then [] else CsvLookups(rows, k - 1) + CsvLookup(rows[k - 1])
  }

  /** `lookups` holds the lookups of each row, stated row by row like
      `OutcomesOf`. */
  ghost predicate LookupsOf(lookups: seq<seq<Call>>, rows: seq<seq<string>>) {
    |lookups| == |rows| &&
    forall i {:trigger CsvLookup(rows[i])} :: 0 <= i < |rows| ==> lookups[i] == CsvLookup(rows[i])
  }

  /** The first `k` entries of `lookups`, concatenated. */
  function Concat(lookups: seq<seq<Call>>, k: nat): seq<Call>
    requires k <= |lookups|
    decreases k
  {
    if k == 0 then [] else Concat(lookups, k - 1) + lookups[k - 1]
  }

  lemma {:induction false} ConcatLookups(lookups: seq<seq<Call>>, rows: seq<seq<string>>, k: nat)
    requires LookupsOf(lookups, rows) && k <= |rows|
    ensures Concat(lookups, k) == CsvLookups(rows, k)
    decreases k
  {
    if k > 0 {
      ConcatLookups(lookups, rows, k - 1);
      assert lookups[k - 1] == CsvLookup(rows[k - 1]);
    }
  }

  // ------------------------------------------------------------ batch import

  function Codes(reqs: seq<VoucherRequest>): (codes: seq<string>)
    ensures |codes| == |reqs| && forall i :: 0 <= i < |reqs| ==> codes[i] == reqs[i].code
  {
    seq(|reqs|, i requires 0 <= i < |reqs| => reqs[i].code)
  }

  /** Where one batch element goes: its code is reported as a duplicate, it is
      rejected with an error line, or it becomes a voucher to insert. */
  datatype Route = Duplicate(code: string) | Rejected(line: string) | Accepted(voucher: Voucher)

  /** An element whose code the duplicate query returned is a duplicate;
      otherwise it is validated. */
  function BatchRoute(req: VoucherRequest, existing: seq<string>, today: int): (r: Route)
    ensures r.Duplicate? <==> req.code in existing
    ensures r.Duplicate? ==> r.code == req.code
    ensures r.Accepted? <==> req.code !in existing && AcceptableRequest(req, today)
    ensures r.Accepted? ==> r.voucher == NewVoucher(req.code, req.discount, ParseDate(req.expiryDate).value)
  {
    if req.code in existing then Duplicate(req.code)
    else match ValidateAndConvert(req, today)
      case Failure(e) => Rejected("Code " + req.code + ": " + e.Message())
      case Success(v) => Accepted(v)
  }

  function Routes(reqs: seq<VoucherRequest>, existing: seq<string>, today: int): (rs: seq<Route>)
    ensures |rs| == |reqs| && forall i :: 0 <= i < |reqs| ==> rs[i] == BatchRoute(reqs[i], existing, today)
  {
    seq(|reqs|, i requires 0 <= i < |reqs| => BatchRoute(reqs[i], existing, today))
  }

  /** `routes` holds the route of each element, stated element by element so
      that a route is worked out only where its element is looked at. */
  ghost predicate RoutesOf(routes: seq<Route>, reqs: seq<VoucherRequest>, existing: seq<string>, today: int) {
    |routes| == |reqs| &&
    forall i {:trigger reqs[i]} :: 0 <= i < |reqs| ==> routes[i] == BatchRoute(reqs[i], existing, today)
  }

  lemma RoutesAreRoutesOf(reqs: seq<VoucherRequest>, existing: seq<string>, today: int)
    ensures RoutesOf(Routes(reqs, existing, today), reqs, existing, today)
  {
  }

  /** What the batch loop builds: the codes reported as duplicates, the error
      lines, and the vouchers to insert, each in batch order. */
  datatype BatchPlan = BatchPlan(duplicateCodes: seq<string>, errors: seq<string>, valid: seq<Voucher>)

  /** The batch loop after its first `k` iterations. */
  function PlanBatch(routes: seq<Route>, k: nat): (p: BatchPlan)
    requires k <= |routes|
    ensures |p.duplicateCodes| + |p.errors| + |p.valid| == k
    decreases k
  {
    if k == 0 then BatchPlan([], [], [])
    else
      var p := PlanBatch(routes, k - 1);
      match routes[k - 1]
      case Duplicate(c) => p.(duplicateCodes := p.duplicateCodes + [c])
      case Rejected(line) => p.(errors := p.errors + [line])
      case Accepted(v) => p.(valid := p.valid + [v])
  }

  /** Each element lands where its route says, and nothing else does: the
      duplicates are exactly the duplicate routes' codes and the vouchers to
      insert exactly the accepted routes' vouchers. */
  lemma {:induction false} PlanBatchRoutes(routes: seq<Route>, k: nat)
    requires k <= |routes|
    ensures var p := PlanBatch(routes, k);
            (forall c :: c in p.duplicateCodes <==> Duplicate(c) in routes[..k]) &&
            (forall v :: v in p.valid <==> Accepted(v) in routes[..k])
    decreases k
  {
    if k > 0 {
      PlanBatchRoutes(routes, k - 1);
      assert routes[..k] == routes[..k - 1] + [routes[k - 1]];
    }
  }

  /** Later iterations only append to the vouchers to insert. */
  lemma {:induction false} PlanBatchExtends(routes: seq<Route>, k: nat, j: nat)
    requires k <= j <= |routes|
    ensures var p, q := PlanBatch(routes, k).valid, PlanBatch(routes, j).valid;
            |p| <= |q| && q[..|p|] == p
    decreases j - k
  {
    if k < j {
      PlanBatchExtends(routes, k + 1, j);
    }
  }

  /** Two accepted elements with the same code both reach the insert list. */
  lemma PlanBatchRepeat(routes: seq<Route>, i: nat, j: nat)
    requires i < j < |routes| && routes[i].Accepted? && routes[j].Accepted?
    requires routes[i].voucher.code == routes[j].voucher.code
    ensures var valid := PlanBatch(routes, |routes|).valid;
            exists k, l :: 0 <= k < l < |valid| && valid[k].code == valid[l].code == routes[i].voucher.code
  {
    var valid := PlanBatch(routes, |routes|).valid;
    var pi, pj := PlanBatch(routes, i + 1).valid, PlanBatch(routes, j + 1).valid;
    PlanBatchExtends(routes, i + 1, j);
    PlanBatchExtends(routes, j + 1, |routes|);
    var k, l := |pi| - 1, |pj| - 1;
    assert pi[k] == routes[i].voucher && pj[l] == routes[j].voucher;
    assert pj[k] == pj[..|pi|][k];
    assert valid[k] == valid[..|pj|][k] && valid[l] == valid[..|pj|][l];
    assert 0 <= k < l < |valid| && valid[k].code == valid[l].code == routes[i].voucher.code;
  }

  /** The insert of a plan with two accepted elements of one code fails. */
  lemma RepeatFailsInsert(t: seq<Voucher>, nextId: nat, now: int, routes: seq<Route>, i: nat, j: nat)
    requires WellFormed(t) && nextId >= 1
    requires i < j < |routes| && routes[i].Accepted? && routes[j].Accepted?
    requires routes[i].voucher.code == routes[j].voucher.code
    ensures InsertStep(t, nextId, now, PlanBatch(routes, |routes|).valid).result.Failure?
  {
    PlanBatchRepeat(routes, i, j);
    var valid := PlanBatch(routes, |routes|).valid;
    var k, l :| 0 <= k < l < |valid| && valid[k].code == valid[l].code == routes[i].voucher.code;
    InsertRepeatedCodeFails(t, nextId, now, valid, k, l);
  }

  /** The duplicate query only sees codes already stored, so a valid element
      whose code no active voucher holds is routed to the insert list even when
      another element of the batch has the same code; with
      `RepeatFailsInsert`, such a batch fails as a whole at the insert. */
  lemma NewCodeIsAccepted(t: seq<Voucher>, reqs: seq<VoucherRequest>, today: int, i: nat)
    requires i < |reqs|
    requires FindActiveByCode(t, reqs[i].code).None? && AcceptableRequest(reqs[i], today)
    ensures var route := Routes(reqs, ActiveCodesAmong(t, Codes(reqs)), today)[i];
            route.Accepted? && route.voucher.code == reqs[i].code
  {
    var existing := ActiveCodesAmong(t, Codes(reqs));
    assert reqs[i].code !in existing;
  }

  // ------------------------------------------------------------ export

  const ExportHeader: seq<string> := ["voucher_code", "discount_percent", "expiry_date"]

  /** One exported line: the code, the discount with two decimals and the
      expiry as `YYYY-MM-DD`. */
  function ExportRow(v: Voucher): (row: seq<string>)
    ensures |row| == 3 && row[0] == v.code
    ensures row[1] == FormatFixed2(v.discount) && |row[1]| >= 4 && row[1][|row[1]| - 3] == '.'
    ensures v.discount >= 0.0 && (v.discount * 100.0).Floor as real == v.discount * 100.0 ==>
              ParseFloat(row[1]) == Some(v.discount)
    ensures HasDateShape(row[2]) && ParseDate(row[2]) == Some(v.expiry)
  {
    var row := [v.code, FormatFixed2(v.discount), FormatDate(v.expiry)];
    ParseFormatDate(v.expiry);
    if v.discount >= 0.0 && (v.discount * 100.0).Floor as real == v.discount * 100.0 then
      FormatFixed2RoundTrip(v.discount);
      row
    else
      row
  }

  /** The export's query returns the active vouchers oldest first: all of them
      when there are at most 100000, otherwise the first 100000. */
  lemma ExportQuery(t: seq<Voucher>)
    ensures var q := QueryPage(t, 1, 100000, "", "created_at", "asc");
            var active := SearchActive(t, "");
            q.Success? && SortedBy(OrderBy(CreatedAt, Asc), q.value.0) &&
            |q.value.0| == Min(100000, |active|) &&
            (|active| <= 100000 ==> multiset(q.value.0) == multiset(active))
  {
    assert LowerAscii("created_at") == "created_at";
    assert LowerAscii("asc") == "asc";
    var o := OrderBy(CreatedAt, Asc);
    assert ParseOrderBy("created_at", "asc") == Some(o);
    var active := SearchActive(t, "");
    var sorted := SortRows(o, active);
    assert |sorted| == |multiset(sorted)| == |multiset(active)| == |active|;
    assert Wrap64(Wrap64(1 - 1) * 100000) == 0;
    var w := Window(sorted, 0, 100000);
    assert QueryPage(t, 1, 100000, "", "created_at", "asc") == Success((w, |active|));
    if |sorted| <= 100000 {
      assert w == sorted[0..|sorted|];
      assert sorted[0..|sorted|] == sorted;
    }
  }

  /** An exported line read back by the CSV import, against a store where no
      active voucher has that code, gives back the voucher's code, discount and
      expiry, provided the code has no surrounding space and fits in 50 bytes,
      the discount has at most two decimals and the expiry is not past. */
  lemma ExportRowReimports(t: seq<Voucher>, v: Voucher, today: int)
    requires v.code != "" && IsTrimmed(v.code) && Utf8Len(v.code) <= MaxCodeLength
    requires 1.0 <= v.discount <= 100.0 && (v.discount * 100.0).Floor as real == v.discount * 100.0
    requires DayNumber(v.expiry) >= today
    requires FindActiveByCode(t, v.code).None?
    ensures CsvRowOutcome(t, ExportRow(v), today) == Success(NewVoucher(v.code, v.discount, v.expiry))
  {
    var row := ExportRow(v);
    TrimSpaceOfTrimmed(v.code);
    assert CsvRowCode(row) == Success(v.code);
    ExportedDiscountReads(v.discount);
    ExportedDateReads(v.expiry);
    assert CheckTerms(v.discount, TrimSpace(row[2]), today) == Success(v.expiry);
    assert CsvRowTerms(row, v.code, today) == Success(NewVoucher(v.code, v.discount, v.expiry));
  }

  /** The exported discount text reads back as the discount. */
  lemma ExportedDiscountReads(d: real)
    requires d >= 0.0 && (d * 100.0).Floor as real == d * 100.0
    ensures TrimSpace(FormatFixed2(d)) == FormatFixed2(d) && ParseFloat(FormatFixed2(d)) == Some(d)
  {
    var s := FormatFixed2(d);
    assert !IsSpace(s[0]) && !IsSpace(s[|s| - 1]);
    TrimSpaceOfTrimmed(s);
    FormatFixed2RoundTrip(d);
  }

  /** The exported date text reads back as the date. */
  lemma ExportedDateReads(e: CalendarDate)
    ensures TrimSpace(FormatDate(e)) == FormatDate(e) && ParseDate(FormatDate(e)) == Some(e)
  {
    var s := FormatDate(e);
    assert !IsSpace(s[0]) && !IsSpace(s[|s| - 1]);
    TrimSpaceOfTrimmed(s);
    ParseFormatDate(e);
  }

  /** Re-importing an export into the same store inserts nothing new: every
      line of an active voucher is rejected as an existing code. */
  lemma ExportRowRejectedInSameStore(t: seq<Voucher>, v: Voucher, today: int)
    requires v in t && v.IsActive()
    requires v.code != "" && IsTrimmed(v.code) && Utf8Len(v.code) <= MaxCodeLength
    ensures CsvRowOutcome(t, ExportRow(v), today) == Failure(RowError.CodeExists(v.code))
  {
    TrimSpaceOfTrimmed(v.code);
    var i :| 0 <= i < |t| && t[i] == v;
    assert FindActiveByCode(t, v.code).Some?;
  }

  // ------------------------------------------------------------ the service

  class VoucherService {
    const repo: VoucherStore
    /** The repository calls made so far, in order. */
    ghost var calls: seq<Call>

    constructor (repo: VoucherStore)
      ensures this.repo == repo && calls == []
    {
      this.repo := repo;
      calls := [];
    }

    /** The list query, passed straight to the store. */
    method GetAll(page: int, limit: int, search: string, sortBy: string, sortOrder: string)
      returns (r: Result<(seq<Voucher>, nat), ServiceError>)
      requires IsInt64(page) && IsInt64(limit)
      modifies this
      ensures calls == old(calls) + [FindAllCall(page, limit, search, sortBy, sortOrder)]
      ensures var q := QueryPage(repo.table, page, limit, search, sortBy, sortOrder);
              r == (if q.Success? then Success(q.value) else Failure(Repo(q.error)))
    {
      var q := repo.FindAll(page, limit, search, sortBy, sortOrder);
      calls := calls + [FindAllCall(page, limit, search, sortBy, sortOrder)];
      if q.Failure? {
        return Failure(Repo(q.error));
      }
      r := Success(q.value);
    }

    /** The active voucher with that id, or "voucher not found". */
    method GetByID(id: nat) returns (r: Result<Voucher, ServiceError>)
      modifies this
      ensures calls == old(calls) + [FindByIdCall(id)]
      ensures r.Success? <==> FindActiveById(repo.table, id).Some?
      ensures r.Success? ==> r.value == FindActiveById(repo.table, id).value
      ensures r.Failure? ==> r.error == NotFound
    {
      var found := repo.FindByID(id);
      calls := calls + [FindByIdCall(id)];
      if found.Failure? {
        return Failure(NotFound);
      }
      r := Success(found.value);
    }

    /** Creates a voucher from a bound request: the code lookup, the date
        checks, then one insert. A failed check writes nothing. */
    method Create(req: VoucherRequest, today: int) returns (r: Result<Voucher, ServiceError>)
      requires repo.Valid() && BindingValid(req)
      modifies this, repo
      ensures repo.Valid()
      ensures var c := CreateChecks(old(repo.table), req, today);
              c.Failure? ==>
                r == Failure(c.error) && calls == old(calls) + [FindByCodeCall(req.code)] &&
                repo.table == old(repo.table) && repo.nextId == old(repo.nextId) && repo.clock == old(repo.clock)
      ensures var c := CreateChecks(old(repo.table), req, today);
              c.Success? ==>
                var s := InsertStep(old(repo.table), old(repo.nextId), old(repo.clock), [c.value]);
                calls == old(calls) + [FindByCodeCall(req.code), CreateCall(c.value)] &&
                repo.table == s.table && repo.nextId == s.nextId && repo.clock == old(repo.clock) + 1 &&
                r == (if s.result.Success? then Success(s.result.value[0]) else Failure(Repo(s.result.error)))
      ensures r.Success? ==>
                r.value.code == req.code && r.value.discount == req.discount &&
                ParseDate(req.expiryDate) == Some(r.value.expiry) && DayNumber(r.value.expiry) >= today &&
                r.value.IsActive() && r.value in repo.table && r.value.id >= 1
    {
      var existing := repo.FindByVoucherCode(req.code);
      calls := calls + [FindByCodeCall(req.code)];
      if existing.Some? {
        return Failure(CodeTaken);
      }
      var expiry := ParseDate(req.expiryDate);
      if expiry.None? {
        return Failure(BadDateFormat);
      }
      if DayNumber(expiry.value) < today {
        return Failure(ExpiryBeforeToday);
      }
      var v := NewVoucher(req.code, req.discount, expiry.value);
      ghost var t0, n0, c0 := repo.table, repo.nextId, repo.clock;
      var created := repo.Create(v);
      calls := calls + [CreateCall(v)];
      if created.Failure? {
        return Failure(Repo(created.error));
      }
      r := Success(created.value);
      assert AssignIds([v], n0, c0)[0] == Stamp(v, n0, c0);
      assert repo.table == t0 + [created.value];
    }

    /** The lookups `Update` starts with: the voucher `id`, then, only when
        the request changes its code, the new code. Returns the fetched
        voucher, or the error the lookups decide. */
    method LookUpForUpdate(id: nat, req: VoucherRequest) returns (r: Result<Voucher, ServiceError>)
      modifies this
      ensures FindActiveById(repo.table, id).None? ==> r == Failure(NotFound)
      ensures FindActiveById(repo.table, id).Some? ==>
                var v := FindActiveById(repo.table, id).value;
                r == (if req.code != v.code && FindActiveByCode(repo.table, req.code).Some?
                      then Failure(CodeTaken) else Success(v))
      ensures calls == old(calls) + [FindByIdCall(id)] +
                (if FindActiveById(repo.table, id).Some? && req.code != FindActiveById(repo.table, id).value.code
                 then [FindByCodeCall(req.code)] else [])
    {
      var found := repo.FindByID(id);
      calls := calls + [FindByIdCall(id)];
      if found.Failure? {
        return Failure(NotFound);
      }
      var v := found.value;
      if req.code != v.code {
        var existing := repo.FindByVoucherCode(req.code);
        calls := calls + [FindByCodeCall(req.code)];
        if existing.Some? {
          return Failure(CodeTaken);
        }
      }
      r := Success(v);
    }

    /** Updates the active voucher `id` from a bound request: code, discount and
        expiry are overwritten and the voucher saved; a failed check writes
        nothing. */
    method Update(id: nat, req: VoucherRequest, today: int) returns (r: Result<Voucher, ServiceError>)
      requires repo.Valid() && BindingValid(req)
      modifies this, repo
      ensures repo.Valid()
      ensures calls == old(calls) + UpdateCalls(old(repo.table), id, req, today)
      ensures var c := UpdateChecks(old(repo.table), id, req, today);
              c.Failure? ==>
                r == Failure(c.error) &&
                repo.table == old(repo.table) && repo.nextId == old(repo.nextId) && repo.clock == old(repo.clock)
      ensures var c := UpdateChecks(old(repo.table), id, req, today);
              c.Success? ==>
                var s := SaveStep(old(repo.table), old(repo.nextId), old(repo.clock), c.value);
                repo.table == s.table && repo.nextId == s.nextId && repo.clock == old(repo.clock) + 1 &&
                r == (if s.result.Success? then Success(s.result.value) else Failure(Repo(s.result.error)))
      ensures r.Success? ==>
                r.value.id == id && r.value.code == req.code && r.value.discount == req.discount &&
                ParseDate(req.expiryDate) == Some(r.value.expiry) && r.value.IsActive() &&
                r.value.updatedAt == old(repo.clock)
    {
      ghost var t0 := repo.table;
      ghost var check := UpdateChecks(t0, id, req, today);
      var found := LookUpForUpdate(id, req);
      ghost var lookups := calls;
      if found.Failure? {
        assert check == found;
        return Failure(found.error);
      }
      var expiry := ParseDate(req.expiryDate);
      if expiry.None? {
        assert check == Failure(BadDateFormat);
        return Failure(BadDateFormat);
      }
      if DayNumber(expiry.value) < today {
        assert check == Failure(ExpiryBeforeToday);
        return Failure(ExpiryBeforeToday);
      }
      var v := found.value.(code := req.code, discount := req.discount, expiry := expiry.value);
      assert check == Success(v);
      UpdateKeepsIdentity(t0, id, req, today);
      ghost var now := repo.clock;
      var saved := repo.Update(v);
      calls := calls + [UpdateCall(v)];
      if saved.Failure? {
        return Failure(Repo(saved.error));
      }
      SaveResultRow(t0, old(repo.nextId), now, v);
      r := Success(saved.value);
    }

    /** Soft-deletes the active voucher `id`; an unknown id is "voucher not
        found" and the store's delete is not called. */
    method Delete(id: nat) returns (err: Option<ServiceError>)
      requires repo.Valid()
      modifies this, repo
      ensures repo.Valid()
      ensures FindActiveById(old(repo.table), id).None? ==>
                err == Some(NotFound) && calls == old(calls) + [FindByIdCall(id)] &&
                repo.table == old(repo.table) && repo.clock == old(repo.clock)
      ensures FindActiveById(old(repo.table), id).Some? ==>
                err == None && calls == old(calls) + [FindByIdCall(id), DeleteCall(id)] &&
                repo.table == SoftDelete(old(repo.table), id, old(repo.clock)) &&
                repo.clock == old(repo.clock) + 1
      ensures repo.nextId == old(repo.nextId)
    {
      var found := repo.FindByID(id);
      calls := calls + [FindByIdCall(id)];
      if found.Failure? {
        return Some(NotFound);
      }
      repo.Delete(id);
      calls := calls + [DeleteCall(id)];
      err := None;
    }

    /** `parseCSVRow`: validates one CSV record, looking its code up in the
        store once the column and code checks pass. */
    method ParseCSVRow(record: seq<string>, today: int) returns (r: Result<Voucher, RowError>)
      modifies this
      ensures r == CsvRowOutcome(repo.table, record, today)
      ensures calls == old(calls) +
              CsvLookup(record)
    {
      if |record| < 3 {
        return Failure(InsufficientColumns);
      }
      var code := TrimSpace(record[0]);
      if code == "" {
        return Failure(CodeRequired);
      }
      if Utf8Len(code) > MaxCodeLength {
        return Failure(CodeTooLong);
      }
      var existing := repo.FindByVoucherCode(code);
      calls := calls + [FindByCodeCall(code)];
      if existing.Some? {
        return Failure(RowError.CodeExists(code));
      }
      r := CsvRowTerms(record, code, today);
    }

    /** One iteration of the import's row loop: the check of data row `i`. */
    method CheckRow(rows: seq<seq<string>>, i: nat, today: int, ghost outcomes: seq<Verdict>,
                    ghost lookups: seq<seq<Call>>)
      returns (row: Verdict)
      requires i < |rows| && OutcomesOf(outcomes, repo.table, rows, today) && LookupsOf(lookups, rows)
      modifies this
      ensures row == outcomes[i]
      ensures calls == old(calls) + lookups[i]
    {
      var checked := ParseCSVRow(rows[i], today);
      if checked.Failure? {
        return Failure(checked.error.Message());
      }
      return Success(checked.value);
    }

    /** The import's row loop: each data row is validated in file order; a
        rejected row is reported with its line number in the file (the header
        is line 1), an accepted row's voucher is kept for the insert. */
    method ValidateRows(rows: seq<seq<string>>, today: int, ghost outcomes: seq<Verdict>,
                        ghost lookups: seq<seq<Call>>)
      returns (accepted: seq<Voucher>, errors: seq<ImportError>, failed: int)
      requires OutcomesOf(outcomes, repo.table, rows, today) && LookupsOf(lookups, rows)
      modifies this
      ensures PlanCsvRows(outcomes, |outcomes|) == CsvPlan(accepted, errors)
      ensures failed == |errors|
      ensures calls == old(calls) + Concat(lookups, |lookups|)
    {
      errors, failed, accepted := [], 0, [];
      ghost var t0 := repo.table;
      var i := 0;
      while i < |rows|
        invariant 0 <= i <= |rows|
        invariant repo.table == t0
        invariant PlanCsvRows(outcomes, i) == CsvPlan(accepted, errors)
        invariant failed == |errors|
        invariant calls == old(calls) + Concat(lookups, i)
      {
        var row := CheckRow(rows, i, today, outcomes, lookups);
        if row.Failure? {
          errors := errors + [ImportError(i + 2, row.error)];
          failed := failed + 1;
        } else {
          accepted := accepted + [row.value];
        }
        assert PlanCsvRows(outcomes, i + 1) == CsvPlan(accepted, errors);
        i := i + 1;
      }
    }

    /** Imports a CSV upload: every data row is validated on its own, rejected
        rows are reported by line number, and the accepted rows go to the store
        in one insert, all or nothing. */
    method ImportVouchers(file: CsvFile, today: int) returns (r: Result<ImportResult, ServiceError>)
      requires repo.Valid()
      modifies this, repo
      ensures repo.Valid()
      ensures ReadRecords(file).None? ==>
                r == Failure(CsvUnreadable) && calls == old(calls) && repo.table == old(repo.table)
      ensures ReadRecords(file).Some? && |ReadRecords(file).value| < 2 ==>
                r == Failure(CsvEmpty) && calls == old(calls) && repo.table == old(repo.table)
      ensures ReadRecords(file).Some? && |ReadRecords(file).value| >= 2 ==>
                var rows := ReadRecords(file).value[1..];
                var p := PlanCsvRows(CsvOutcomes(old(repo.table), rows, today), |rows|);
                var report := ImportResult(|rows|, |p.accepted|, |p.errors|, p.errors);
                (p.accepted == [] ==>
                   r == Success(report) && calls == old(calls) + CsvLookups(rows, |rows|) &&
                   repo.table == old(repo.table) && repo.nextId == old(repo.nextId)) &&
                (p.accepted != [] ==>
                   var s := InsertStep(old(repo.table), old(repo.nextId), old(repo.clock), p.accepted);
                   calls == old(calls) + CsvLookups(rows, |rows|) + [BulkCreateCall(p.accepted)] &&
                   repo.table == s.table && repo.nextId == s.nextId &&
                   r == (if s.result.Success? then Success(report) else Failure(InsertFailed(s.result.error))))
      ensures r.Success? ==>
                r.value.totalRows == r.value.success + r.value.failed && r.value.failed == |r.value.errors|
    {
      var read := ReadRecords(file);
      if read.None? {
        return Failure(CsvUnreadable);
      }
      var records := read.value;
      if |records| < 2 {
        return Failure(CsvEmpty);
      }
      var rows := records[1..];
      CsvOutcomesAreOutcomesOf(repo.table, rows, today);
      ghost var lookups := seq(|rows|, k requires 0 <= k < |rows| => CsvLookup(rows[k]));
      var accepted, errors, failed := ValidateRows(rows, today, CsvOutcomes(repo.table, rows, today), lookups);
      ConcatLookups(lookups, rows, |rows|);
      assert rows == ReadRecords(file).value[1..];
      assert PlanCsvRows(CsvOutcomes(old(repo.table), rows, today), |rows|) == CsvPlan(accepted, errors);
      var success := 0;
      if |accepted| > 0 {
        var inserted := repo.BulkCreate(accepted);
        calls := calls + [BulkCreateCall(accepted)];
        assert calls == old(calls) + CsvLookups(rows, |rows|) + [BulkCreateCall(accepted)];
        if inserted.Failure? {
          return Failure(InsertFailed(inserted.error));
        }
        success := |accepted|;
      }
      r := Success(ImportResult(|rows|, success, failed, errors));
    }

    /** The set of codes the duplicate query returned, as a lookup map. */
    static method DuplicateMap(existing: seq<string>) returns (m: map<string, bool>)
      ensures forall c :: c in m <==> c in existing
      ensures forall c :: c in m ==> m[c]
    {
      m := map[];
      for j := 0 to |existing|
        invariant forall c :: c in m <==> c in existing[..j]
        invariant forall c :: c in m ==> m[c]
      {
        assert existing[..j + 1] == existing[..j] + [existing[j]];
        m := m[existing[j] := true];
      }
      assert existing[..|existing|] == existing;
    }

    /** The batch loop's decision on element `i`: a duplicate when the
        duplicate query returned its code, else the validator's verdict. */
    static method RouteOne(reqs: seq<VoucherRequest>, i: nat, duplicateMap: map<string, bool>,
                           ghost existing: seq<string>, today: int, ghost routes: seq<Route>)
      returns (route: Route)
      requires i < |reqs| && RoutesOf(routes, reqs, existing, today)
      requires forall c :: c in duplicateMap <==> c in existing
      requires forall c :: c in duplicateMap ==> duplicateMap[c]
      ensures route == routes[i]
    {
      var req := reqs[i];
      if req.code in duplicateMap && duplicateMap[req.code] {
        return Duplicate(req.code);
      }
      var checked := ValidateAndConvert(req, today);
      if checked.Failure? {
        return Rejected("Code " + req.code + ": " + checked.error.Message());
      }
      return Accepted(checked.value);
    }

    /** The codes of a batch, in order, as a fresh array. */
    static method CollectCodes(reqs: seq<VoucherRequest>) returns (codes: array<string>)
      ensures fresh(codes) && codes[..] == Codes(reqs)
    {
      codes := new string[|reqs|];
      for i := 0 to |reqs|
        modifies codes
        invariant forall k :: 0 <= k < i ==> codes[k] == reqs[k].code
      {
        codes[i] := reqs[i].code;
      }
    }

    /** The batch loop: every element is a duplicate, an error line or a
        voucher to insert, in batch order. */
    static method RouteBatch(reqs: seq<VoucherRequest>, duplicateMap: map<string, bool>, ghost existing: seq<string>,
                             today: int, ghost routes: seq<Route>)
      returns (duplicateCodes: seq<string>, duplicates: int, errors: seq<string>, valid: seq<Voucher>)
      requires RoutesOf(routes, reqs, existing, today)
      requires forall c :: c in duplicateMap <==> c in existing
      requires forall c :: c in duplicateMap ==> duplicateMap[c]
      ensures PlanBatch(routes, |routes|) == BatchPlan(duplicateCodes, errors, valid)
      ensures duplicates == |duplicateCodes|
    {
      duplicateCodes, duplicates, errors, valid := [], 0, [], [];
      for i := 0 to |reqs|
        invariant PlanBatch(routes, i) == BatchPlan(duplicateCodes, errors, valid)
        invariant duplicates == |duplicateCodes|
      {
        var route := RouteOne(reqs, i, duplicateMap, existing, today, routes);
        match route
        case Duplicate(c) =>
          duplicates := duplicates + 1;
          duplicateCodes := duplicateCodes + [c];
        case Rejected(line) =>
          errors := errors + [line];
        case Accepted(v) =>
          valid := valid + [v];
      }
    }

    /** Imports a structured batch: one duplicate query for all codes, then
        each request is a duplicate, an error line or a voucher to insert, and
        the vouchers go to the store in one insert. */
    method ImportBatch(reqs: seq<VoucherRequest>, today: int) returns (r: Result<BatchImportResult, ServiceError>)
      requires repo.Valid()
      modifies this, repo
      ensures repo.Valid()
      ensures var existing := ActiveCodesAmong(old(repo.table), Codes(reqs));
              var p := PlanBatch(Routes(reqs, existing, today), |reqs|);
              var report := BatchImportResult(|reqs|, |p.valid|, |p.duplicateCodes|, p.duplicateCodes, p.errors);
              (p.valid == [] ==>
                 r == Success(report) && calls == old(calls) + [CheckDuplicatesCall(Codes(reqs))] &&
                 repo.table == old(repo.table) && repo.nextId == old(repo.nextId)) &&
              (p.valid != [] ==>
                 var s := InsertStep(old(repo.table), old(repo.nextId), old(repo.clock), p.valid);
                 calls == old(calls) + [CheckDuplicatesCall(Codes(reqs)), BulkCreateCall(p.valid)] &&
                 repo.table == s.table && repo.nextId == s.nextId &&
                 r == (if s.result.Success? then Success(report) else Failure(Repo(s.result.error))))
      ensures r.Success? ==>
                r.value.totalReceived == r.value.inserted + r.value.duplicates + |r.value.errors| &&
                r.value.duplicates == |r.value.duplicateCodes|
    {
      var codes := CollectCodes(reqs);
      var codeList := codes[..];
      var existing := repo.CheckDuplicateCodes(codeList);
      calls := calls + [CheckDuplicatesCall(codeList)];

      var duplicateMap := DuplicateMap(existing);
      ghost var routes := Routes(reqs, existing, today);
      RoutesAreRoutesOf(reqs, existing, today);
      var duplicateCodes, duplicates, errors, valid := RouteBatch(reqs, duplicateMap, existing, today, routes);
      var inserted := 0;
      if |valid| > 0 {
        var created := repo.BulkCreate(valid);
        calls := calls + [BulkCreateCall(valid)];
        if created.Failure? {
          return Failure(Repo(created.error));
        }
        inserted := |valid|;
      }
      r := Success(BatchImportResult(|reqs|, inserted, duplicates, duplicateCodes, errors));
    }

    /** Exports every voucher the list query returns for page 1 with limit
        100000, oldest first: the header, then one line per voucher in order. */
    method ExportVouchers() returns (r: Result<seq<seq<string>>, ServiceError>)
      modifies this
      ensures calls == old(calls) + [FindAllCall(1, 100000, "", "created_at", "asc")]
      ensures QueryPage(repo.table, 1, 100000, "", "created_at", "asc").Success?
      ensures var vs := QueryPage(repo.table, 1, 100000, "", "created_at", "asc").value.0;
              r.Success? && |r.value| == |vs| + 1 && r.value[0] == ExportHeader &&
              forall i :: 0 <= i < |vs| ==> r.value[i + 1] == ExportRow(vs[i])
    {
      ExportQuery(repo.table);
      var found := repo.FindAll(1, 100000, "", "created_at", "asc");
      calls := calls + [FindAllCall(1, 100000, "", "created_at", "asc")];
      if found.Failure? {
        // The query error path: with these arguments the query always
        // succeeds (`ExportQuery`), so it is never taken here.
        assert false;
      }
      var out := ExportLines(found.value.0);
      r := Success(out);
    }

    /** The export's writer loop: the header, then one line per voucher. */
    static method ExportLines(vs: seq<Voucher>) returns (out: seq<seq<string>>)
      ensures |out| == |vs| + 1 && out[0] == ExportHeader
      ensures forall i :: 0 <= i < |vs| ==> out[i + 1] == ExportRow(vs[i])
    {
      out := [ExportHeader];
      for i := 0 to |vs|
        invariant |out| == i + 1 && out[0] == ExportHeader
        invariant forall k :: 0 <= k < i ==> out[k + 1] == ExportRow(vs[k])
      {
        out := out + [ExportRow(vs[i])];
      }
    }
  }
}
