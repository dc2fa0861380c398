/** The LoansModule class of modules/loans.py: four tables updated in place by seeding,
    loan creation, schedule generation, approval, disbursement and repayment. */
module Loans {

  import opened Wrappers
  import opened Money
  import opened Amortization
  import opened LoanTables
  import Utils

  class LoansModule {
    var loanTypes: seq<LoanType>
    var loans: seq<Loan>
    var schedule: seq<ScheduleEntry>
    var ledger: seq<LedgerEntry>
    // the next AUTOINCREMENT id of each table
    var nextTypeId: nat
    var nextLoanId: nat
    var nextScheduleId: nat
    var nextEntryId: nat

    ghost predicate Valid()
      reads this
    {
      TypesOk(loanTypes, nextTypeId) && LoansOk(loans, nextLoanId)
      && ScheduleOk(schedule, nextScheduleId) && LedgerOk(ledger, nextEntryId)
    }

    /** __init__ over a database that already holds these rows: seeds the default products. */
    constructor(types: seq<LoanType>, typeId: nat, loanRows: seq<Loan>, loanId: nat,
                scheduleRows: seq<ScheduleEntry>, scheduleId: nat, entries: seq<LedgerEntry>, entryId: nat)
      requires TypesOk(types, typeId) && LoansOk(loanRows, loanId)
      requires ScheduleOk(scheduleRows, scheduleId) && LedgerOk(entries, entryId)
      ensures Valid()
      ensures loanTypes == types + SeedRows(Names(types), DefaultProducts, typeId)
      ensures loans == loanRows && schedule == scheduleRows && ledger == entries
      ensures nextTypeId == typeId + |SeedRows(Names(types), DefaultProducts, typeId)|
      ensures nextLoanId == loanId && nextScheduleId == scheduleId && nextEntryId == entryId
    {
      loanTypes, loans, schedule, ledger := types, loanRows, scheduleRows, entries;
      nextTypeId, nextLoanId, nextScheduleId, nextEntryId := typeId, loanId, scheduleId, entryId;
      new;
      SeedDefaultLoanTypes();
    }

    /** seed_default_loan_types: insert each default product whose name is not yet present. */
    method SeedDefaultLoanTypes()
      requires Valid()
      modifies this
      ensures Valid()
      ensures loanTypes == old(loanTypes) + SeedRows(Names(old(loanTypes)), DefaultProducts, old(nextTypeId))
      ensures nextTypeId == old(nextTypeId) + |SeedRows(Names(old(loanTypes)), DefaultProducts, old(nextTypeId))|
      ensures forall p :: p in DefaultProducts ==> p.name in Names(loanTypes)
      ensures loans == old(loans) && schedule == old(schedule) && ledger == old(ledger)
      ensures nextLoanId == old(nextLoanId) && nextScheduleId == old(nextScheduleId) && nextEntryId == old(nextEntryId)
    {
      var existing := Names(loanTypes);
      var i := 0;
      while i < |DefaultProducts|
        invariant 0 <= i <= |DefaultProducts|
        invariant loanTypes == old(loanTypes) + SeedRows(existing, DefaultProducts[..i], old(nextTypeId))
        invariant nextTypeId == old(nextTypeId) + |SeedRows(existing, DefaultProducts[..i], old(nextTypeId))|
        invariant loans == old(loans) && schedule == old(schedule) && ledger == old(ledger)
        invariant nextLoanId == old(nextLoanId) && nextScheduleId == old(nextScheduleId) && nextEntryId == old(nextEntryId)
      {
        var p := DefaultProducts[i];
        assert DefaultProducts[..i + 1][..i] == DefaultProducts[..i];
        if p.name !in existing {
          loanTypes := loanTypes + [LoanType(nextTypeId, p.name, p.interestRate, p.durationMonths, 1)];
          nextTypeId := nextTypeId + 1;
        }
        i := i + 1;
      }
      assert DefaultProducts[..i] == DefaultProducts;
      SeedKeepsTypesOk(old(loanTypes), old(nextTypeId));
      SeedCovers(old(loanTypes), DefaultProducts, old(nextTypeId));
    }

    /** The product lookup and LoansTbl insert of create_loan. */
    method InsertLoan(req: LoanRequest) returns (r: Result<Loan>)
      requires Valid()
      modifies this
      ensures Valid()
      ensures ActiveProduct(old(loanTypes), req.loanType).None? ==>
                r == Failure(InvalidLoanType) && loans == old(loans) && nextLoanId == old(nextLoanId)
      ensures ActiveProduct(old(loanTypes), req.loanType).Some? ==>
                r == Success(NewLoan(req, ActiveProduct(old(loanTypes), req.loanType).value, old(nextLoanId)))
                && loans == old(loans) + [r.value] && nextLoanId == old(nextLoanId) + 1
      ensures loanTypes == old(loanTypes) && schedule == old(schedule) && ledger == old(ledger)
      ensures nextTypeId == old(nextTypeId) && nextScheduleId == old(nextScheduleId) && nextEntryId == old(nextEntryId)
    {
      var loanMethod := MethodOf(req);
      var product := ActiveProduct(loanTypes, req.loanType);
      if product.None? {
        r := Failure(InvalidLoanType);
        return;
      }
      var p := product.value;
      var principal := req.loanAmount;
      var rate := p.interestRate / 100.0;
      var months := p.durationMonths;
      var totalInterest := if IsFlat(loanMethod) then FlatInterest(principal, rate, months)
                           else ReduceInterest(principal, rate, months);
      var totalPayable := principal + totalInterest;
      var loan := Loan(nextLoanId, req.memberId, req.loanType, principal, p.interestRate, months,
                       req.startDate, Round2(totalPayable), "Active", ApprovalStatus.Pending, None, loanMethod);
      loans := loans + [loan];
      nextLoanId := nextLoanId + 1;
      r := Success(loan);
    }

    /** One INSERT into LoanRepaymentScheduleTbl; a NULL LoanID breaks its NOT NULL constraint. */
    method InsertScheduleRow(loanId: Option<nat>, dueDate: int, principal: real, interest: real, amountDue: real)
      returns (r: Outcome)
      requires Valid()
      modifies this
      ensures Valid()
      ensures loanId.None? ==> r == Fail(NotNullViolation) && schedule == old(schedule) && nextScheduleId == old(nextScheduleId)
      ensures loanId.Some? ==>
                (r == Pass && nextScheduleId == old(nextScheduleId) + 1
                 && schedule == old(schedule) + [ScheduleEntry(old(nextScheduleId), loanId.value, dueDate,
                                                 Round2(principal), Round2(interest), Round2(amountDue), 0.0, ScheduleStatus.Pending)])
      ensures loanTypes == old(loanTypes) && loans == old(loans) && ledger == old(ledger)
      ensures nextTypeId == old(nextTypeId) && nextLoanId == old(nextLoanId) && nextEntryId == old(nextEntryId)
    {
      if loanId.None? {
        r := Fail(NotNullViolation);
        return;
      }
      schedule := schedule + [ScheduleEntry(nextScheduleId, loanId.value, dueDate,
                                            Round2(principal), Round2(interest), Round2(amountDue), 0.0, ScheduleStatus.Pending)];
      nextScheduleId := nextScheduleId + 1;
      r := Pass;
    }

    /** generate_schedule: one row per month on 30-day periods.  months == 0 divides by zero
        before anything is inserted; a negative term inserts nothing. */
    method GenerateSchedule(loanId: Option<nat>, principal: real, rate: real, months: int, start: int, loanMethod: string)
      returns (r: Outcome)
      requires Valid()
      modifies this
      ensures Valid()
      ensures months == 0 ==> r == Fail(ZeroDivision) && schedule == old(schedule)
      ensures months < 0 ==> r == Pass && schedule == old(schedule)
      ensures months > 0 && loanId.None? ==> r == Fail(NotNullViolation) && schedule == old(schedule)
      ensures months > 0 && loanId.Some? ==>
                (r == Pass
                 && schedule == old(schedule) + ScheduleRows(loanId.value, loanMethod, principal, rate, months, start, old(nextScheduleId))
                 && nextScheduleId == old(nextScheduleId) + months)
      ensures schedule == old(schedule) ==> nextScheduleId == old(nextScheduleId)
      ensures loanTypes == old(loanTypes) && loans == old(loans) && ledger == old(ledger)
      ensures nextTypeId == old(nextTypeId) && nextLoanId == old(nextLoanId) && nextEntryId == old(nextEntryId)
    {
      if months == 0 {
        r := Fail(ZeroDivision);
        return;
      }
      var monthlyPrincipal := principal / months as real;
      var remaining := principal;
      ghost var rows := if months > 0 && loanId.Some?
                        then ScheduleRows(loanId.value, loanMethod, principal, rate, months, start, old(nextScheduleId))
                        else [];
      var i: nat := 0;
      while i < months
        invariant months > 0 ==> i <= months
        invariant months < 0 ==> i == 0
        invariant ScheduleOk(schedule, nextScheduleId)
        invariant remaining == Remaining(principal, months, i)
        invariant i > 0 ==> loanId.Some?
        invariant i <= |rows| || i == 0
        invariant schedule == old(schedule) + rows[..i]
        invariant nextScheduleId == old(nextScheduleId) + i
        invariant loanTypes == old(loanTypes) && loans == old(loans) && ledger == old(ledger)
        invariant nextTypeId == old(nextTypeId) && nextLoanId == old(nextLoanId) && nextEntryId == old(nextEntryId)
      {
        var interest := if IsFlat(loanMethod) then (principal * rate) / months as real else remaining * rate / 12.0;
        var amountDue := monthlyPrincipal + interest;
        var dueDate := start + 30 * (i + 1);
        ghost var before := schedule;
        var inserted := InsertScheduleRow(loanId, dueDate, monthlyPrincipal, interest, amountDue);
        if inserted.Fail? {
          assert i == 0 && loanId.None?;
          assert schedule == old(schedule) && nextScheduleId == old(nextScheduleId);
          r := inserted;
          return;
        }
        ScheduleRowFromLoop(loanId.value, loanMethod, principal, rate, months, start, old(nextScheduleId), i, remaining);
        assert rows[i] == ScheduleRow(loanId.value, loanMethod, principal, rate, months, start, old(nextScheduleId), i);
        assert schedule == before + [rows[i]];
        PrefixStep(old(schedule), rows, i);
        assert Remaining(principal, months, i + 1) == remaining - MonthlyPrincipal(principal, months);
        remaining := remaining - monthlyPrincipal;
        i := i + 1;
      }
      assert rows[..i] == rows;
      r := Pass;
    }

    /** create_loan with the assigned LoanID handed to generate_schedule.  A loan whose schedule
        fails (a zero term) stays inserted, as its INSERT was already committed. */
    method CreateLoan(req: LoanRequest) returns (r: Result<nat>)
      requires Valid()
      modifies this
      ensures Valid()
      ensures ActiveProduct(old(loanTypes), req.loanType).None? ==>
                r == Failure(InvalidLoanType) && loans == old(loans) && schedule == old(schedule)
                && nextLoanId == old(nextLoanId) && nextScheduleId == old(nextScheduleId)
      ensures ActiveProduct(old(loanTypes), req.loanType).Some? ==>
                var p := ActiveProduct(old(loanTypes), req.loanType).value;
                var loan := NewLoan(req, p, old(nextLoanId));
                && loans == old(loans) + [loan]
                && nextLoanId == old(nextLoanId) + 1
                && loan.approvalStatus == ApprovalStatus.Pending
                && loan.interestRate == p.interestRate && loan.durationMonths == p.durationMonths
                && (p.durationMonths == 0 ==>
                      r == Failure(ZeroDivision) && schedule == old(schedule) && nextScheduleId == old(nextScheduleId))
                && (p.durationMonths < 0 ==>
                      r == Success(loan.id) && schedule == old(schedule) && nextScheduleId == old(nextScheduleId))
                && (p.durationMonths > 0 ==>
                      r == Success(loan.id)
                      && schedule == old(schedule) + ScheduleRows(loan.id, MethodOf(req), req.loanAmount,
                                                                  p.interestRate / 100.0, p.durationMonths,
                                                                  req.startDate, old(nextScheduleId))
                      && nextScheduleId == old(nextScheduleId) + p.durationMonths)
      ensures loanTypes == old(loanTypes) && ledger == old(ledger)
      ensures nextTypeId == old(nextTypeId) && nextEntryId == old(nextEntryId)
    {
      var inserted := InsertLoan(req);
      if inserted.Failure? {
        r := Failure(inserted.error);
        return;
      }
      var loan := inserted.value;
      var generated := GenerateSchedule(Some(loan.id), loan.loanAmount, loan.interestRate / 100.0,
                                        loan.durationMonths, loan.startDate, loan.loanMethod);
      r := if generated.Pass? then Success(loan.id) else Failure(generated.error);
    }

    /** create_loan as the source has it: DBManager.insert returns nothing, so the schedule is
        generated for LoanID None and its first INSERT is refused, after the loan row was committed. */
    method CreateLoanAsWritten(req: LoanRequest) returns (r: Outcome)
      requires Valid()
      modifies this
      ensures Valid()
      ensures ActiveProduct(old(loanTypes), req.loanType).None? ==>
                r == Fail(InvalidLoanType) && loans == old(loans) && nextLoanId == old(nextLoanId)
      ensures ActiveProduct(old(loanTypes), req.loanType).Some? ==>
                var p := ActiveProduct(old(loanTypes), req.loanType).value;
                && loans == old(loans) + [NewLoan(req, p, old(nextLoanId))]
                && nextLoanId == old(nextLoanId) + 1
                && (p.durationMonths == 0 ==> r == Fail(ZeroDivision))
                && (p.durationMonths < 0 ==> r == Pass)
                && (p.durationMonths > 0 ==> r == Fail(NotNullViolation))
      ensures schedule == old(schedule) && nextScheduleId == old(nextScheduleId)
      ensures loanTypes == old(loanTypes) && ledger == old(ledger)
      ensures nextTypeId == old(nextTypeId) && nextEntryId == old(nextEntryId)
    {
      var inserted := InsertLoan(req);
      if inserted.Failure? {
        r := Fail(inserted.error);
        return;
      }
      var loan := inserted.value;
      var loanId: Option<nat> := None;  // the value of self.db.insert(...)
      r := GenerateSchedule(loanId, loan.loanAmount, loan.interestRate / 100.0,
                            loan.durationMonths, loan.startDate, loan.loanMethod);
    }

    /** approve_loan: with the Approve permission, every row with this LoanID becomes Approved,
        whatever its status was; without it nothing changes. */
    method ApproveLoan(loanId: int, permissions: map<string, bool>) returns (r: Outcome)
      requires Valid()
      modifies this
      ensures Valid()
      ensures !Utils.SafeGet(permissions, "Approve", false) ==> r == Fail(PermissionDenied) && loans == old(loans)
      ensures Utils.SafeGet(permissions, "Approve", false) ==> r == Pass && loans == WithApproval(old(loans), loanId, Approved)
      ensures loanTypes == old(loanTypes) && schedule == old(schedule) && ledger == old(ledger)
      ensures nextTypeId == old(nextTypeId) && nextLoanId == old(nextLoanId)
      ensures nextScheduleId == old(nextScheduleId) && nextEntryId == old(nextEntryId)
    {
      if !Utils.SafeGet(permissions, "Approve", false) {
        r := Fail(PermissionDenied);
        return;
      }
      loans := WithApproval(loans, loanId, Approved);
      r := Pass;
    }

    /** disburse_loan: with the Disburse permission the loan becomes Disbursed on today,
        approved before or not; without it nothing changes. */
    method DisburseLoan(loanId: int, permissions: map<string, bool>, today: int) returns (r: Outcome)
      requires Valid()
      modifies this
      ensures Valid()
      ensures !Utils.SafeGet(permissions, "Disburse", false) ==> r == Fail(PermissionDenied) && loans == old(loans)
      ensures Utils.SafeGet(permissions, "Disburse", false) ==> r == Pass && loans == WithDisbursement(old(loans), loanId, today)
      ensures loanTypes == old(loanTypes) && schedule == old(schedule) && ledger == old(ledger)
      ensures nextTypeId == old(nextTypeId) && nextLoanId == old(nextLoanId)
      ensures nextScheduleId == old(nextScheduleId) && nextEntryId == old(nextEntryId)
    {
      if !Utils.SafeGet(permissions, "Disburse", false) {
        r := Fail(PermissionDenied);
        return;
      }
      loans := WithDisbursement(loans, loanId, today);
      r := Pass;
    }

    /** record_payment: adds amount to the row's AmountPaid, marks it Paid or Partial and
        posts Cash debit / Loan Receivable credit.  An unknown schedule id fails on [0]. */
    method RecordPayment(scheduleId: int, amount: real, today: int) returns (r: Outcome)
      requires Valid()
      modifies this
      ensures Valid()
      ensures FindSchedule(old(schedule), scheduleId).None? ==>
                r == Fail(NotFound) && schedule == old(schedule) && ledger == old(ledger) && nextEntryId == old(nextEntryId)
      ensures FindSchedule(old(schedule), scheduleId).Some? ==>
                var row := old(schedule)[FindSchedule(old(schedule), scheduleId).value];
                var paid := row.amountPaid + amount;
                && r == Pass
                && schedule == WithPayment(old(schedule), scheduleId, paid, PaymentStatus(paid, row.amountDue))
                && ledger == old(ledger) + PaymentEntries(old(nextEntryId), today, amount, row.id)
                && nextEntryId == old(nextEntryId) + 2
      ensures loanTypes == old(loanTypes) && loans == old(loans)
      ensures nextTypeId == old(nextTypeId) && nextLoanId == old(nextLoanId) && nextScheduleId == old(nextScheduleId)
    {
      var found := FindSchedule(schedule, scheduleId);
      if found.None? {
        r := Fail(NotFound);
        return;
      }
      var row := schedule[found.value];
      var paid := row.amountPaid + amount;
      var status := if paid >= row.amountDue then Paid else Partial;
      schedule := WithPayment(schedule, scheduleId, paid, status);
      ledger := ledger + PaymentEntries(nextEntryId, today, amount, row.id);
      nextEntryId := nextEntryId + 2;
      r := Pass;
    }

    /** get_loan_balance: outstanding total and past-due shortfall of a loan, read only. */
    function GetLoanBalance(loanId: int, today: int): (res: (real, real))
      reads this
      ensures res.1 >= 0.0
      ensures (forall i :: 0 <= i < |schedule| && schedule[i].loanId == loanId ==> schedule[i].amountPaid <= schedule[i].amountDue)
              ==> res.1 <= res.0
    {
      var balance := Balance(schedule, loanId);
      var arrears := Arrears(schedule, loanId, today);
      ArrearsNonNegative(schedule, loanId, today);
      if forall i :: 0 <= i < |schedule| && schedule[i].loanId == loanId ==> schedule[i].amountPaid <= schedule[i].amountDue
      then ArrearsAtMostBalance(schedule, loanId, today); (balance, arrears)
      else (balance, arrears)
    }
  }

  /** Extending the stored prefix of a schedule by its next row. */
  lemma PrefixStep<T>(stored: seq<T>, rows: seq<T>, i: nat)
    requires i < |rows|
    ensures stored + rows[..i + 1] == (stored + rows[..i]) + [rows[i]]
  {
    assert rows[..i + 1] == rows[..i] + [rows[i]];
  }

  /** A client of the source as written: a "Major" loan is applied for against a fresh
      database; the loan row is stored and its schedule is not. */
  method OrphanLoanExample() returns (loanRows: nat, scheduleRows: nat, r: Outcome)
    ensures loanRows == 1 && scheduleRows == 0 && r == Fail(NotNullViolation)
  {
    var major := LoanType(1, "Major", 10.0, 24, 1);
    var m := new LoansModule([major], 2, [], 1, [], 1, [], 1);
    assert m.loanTypes[0] == major;
    assert ActiveProduct(m.loanTypes, "Major") == Some(major);
    r := m.CreateLoanAsWritten(LoanRequest("NFC001", "Major", 12000.0, 0, None));
    loanRows, scheduleRows := |m.loans|, |m.schedule|;
  }

  /** The same application with the assigned id passed on: 24 instalments for loan 1. */
  method ScheduledLoanExample() returns (loanRows: nat, scheduleRows: nat, r: Result<nat>)
    ensures loanRows == 1 && scheduleRows == 24 && r == Success(1)
  {
    var major := LoanType(1, "Major", 10.0, 24, 1);
    var m := new LoansModule([major], 2, [], 1, [], 1, [], 1);
    assert m.loanTypes[0] == major;
    assert ActiveProduct(m.loanTypes, "Major") == Some(major);
    r := m.CreateLoan(LoanRequest("NFC001", "Major", 12000.0, 0, None));
    assert |ScheduleRows(1, "Flat", 12000.0, 10.0 / 100.0, 24, 0, 1)| == 24;
    loanRows, scheduleRows := |m.loans|, |m.schedule|;
  }
}
