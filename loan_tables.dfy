/** The four tables of modules/loans.py as sequences of rows, and the functions that say
    what each operation of the loans module does to them. */
module LoanTables {

  import opened Wrappers
  import opened Money
  import opened Amortization
  import Decimal

  // ---------------------------------------------------------------- rows

  /** A row of LoanTypesTbl.  Active is an INTEGER column; only the value 1 means active. */
  datatype LoanType = LoanType(id: nat, loanName: string, interestRate: real, durationMonths: int, active: int)

  datatype ApprovalStatus = Pending | Approved | Disbursed

  /** A row of LoansTbl.  interestRate is the product's percentage; status is the Status
      column, which only ever holds its default "Active". */
  datatype Loan = Loan(
    id: nat, memberId: string, loanType: string, loanAmount: real, interestRate: real,
    durationMonths: int, startDate: int, totalPayable: real, status: string,
    approvalStatus: ApprovalStatus, disbursementDate: Option<int>, loanMethod: string)

  datatype ScheduleStatus = Pending | Partial | Paid

  /** A row of LoanRepaymentScheduleTbl. */
  datatype ScheduleEntry = ScheduleEntry(
    id: nat, loanId: nat, dueDate: int, principal: real, interest: real,
    amountDue: real, amountPaid: real, status: ScheduleStatus)

  /** A row of LedgerTbl. */
  datatype LedgerEntry = LedgerEntry(id: nat, date: int, account: string, debit: real, credit: real, description: string)

  /** The loan_data dictionary create_loan receives; loanMethod is None when the key is absent. */
  datatype LoanRequest = LoanRequest(memberId: string, loanType: string, loanAmount: real, startDate: int, loanMethod: Option<string>)

  /** A default product: name, percentage rate, term in months. */
  datatype Product = Product(name: string, interestRate: real, durationMonths: int)

  const DefaultProducts: seq<Product> := [
    Product("Major", 10.0, 24),
    Product("Car", 15.0, 36),
    Product("Electronics", 10.0, 18),
    Product("Land", 10.0, 24),
    Product("Essential Commodities", 10.0, 12),
    Product("Education", 10.0, 6),
    Product("Emergency", 5.0, 4)
  ]

  // ---------------------------------------------------------------- table invariants

  /** AUTOINCREMENT ids grow along the table and stay below the next id; LoanName is UNIQUE. */
  predicate TypesOk(types: seq<LoanType>, next: nat)
  {
    (forall i, j :: 0 <= i < j < |types| ==> types[i].id < types[j].id && types[i].loanName != types[j].loanName)
    && (forall i :: 0 <= i < |types| ==> types[i].id < next)
  }

  predicate LoansOk(loans: seq<Loan>, next: nat)
  {
    (forall i, j :: 0 <= i < j < |loans| ==> loans[i].id < loans[j].id)
    && (forall i :: 0 <= i < |loans| ==> loans[i].id < next)
  }

  predicate ScheduleOk(rows: seq<ScheduleEntry>, next: nat)
  {
    (forall i, j :: 0 <= i < j < |rows| ==> rows[i].id < rows[j].id)
    && (forall i :: 0 <= i < |rows| ==> rows[i].id < next)
  }

  predicate LedgerOk(entries: seq<LedgerEntry>, next: nat)
  {
    (forall i, j :: 0 <= i < j < |entries| ==> entries[i].id < entries[j].id)
    && (forall i :: 0 <= i < |entries| ==> entries[i].id < next)
  }

  // ---------------------------------------------------------------- seeding

  function Names(types: seq<LoanType>): set<string>
  {
    set t | t in types :: t.loanName
  }

  /** The rows seed_default_loan_types inserts for products, given the names existing before
      the loop, numbered from nextId. */
  function SeedRows(existing: set<string>, products: seq<Product>, nextId: nat): seq<LoanType>
  {
    if products == [] then []
    else
      var rows := SeedRows(existing, products[..|products| - 1], nextId);
      var p := products[|products| - 1];
      if p.name in existing then rows
      else rows + [LoanType(nextId + |rows|, p.name, p.interestRate, p.durationMonths, 1)]
  }

  /** Seeding inserts only products whose names were absent, as active rows with the product's
      rate and term, numbered consecutively; and every product's name is present afterwards. */
  lemma {:induction false} SeedRowsShape(existing: set<string>, products: seq<Product>, nextId: nat)
    ensures |SeedRows(existing, products, nextId)| <= |products|
    ensures forall i :: 0 <= i < |SeedRows(existing, products, nextId)| ==>
              var t := SeedRows(existing, products, nextId)[i];
              t.id == nextId + i && t.active == 1 && t.loanName !in existing
              && Product(t.loanName, t.interestRate, t.durationMonths) in products
    ensures forall p :: p in products ==> p.name in existing || p.name in Names(SeedRows(existing, products, nextId))
  {
    if products != [] {
      var init := products[..|products| - 1];
      SeedRowsShape(existing, init, nextId);
      assert forall p :: p in init ==> p in products;
      assert products == init + [products[|products| - 1]];
    }
  }

  /** When every product's name already exists, seeding inserts nothing. */
  lemma {:induction false} SeedRowsNone(existing: set<string>, products: seq<Product>, nextId: nat)
    requires forall p :: p in products ==> p.name in existing
    ensures SeedRows(existing, products, nextId) == []
  {
    if products != [] {
      var init := products[..|products| - 1];
      assert forall p :: p in init ==> p in products;
      SeedRowsNone(existing, init, nextId);
    }
  }

  predicate DistinctNames(products: seq<Product>)
  {
    forall i, j :: 0 <= i < j < |products| ==> products[i].name != products[j].name
  }

  lemma DefaultNamesDistinct()
    ensures DistinctNames(DefaultProducts)
  {
  }

  /** Products with distinct names seed rows with distinct names. */
  lemma {:induction false} SeedRowsDistinct(existing: set<string>, products: seq<Product>, nextId: nat)
    requires DistinctNames(products)
    ensures forall i, j :: 0 <= i < j < |SeedRows(existing, products, nextId)| ==>
              SeedRows(existing, products, nextId)[i].loanName != SeedRows(existing, products, nextId)[j].loanName
  {
    if products != [] {
      var init := products[..|products| - 1];
      var p := products[|products| - 1];
      SeedRowsDistinct(existing, init, nextId);
      SeedRowsShape(existing, init, nextId);
      forall t | t in SeedRows(existing, init, nextId) ensures t.loanName != p.name {
        var q :| q in init && q.name == t.loanName;
        var k :| 0 <= k < |init| && init[k] == q;
        assert products[k] == q;
      }
    }
  }

  /** Seeding keeps LoanName unique and the ids increasing. */
  lemma SeedKeepsTypesOk(types: seq<LoanType>, next: nat)
    requires TypesOk(types, next)
    ensures TypesOk(types + SeedRows(Names(types), DefaultProducts, next), next + |SeedRows(Names(types), DefaultProducts, next)|)
  {
    var rows := SeedRows(Names(types), DefaultProducts, next);
    SeedRowsShape(Names(types), DefaultProducts, next);
    DefaultNamesDistinct();
    SeedRowsDistinct(Names(types), DefaultProducts, next);
    var all := types + rows;
    forall i, j | 0 <= i < j < |all| ensures all[i].id < all[j].id && all[i].loanName != all[j].loanName {
      if j >= |types| && i < |types| {
        assert all[i] in types;
        assert all[i].loanName in Names(types);
      }
    }
  }

  /** After seeding, every product's name is in the table. */
  lemma SeedCovers(types: seq<LoanType>, products: seq<Product>, next: nat)
    ensures forall p :: p in products ==> p.name in Names(types + SeedRows(Names(types), products, next))
  {
    var rows := SeedRows(Names(types), products, next);
    SeedRowsShape(Names(types), products, next);
    forall p | p in products ensures p.name in Names(types + rows) {
      if p.name in Names(types) {
        var t :| t in types && t.loanName == p.name;
        assert t in types + rows;
      } else {
        var t :| t in rows && t.loanName == p.name;
        assert t in types + rows;
      }
    }
  }

  /** Seeding twice inserts nothing the second time. */
  lemma SeedIdempotent(types: seq<LoanType>, next: nat, later: nat)
    ensures SeedRows(Names(types + SeedRows(Names(types), DefaultProducts, next)), DefaultProducts, later) == []
  {
    var rows := SeedRows(Names(types), DefaultProducts, next);
    SeedCovers(types, DefaultProducts, next);
    SeedRowsNone(Names(types + rows), DefaultProducts, later);
  }

  // ---------------------------------------------------------------- loan creation

  /** fetch_all(LoanTypesTbl, "LoanName=? AND Active=1")[0]: the first active row of that name. */
  function ActiveProduct(types: seq<LoanType>, name: string): (r: Option<LoanType>)
    ensures r.Some? ==> r.value in types && r.value.loanName == name && r.value.active == 1
    ensures r.None? ==> forall t :: t in types ==> !(t.loanName == name && t.active == 1)
  {
    if types == [] then None
    else if types[0].loanName == name && types[0].active == 1 then Some(types[0])
    else ActiveProduct(types[1..], name)
  }

  /** loan_data.get("LoanMethod", "Flat") */
  function MethodOf(req: LoanRequest): string
  {
    match req.loanMethod
    case Some(m) => m
    case None => "Flat"
  }

  /** The LoansTbl row create_loan inserts for req against product, given its assigned id. */
  function NewLoan(req: LoanRequest, product: LoanType, id: nat): (l: Loan)
    ensures l.id == id && l.approvalStatus == ApprovalStatus.Pending && l.disbursementDate.None?
    ensures l.interestRate == product.interestRate && l.durationMonths == product.durationMonths
    ensures var owed := req.loanAmount + TotalInterest(MethodOf(req), req.loanAmount, product.interestRate / 100.0,
                                                       product.durationMonths);
            -1.0 / 200.0 <= l.totalPayable - owed <= 1.0 / 200.0
  {
    var rate := product.interestRate / 100.0;
    Loan(id, req.memberId, req.loanType, req.loanAmount, product.interestRate, product.durationMonths,
         req.startDate, TotalPayable(MethodOf(req), req.loanAmount, rate, product.durationMonths),
         "Active", ApprovalStatus.Pending, None, MethodOf(req))
  }

  // ---------------------------------------------------------------- schedule

  /** The i-th row generate_schedule inserts: rounded components, nothing paid yet. */
  function ScheduleRow(loanId: nat, loanMethod: string, principal: real, rate: real, months: int,
                       start: int, firstId: nat, i: nat): ScheduleEntry
    requires months != 0
  {
    ScheduleEntry(firstId + i, loanId, DueDate(start, i),
                  Round2(MonthlyPrincipal(principal, months)),
                  Round2(InstalmentInterest(loanMethod, principal, rate, months, i)),
                  Round2(InstalmentDue(loanMethod, principal, rate, months, i)),
                  0.0, ScheduleStatus.Pending)
  }

  /** The row generate_schedule builds in iteration i from its running `remaining`. */
  lemma ScheduleRowFromLoop(loanId: nat, loanMethod: string, principal: real, rate: real, months: int,
                            start: int, firstId: nat, i: nat, remaining: real)
    requires months != 0 && remaining == Remaining(principal, months, i)
    ensures var monthly := principal / months as real;
            var interest := if IsFlat(loanMethod) then (principal * rate) / months as real else remaining * rate / 12.0;
            ScheduleRow(loanId, loanMethod, principal, rate, months, start, firstId, i)
            == ScheduleEntry(firstId + i, loanId, start + 30 * (i + 1), Round2(monthly), Round2(interest),
                             Round2(monthly + interest), 0.0, ScheduleStatus.Pending)
  {
    var monthly := MonthlyPrincipal(principal, months);
    var interest := InstalmentInterest(loanMethod, principal, rate, months, i);
    if IsFlat(loanMethod) {
      assert interest == (principal * rate) / months as real;
    } else {
      assert interest == remaining * rate / 12.0;
    }
    assert InstalmentDue(loanMethod, principal, rate, months, i) == monthly + interest;
    assert DueDate(start, i) == start + 30 * (i + 1);
  }

  /** All rows of a schedule of months instalments. */
  function ScheduleRows(loanId: nat, loanMethod: string, principal: real, rate: real, months: int,
                        start: int, firstId: nat): seq<ScheduleEntry>
    requires months > 0
  {
    seq(months, i requires 0 <= i < months => ScheduleRow(loanId, loanMethod, principal, rate, months, start, firstId, i))
  }

  /** A schedule has one row per month, all for its loan, due every 30 days after the start,
      unpaid, each asking its rounded principal plus rounded interest give or take a cent. */
  lemma ScheduleShape(loanId: nat, loanMethod: string, principal: real, rate: real, months: int, start: int, firstId: nat)
    requires months > 0
    ensures |ScheduleRows(loanId, loanMethod, principal, rate, months, start, firstId)| == months
    ensures forall i :: 0 <= i < months ==>
              var e := ScheduleRows(loanId, loanMethod, principal, rate, months, start, firstId)[i];
              e.loanId == loanId && e.id == firstId + i && e.dueDate == start + 30 * (i + 1)
              && e.amountPaid == 0.0 && e.status == ScheduleStatus.Pending
              && -0.01 <= e.amountDue - (e.principal + e.interest) <= 0.01
    ensures forall i, j :: 0 <= i < j < months ==>
              ScheduleRows(loanId, loanMethod, principal, rate, months, start, firstId)[i].dueDate
              < ScheduleRows(loanId, loanMethod, principal, rate, months, start, firstId)[j].dueDate
  {
    forall i | 0 <= i < months {
      RoundSplit(MonthlyPrincipal(principal, months), InstalmentInterest(loanMethod, principal, rate, months, i));
    }
  }

  function Principals(rows: seq<ScheduleEntry>): (r: seq<real>)
    ensures |r| == |rows|
  {
    if rows == [] then [] else [rows[0].principal] + Principals(rows[1..])
  }

  function Repeat(c: real, n: nat): (r: seq<real>)
    ensures |r| == n
  {
    if n == 0 then [] else [c] + Repeat(c, n - 1)
  }

  lemma {:induction false} RepeatSum(c: real, n: nat)
    ensures Sum(Repeat(c, n)) == n as real * c
  {
    if n > 0 {
      RepeatSum(c, n - 1);
    }
  }

  lemma {:induction false} PrincipalsOfRows(rows: seq<ScheduleEntry>, c: real)
    requires forall i :: 0 <= i < |rows| ==> rows[i].principal == Round2(c)
    ensures Principals(rows) == RoundAll(Repeat(c, |rows|))
  {
    if rows != [] {
      PrincipalsOfRows(rows[1..], c);
    }
  }

  /** n copies of c = principal / n, each rounded, add up to principal within half a cent each. */
  lemma RoundedSharesTolerance(principal: real, n: nat)
    requires n > 0
    ensures var xs := RoundAll(Repeat(principal / n as real, n));
            -(n as real) / 200.0 <= Sum(xs) - principal <= (n as real) / 200.0
  {
    var c := principal / n as real;
    var xs := Repeat(c, n);
    RoundedSumError(xs);
    RepeatSum(c, n);
    assert n as real * c == principal;
  }

  /** The stored (rounded) principals add up to the loan principal within half a cent per row. */
  lemma SchedulePrincipalTolerance(loanId: nat, loanMethod: string, principal: real, rate: real, months: int, start: int, firstId: nat)
    requires months > 0
    ensures -(months as real) / 200.0
         <= Sum(Principals(ScheduleRows(loanId, loanMethod, principal, rate, months, start, firstId))) - principal
         <= (months as real) / 200.0
  {
    var rows := ScheduleRows(loanId, loanMethod, principal, rate, months, start, firstId);
    var c := MonthlyPrincipal(principal, months);
    assert forall i :: 0 <= i < |rows| ==> rows[i].principal == Round2(c);
    PrincipalsOfRows(rows, c);
    RoundedSharesTolerance(principal, months);
  }

  // ---------------------------------------------------------------- approval

  /** UPDATE LoansTbl SET ApprovalStatus = status WHERE LoanID = id. */
  function WithApproval(loans: seq<Loan>, id: int, status: ApprovalStatus): (r: seq<Loan>)
    ensures |r| == |loans|
    ensures forall i :: 0 <= i < |loans| ==> r[i].(approvalStatus := loans[i].approvalStatus) == loans[i]
    ensures forall i :: 0 <= i < |loans| ==>
              (loans[i].id == id ==> r[i].approvalStatus == status) && (loans[i].id != id ==> r[i] == loans[i])
  {
    seq(|loans|, i requires 0 <= i < |loans| =>
      if loans[i].id == id then loans[i].(approvalStatus := status) else loans[i])
  }

  /** UPDATE LoansTbl SET ApprovalStatus = 'Disbursed', DisbursementDate = today WHERE LoanID = id. */
  function WithDisbursement(loans: seq<Loan>, id: int, today: int): (r: seq<Loan>)
    ensures |r| == |loans|
    ensures forall i :: 0 <= i < |loans| ==>
              r[i].(approvalStatus := loans[i].approvalStatus, disbursementDate := loans[i].disbursementDate) == loans[i]
    ensures forall i :: 0 <= i < |loans| ==>
              (loans[i].id == id ==> r[i].approvalStatus == Disbursed && r[i].disbursementDate == Some(today))
              && (loans[i].id != id ==> r[i] == loans[i])
  {
    seq(|loans|, i requires 0 <= i < |loans| =>
      if loans[i].id == id then loans[i].(approvalStatus := Disbursed, disbursementDate := Some(today)) else loans[i])
  }

  /** Approving overwrites whatever state the loan was in: a disbursed loan goes back to Approved. */
  lemma ApprovalCanRegress(loans: seq<Loan>, k: nat)
    requires k < |loans| && loans[k].approvalStatus == Disbursed
    ensures WithApproval(loans, loans[k].id, Approved)[k].approvalStatus == Approved
    ensures WithDisbursement(WithApproval(loans, loans[k].id, Approved), loans[k].id, 0)[k].approvalStatus == Disbursed
  {
  }

  // ---------------------------------------------------------------- payments

  /** fetch_all(LoanRepaymentScheduleTbl, "ScheduleID=?"): the index of the first row with that id. */
  function FindSchedule(rows: seq<ScheduleEntry>, id: int): (r: Option<nat>)
    ensures r.Some? ==> r.value < |rows| && rows[r.value].id == id
                        && forall j :: 0 <= j < r.value ==> rows[j].id != id
    ensures r.None? ==> forall j :: 0 <= j < |rows| ==> rows[j].id != id
  {
    if rows == [] then None
    else if rows[0].id == id then Some(0)
    else match FindSchedule(rows[1..], id)
      case Some(k) => Some(k + 1)
      case None => None
  }

  /** "Paid" if paid >= row["AmountDue"] else "Partial": a payment never leaves a row Pending. */
  function PaymentStatus(paid: real, amountDue: real): (s: ScheduleStatus)
    ensures s == Paid <==> paid >= amountDue
    ensures s != ScheduleStatus.Pending
  {
    if paid >= amountDue then Paid else Partial
  }

  /** UPDATE LoanRepaymentScheduleTbl SET AmountPaid = paid, Status = status WHERE ScheduleID = id. */
  function WithPayment(rows: seq<ScheduleEntry>, id: int, paid: real, status: ScheduleStatus): (r: seq<ScheduleEntry>)
    ensures |r| == |rows|
    ensures forall i :: 0 <= i < |rows| ==> r[i].(amountPaid := rows[i].amountPaid, status := rows[i].status) == rows[i]
    ensures forall i :: 0 <= i < |rows| ==>
              (rows[i].id == id ==> r[i].amountPaid == paid && r[i].status == status)
              && (rows[i].id != id ==> r[i] == rows[i])
  {
    seq(|rows|, i requires 0 <= i < |rows| =>
      if rows[i].id == id then rows[i].(amountPaid := paid, status := status) else rows[i])
  }

  /** The two ledger rows of a repayment: Cash debited and Loan Receivable credited by amount. */
  function PaymentEntries(firstId: nat, today: int, amount: real, scheduleId: nat): seq<LedgerEntry>
  {
    var description := "Loan repayment Schedule " + Decimal.ToDecimal(scheduleId);
    [LedgerEntry(firstId, today, "Cash", amount, 0.0, description),
     LedgerEntry(firstId + 1, today, "Loan Receivable", 0.0, amount, description)]
  }

  function TotalDebit(entries: seq<LedgerEntry>): real
  {
    if entries == [] then 0.0 else entries[0].debit + TotalDebit(entries[1..])
  }

  function TotalCredit(entries: seq<LedgerEntry>): real
  {
    if entries == [] then 0.0 else entries[0].credit + TotalCredit(entries[1..])
  }

  lemma {:induction false} TotalsAppend(a: seq<LedgerEntry>, b: seq<LedgerEntry>)
    ensures TotalDebit(a + b) == TotalDebit(a) + TotalDebit(b)
    ensures TotalCredit(a + b) == TotalCredit(a) + TotalCredit(b)
  {
    if a == [] {
      assert a + b == b;
    } else {
      assert (a + b)[1..] == a[1..] + b;
      TotalsAppend(a[1..], b);
    }
  }

  /** Posting a repayment adds equal debits and credits, so a balanced ledger stays balanced. */
  lemma PaymentKeepsLedgerBalance(entries: seq<LedgerEntry>, firstId: nat, today: int, amount: real, scheduleId: nat)
    ensures TotalDebit(PaymentEntries(firstId, today, amount, scheduleId)) == amount
    ensures TotalCredit(PaymentEntries(firstId, today, amount, scheduleId)) == amount
    ensures TotalDebit(entries + PaymentEntries(firstId, today, amount, scheduleId))
            - TotalCredit(entries + PaymentEntries(firstId, today, amount, scheduleId))
         == TotalDebit(entries) - TotalCredit(entries)
  {
    var p := PaymentEntries(firstId, today, amount, scheduleId);
    var tail := p[1..];
    assert tail[1..] == [];
    assert TotalDebit(tail) == 0.0 && TotalCredit(tail) == amount;
    assert TotalDebit(p) == amount + TotalDebit(tail);
    assert TotalCredit(p) == 0.0 + TotalCredit(tail);
    TotalsAppend(entries, p);
  }

  // ---------------------------------------------------------------- balance and arrears

  function Outstanding(e: ScheduleEntry): real { e.amountDue - e.amountPaid }

  predicate InArrears(e: ScheduleEntry, today: int)
  {
    e.dueDate < today && e.amountPaid < e.amountDue
  }

  /** sum(AmountDue - AmountPaid for the loan's rows) */
  function Balance(rows: seq<ScheduleEntry>, loanId: int): real
  {
    if rows == [] then 0.0
    else (if rows[0].loanId == loanId then Outstanding(rows[0]) else 0.0) + Balance(rows[1..], loanId)
  }

  /** The same sum over the loan's rows that are past due and not fully paid. */
  function Arrears(rows: seq<ScheduleEntry>, loanId: int, today: int): real
  {
    if rows == [] then 0.0
    else (if rows[0].loanId == loanId && InArrears(rows[0], today) then Outstanding(rows[0]) else 0.0)
         + Arrears(rows[1..], loanId, today)
  }

  lemma {:induction false} ArrearsNonNegative(rows: seq<ScheduleEntry>, loanId: int, today: int)
    ensures Arrears(rows, loanId, today) >= 0.0
  {
    if rows != [] {
      ArrearsNonNegative(rows[1..], loanId, today);
    }
  }

  /** Without overpaid rows, what is in arrears is part of what is outstanding. */
  lemma {:induction false} ArrearsAtMostBalance(rows: seq<ScheduleEntry>, loanId: int, today: int)
    requires forall i :: 0 <= i < |rows| && rows[i].loanId == loanId ==> rows[i].amountPaid <= rows[i].amountDue
    ensures Arrears(rows, loanId, today) <= Balance(rows, loanId)
  {
    if rows != [] {
      ArrearsAtMostBalance(rows[1..], loanId, today);
    }
  }

  /** A loan none of whose rows is due before today has no arrears, however much is unpaid. */
  lemma {:induction false} NothingDueNoArrears(rows: seq<ScheduleEntry>, loanId: int, today: int)
    requires forall i :: 0 <= i < |rows| && rows[i].loanId == loanId ==> rows[i].dueDate >= today
    ensures Arrears(rows, loanId, today) == 0.0
  {
    if rows != [] {
      NothingDueNoArrears(rows[1..], loanId, today);
    }
  }

  /** A payment on one row of a loan lowers that loan's balance by the amount paid and leaves
      every other loan's balance alone (schedule ids being unique). */
  lemma {:induction false} PaymentLowersBalance(rows: seq<ScheduleEntry>, k: nat, amount: real, status: ScheduleStatus, loanId: int)
    requires k < |rows|
    requires forall i, j :: 0 <= i < j < |rows| ==> rows[i].id != rows[j].id
    ensures Balance(WithPayment(rows, rows[k].id, rows[k].amountPaid + amount, status), loanId)
         == Balance(rows, loanId) - (if rows[k].loanId == loanId then amount else 0.0)
  {
    var after := WithPayment(rows, rows[k].id, rows[k].amountPaid + amount, status);
    if k == 0 {
      assert forall j :: 0 < j < |rows| ==> rows[j].id != rows[0].id;
      assert after[1..] == rows[1..];
    } else {
      PaymentLowersBalance(rows[1..], k - 1, amount, status, loanId);
      assert after[1..] == WithPayment(rows[1..], rows[k].id, rows[k].amountPaid + amount, status);
      assert rows[0].id != rows[k].id;
    }
  }
}
