# SACCO loan engine — a Dafny model

This project models the core of a desktop record-keeping application for a savings and credit
cooperative (SACCO). The core is the loans module. It covers:

- seeding the default loan products;
- creating a loan against an active product, with flat or reducing-balance interest;
- generating the repayment schedule on fixed 30-day periods;
- the permission-gated approval and disbursement updates;
- posting a repayment to the schedule and two balanced ledger rows;
- the balance and arrears query.

The model also covers the small pure helpers of `utils.py` (user-name and password validation,
`chunk_list`, `safe_get`), and member-id generation and member insertion from `modules/members.py`.

Modules:

- `LoanTables` (loan_tables.dfy): the rows of the four loan tables as datatypes. It also holds the
  functions that say what seeding, creation, schedule generation, approval, payment and the
  balance query do to those rows, and the lemmas about them.
- `Loans` (loans.dfy): class `LoansModule`. It holds the four tables as `seq` fields with their
  AUTOINCREMENT counters. Its methods update the tables in place as the source's methods do. Each
  method's `ensures` gives the whole new state in terms of the `LoanTables` functions.
- `Amortization` (amortization.dfy): the interest and instalment arithmetic on exact reals. This
  includes the closed form of the reducing-balance interest and how the schedule's totals relate
  to the loan's total payable.
- `Money` (money.dfy): `round(x, 2)` as rounding half to even on the exact value, and sums.
- `Utils` (utils.py helpers), `Members` (members.py), `Decimal` (ASCII character classes and
  decimal text of naturals), `Wrappers` (`Option`, `Result`, `Outcome`, and the `Error` values
  that stand for the source's message boxes and exceptions).

Conventions:

- Money is `real`. Dates are day numbers. "Today" is a parameter.
- The permission dictionaries are `map<string, bool>`, read with `SafeGet` as `dict.get(key, 0)` reads them.
- Storage is in memory. Each `INSERT` appends a row with the next id. Each `UPDATE ... WHERE id = ?`
  rewrites the matching rows. `fetch_all(...)[0]` is the first matching row in table order.

Where the code departs from the workflow its docstrings advertise (Pending, then Approved, then
Disbursed; modules/loans.py:15), or from what its names suggest, the model follows the code:

- `approve_loan` overwrites the status, so a disbursed loan can be set back to Approved
  (`LoanTables.ApprovalCanRegress`).
- `disburse_loan` does not check for prior approval.
- A payment always sets the status to Paid or Partial. A zero payment gives Partial, never Pending
  (`LoanTables.PaymentStatus`).
- The flat schedule charges `principal * rate` in interest. The loan's total charges
  `principal * rate * months / 12`. These agree only for a 12-month term, or when nothing is charged
  (`Amortization.FlatAgreesIff`, `Amortization.FlatScheduleTotalIff`).
- Loan creation is not atomic. The loan row is committed before the schedule is generated, so a
  zero-month product leaves a loan without a schedule (`Loans.LoansModule.CreateLoan`).
- A method name other than exactly "Flat" takes the reducing-balance branch.

## Model

| member | source | states |
|---|---|---|
| `Loans.LoansModule.constructor` | modules/loans.py:24-27 | opening the module over existing tables keeps every row and adds the seeded default products, with the LoanTypes id counter moved on by the number of rows seeded and every other counter unchanged |
| `Loans.LoansModule.SeedDefaultLoanTypes` | modules/loans.py:92-112 | existing product rows are kept unchanged; only the seed rows are appended; afterwards every default name is present; names stay unique |
| `LoanTables.SeedRows` | modules/loans.py:103-112 | definition: the rows the seeding loop inserts, in product order, skipping names present before the loop, numbered from the next id; its properties are the `SeedRows*` and `SeedIdempotent` lemmas |
| `LoanTables.SeedRowsShape` | modules/loans.py:103-112 | each seeded row is active, numbered consecutively, carries a default product's name, rate and term, and has a name that was absent; every default name is present afterwards |
| `LoanTables.SeedRowsNone` | modules/loans.py:105-106 | when every default name already exists, seeding inserts nothing |
| `LoanTables.SeedRowsDistinct` | modules/loans.py:93-112 | defaults with distinct names give seed rows with distinct names |
| `LoanTables.SeedKeepsTypesOk` | modules/loans.py:103-112 | seeding preserves the UNIQUE LoanName constraint and increasing ids |
| `LoanTables.SeedCovers` | modules/loans.py:103-112 | after seeding any product list, every product's name is in the table, either because it was there or because it was inserted |
| `LoanTables.SeedIdempotent` | modules/loans.py:103-112 | a second seeding run inserts nothing |
| `LoanTables.ActiveProduct` | modules/loans.py:129-138 | the lookup returns a row of that name with Active = 1 from the table; it returns None exactly when no such row exists |
| `LoanTables.MethodOf` | modules/loans.py:127 | definition: the request's LoanMethod, or "Flat" when the key is absent |
| `LoanTables.NewLoan` | modules/loans.py:153-163 | the inserted loan row has the assigned id, is Pending with no disbursement date, copies the product's percentage rate and term, and its TotalPayable is within half a cent of principal plus the method's total interest |
| `Loans.LoansModule.InsertLoan` | modules/loans.py:127-163 | an absent or inactive type inserts nothing and fails with InvalidLoanType; otherwise exactly one Pending loan row is appended, with the product's rate and term and the rounded total payable |
| `Loans.LoansModule.CreateLoan` | modules/loans.py:117-168 | an absent or inactive type inserts no loan and no schedule; otherwise one Pending loan, copying rate and term, plus its full schedule for the new id; a zero term fails with ZeroDivision after the loan row is stored |
| `Loans.LoansModule.CreateLoanAsWritten` | modules/loans.py:153-168 | as the source is written: the loan row is stored but no schedule row is, and for a positive term the call fails on the NOT NULL LoanID |
| `Loans.OrphanLoanExample` | modules/loans.py:153-168 | a concrete "Major" application, made as the source is written, leaves one loan row and zero schedule rows |
| `Loans.ScheduledLoanExample` | modules/loans.py:153-199 | the same application with the id passed on stores one loan and 24 schedule rows |
| `Loans.LoansModule.GenerateSchedule` | modules/loans.py:179-201 | for a positive term and a loan id, exactly one row per month is appended for that loan, as given by `ScheduleRows`; a zero term divides by zero; a NULL id fails on the first insert; a negative term inserts nothing |
| `LoanTables.ScheduleRow` | modules/loans.py:193-199 | definition: the i-th inserted schedule row, with the rounded monthly principal, interest and amount due, due on day start + 30(i+1), unpaid; `ScheduleRowFromLoop` ties it to the loop |
| `LoanTables.ScheduleRows` | modules/loans.py:184-199 | definition: the rows of all `months` iterations; their shape is `ScheduleShape` |
| `Loans.LoansModule.InsertScheduleRow` | modules/loans.py:193-199 | a schedule insert appends one unpaid, Pending row with rounded components, or fails on a NULL LoanID (NOT NULL at line 66) |
| `LoanTables.ScheduleRowFromLoop` | modules/loans.py:184-199 | the row built in iteration i from the loop's `remaining` is the i-th row of the specified schedule |
| `LoanTables.ScheduleShape` | modules/loans.py:184-199 | a schedule has `months` rows, all for `loan_id`: row i is due on start + 30(i+1), so due dates strictly increase; every row is unpaid and Pending; each AmountDue is within one cent of its Principal plus its Interest |
| `LoanTables.SchedulePrincipalTolerance` | modules/loans.py:181-196 | the stored (rounded) principals add up to the loan principal within half a cent per instalment |
| `LoanTables.RoundedSharesTolerance` | modules/loans.py:181-196 | splitting a principal into n equal shares and rounding each share to cents loses at most half a cent per share |
| `Amortization.FlatInterest` | modules/loans.py:144 | flat interest is principal * rate * months / 12 with true division: a 12-month term charges exactly principal * rate, a zero term nothing |
| `Amortization.ReduceTerm` | modules/loans.py:146-149 | the i-th term of the reducing-balance sum: the first month charges a month's rate on the full principal, and month `months` would charge nothing |
| `Amortization.ReduceInterestUpTo` | modules/loans.py:146-149 | definition: the sum of the first k terms; its closed form is `ReduceInterestUpToClosed` |
| `Amortization.ReduceInterest` | modules/loans.py:146-149 | definition: the sum over range(months), 0 for a term of zero or less; its closed form is `ReduceInterestClosed` |
| `Amortization.TotalInterest` | modules/loans.py:143-149 | definition: flat interest for exactly "Flat", the reducing-balance sum for every other method name; compared with the schedule by `FlatAgreesIff` and `ReduceScheduleMatchesLoan` |
| `Amortization.MonthlyPrincipal` | modules/loans.py:181 | definition: principal / months; its shares sum back to the principal by `PrincipalsSum` |
| `Amortization.Remaining` | modules/loans.py:182-201 | definition: `remaining` after i subtractions of the monthly principal; its closed form is `RemainingClosed` |
| `Amortization.InstalmentInterest` | modules/loans.py:185-188 | definition: principal * rate / months for "Flat", else the remaining balance at rate / 12; summed by `ScheduleInterest` |
| `Amortization.InstalmentDue` | modules/loans.py:190 | definition: the monthly principal plus the interest; split back by `ScheduleDueSplit` |
| `Amortization.ScheduleDueSplit` | modules/loans.py:190 | what the first k instalments ask for is their principals plus their interest |
| `Amortization.DueDate` | modules/loans.py:191 | every due date falls after the start date |
| `Amortization.TotalPayable` | modules/loans.py:143-160 | TotalPayable is principal plus the method's total interest, to within half a cent of rounding |
| `Amortization.ReduceInterestClosed` | modules/loans.py:146-149 | the reducing-balance interest sum equals principal * rate * (months + 1) / 24 |
| `Amortization.ReduceInterestUpToClosed` | modules/loans.py:146-149 | the first k terms of the reducing-balance sum equal k principals less 0 + 1 + ... + (k-1) monthly principals, times rate / 12 |
| `Amortization.RemainingClosed` | modules/loans.py:182-201 | after i iterations `remaining` is principal less i monthly principals |
| `Amortization.FullyAmortised` | modules/loans.py:181-201 | after the last instalment `remaining` is 0 |
| `Amortization.PrincipalsSum` | modules/loans.py:181-196 | the unrounded monthly principals sum to the principal |
| `Amortization.ReduceScheduleMatchesLoan` | modules/loans.py:146-188 | the reducing-balance schedule's unrounded interest equals the interest `create_loan` adds to TotalPayable |
| `Amortization.ReduceScheduleTotal` | modules/loans.py:146-190 | the reducing-balance schedule's unrounded amounts due sum to principal plus total interest |
| `Amortization.FlatScheduleInterest` | modules/loans.py:184-186 | the flat schedule's unrounded interest sums to principal * rate |
| `Amortization.FlatAgreesIff` | modules/loans.py:144-186 | the flat loan interest equals the flat schedule interest if and only if the term is 12 months or principal * rate is 0 |
| `Amortization.FlatScheduleTotalIff` | modules/loans.py:143-190 | the flat schedule's unrounded amounts due sum to principal plus total interest if and only if the term is 12 months or principal * rate is 0 |
| `Amortization.RoundSplit` | modules/loans.py:190-198 | rounding the amount due differs by at most one cent from rounding principal and interest separately |
| `Amortization.FlatTwelveMonthExample` | modules/loans.py:143-199 | 12000 at 10% over 12 months, flat: TotalPayable 13200, and each instalment is 1000.00 + 100.00 = 1100.00 |
| `Money.RoundHalfEven` | modules/loans.py:160 | the cent count chosen is within half a unit of the exact value and is exact when the value is already whole |
| `Money.Round2` | modules/loans.py:160 | round(x, 2) is a whole number of cents within half a cent of x |
| `Money.RoundWholeCents` | modules/loans.py:196-198 | an amount already in whole cents is stored unchanged |
| `Money.RoundedSumError` | modules/loans.py:196 | a sum of rounded amounts is within half a cent per term of the exact sum |
| `Loans.LoansModule.ApproveLoan` | modules/loans.py:206-212 | without the Approve permission nothing changes and the call fails with PermissionDenied; with it, only the rows with this LoanID change, to Approved, whatever their prior status |
| `Loans.LoansModule.DisburseLoan` | modules/loans.py:214-221 | without the Disburse permission nothing changes; with it, only the rows with this LoanID change, to Disbursed with DisbursementDate = today, approved or not |
| `LoanTables.ApprovalCanRegress` | modules/loans.py:210-221 | approving a disbursed loan sets it back to Approved, and disbursing sets it to Disbursed again |
| `Utils.SafeGet` | utils.py:127-129 | the stored value when the key is present, otherwise the default |
| `LoanTables.WithApproval` | modules/loans.py:210-212 | the rows keep their number and order; only the ApprovalStatus column of rows with that LoanID changes, to the given status; other rows are unchanged |
| `LoanTables.WithDisbursement` | modules/loans.py:218-221 | only the ApprovalStatus and DisbursementDate columns of rows with that LoanID change, to Disbursed and today; other rows are unchanged |
| `LoanTables.FindSchedule` | modules/loans.py:227-229 | the index of the first row with that ScheduleID, or None exactly when no row has it |
| `LoanTables.PaymentStatus` | modules/loans.py:231-232 | the status is Paid if and only if the new paid amount reaches AmountDue, and otherwise Partial; it is never Pending |
| `LoanTables.WithPayment` | modules/loans.py:234-237 | only the AmountPaid and Status columns of rows with that ScheduleID change, to the given values; other rows are unchanged |
| `Loans.LoansModule.RecordPayment` | modules/loans.py:226-253 | an absent schedule id fails with NotFound and changes nothing; otherwise AmountPaid becomes old + amount, the status is computed from it, and no other row changes; exactly two ledger rows are appended (Cash debit, Loan Receivable credit) |
| `LoanTables.PaymentEntries` | modules/loans.py:239-253 | definition: a Cash debit row and a Loan Receivable credit row of the amount, dated today, described by the schedule id; balance in `PaymentKeepsLedgerBalance` |
| `LoanTables.PaymentKeepsLedgerBalance` | modules/loans.py:239-253 | the two posted rows debit and credit the same amount, so debits minus credits is unchanged |
| `LoanTables.PaymentLowersBalance` | modules/loans.py:231-260 | a payment lowers its loan's balance by exactly the amount paid and leaves every other loan's balance unchanged |
| `LoanTables.Balance` | modules/loans.py:260 | definition: the sum of AmountDue - AmountPaid over the loan's rows; changed by a payment as `PaymentLowersBalance` says |
| `LoanTables.Arrears` | modules/loans.py:261-266 | definition: the same sum restricted to rows due before today and paid less than due; bounded by the `Arrears*` lemmas |
| `Loans.LoansModule.GetLoanBalance` | modules/loans.py:258-267 | a read-only query; arrears are at least 0, and at most the balance when no row of the loan is overpaid |
| `LoanTables.ArrearsNonNegative` | modules/loans.py:261-266 | arrears only add shortfalls of rows paid less than due, so they are at least 0 |
| `LoanTables.ArrearsAtMostBalance` | modules/loans.py:258-267 | without overpaid rows, arrears never exceed the balance |
| `LoanTables.NothingDueNoArrears` | modules/loans.py:261-266 | rows not yet due are excluded even if unpaid: a loan with nothing due before today has no arrears |
| `Utils.Any` | utils.py:46-47 | definition: the `any(...)` generator, left to right; characterised by `AnyIff` |
| `Utils.StrIsAlnum` | utils.py:39 | definition: `str.isalnum()`, false on the empty string; characterised through `AnyIff` |
| `Utils.IsValidUsername` | utils.py:38-39 | definition: alphanumeric and 3 to 20 characters long; characterised by `UsernameIff` |
| `Utils.UsernameIff` | utils.py:38-39 | a user name is valid if and only if it has 3 to 20 characters and all of them are alphanumeric |
| `Utils.IsValidPassword` | utils.py:42-45 | a password shorter than 6 characters is always rejected |
| `Utils.PasswordIff` | utils.py:42-48 | a password is valid if and only if it has at least 6 characters, contains a letter and contains a digit |
| `Utils.AnyIff` | utils.py:46-47 | the `any(...)` generator holds if and only if some character satisfies the test |
| `Utils.ChunkList` | utils.py:122-124 | a zero chunk size fails (the zero range step), a negative one gives no chunks |
| `Utils.Chunks` | utils.py:124 | the number of chunks is ceil(len / n) |
| `Utils.ChunksFlatten` | utils.py:122-124 | for n > 0, concatenating the chunks gives back the list |
| `Utils.ChunkSizes` | utils.py:124 | for n > 0 every chunk is non-empty and at most n long, and every chunk but the last is exactly n long |
| `Utils.ChunksUnfold` | utils.py:124 | the chunks are a first chunk of min(n, len) elements followed by the chunks of the rest |
| `Members.IdNumber` | modules/members.py:76 | definition: the number `int(mid.replace("NFC", ""))` gives, or None where the loop skips the id; generated ids parse back by `MemberIdNumber` |
| `Members.MaxNumber` | modules/members.py:73-79 | definition: `max_id` after the loop; bounded by `MaxNumberBounds` and attained by `MaxNumberAttained` |
| `Members.MaxNumberAttained` | modules/members.py:73-79 | the loop's maximum is 0 or the parsed number of one of the ids |
| `Members.MemberIdFor` | modules/members.py:81 | definition: "NFC" followed by the number zero-padded to 3 digits; see `FirstMemberId` and `MemberIdNumber` |
| `Members.InsertError` | modules/members.py:16-41 | definition: why sqlite refuses the insert at line 39, if it does: an unknown column, a missing NOT NULL FirstName or LastName, or a duplicate MemberID primary key; used by `AddMember` |
| `Members.ExistingIds` | modules/members.py:72 | the collected ids are exactly the non-empty MemberIDs of the members: each is some member's MemberID and not empty, and every member's non-empty MemberID is among them |
| `Members.RemoveAll` | modules/members.py:76 | removing "NFC" never lengthens the id |
| `Members.RemoveAllPrefix` | modules/members.py:76 | a leading "NFC" is deleted and the rest is processed as if it stood alone |
| `Members.RemoveAllNoMatch` | modules/members.py:76 | text without the pattern's first character is returned unchanged, so the digits of a generated id survive |
| `Members.MaxNumberStep` | modules/members.py:75-79 | one iteration of the loop raises the maximum to the next id's number when that parses and is larger, and otherwise keeps it |
| `Members.MaxNumberBounds` | modules/members.py:73-79 | every parsed id number is at most the loop's maximum |
| `Members.SkippedIdIgnored` | modules/members.py:75-80 | an id whose remainder does not parse leaves the maximum unchanged |
| `Members.NoParsedIds` | modules/members.py:73-81 | with no parseable id, the maximum stays 0 |
| `Members.FirstMemberId` | modules/members.py:81 | the id for number 1 is "NFC001" |
| `Members.MemberIdNumber` | modules/members.py:76-81 | a generated id parses back to its own number |
| `Members.Freshness` | modules/members.py:72-81 | the id built from the maximum plus one equals no existing member's MemberID |
| `Members.MembersModule.constructor` | modules/members.py:9-11 | opening the module over an existing member table keeps its rows as they are; creating the table is left out |
| `Members.MembersModule.GenerateMemberId` | modules/members.py:69-81 | the result is "NFC" followed by max(0, largest parsed number) + 1, zero-padded to at least 3 digits; it differs from every existing MemberID |
| `Members.MembersModule.AddMember` | modules/members.py:34-41 | an id is generated only when the MemberID key is absent, and a supplied one is kept; a generated id never hits the primary-key constraint; the row is stored exactly when the insert is accepted |
| `Decimal.ParseNat` | modules/members.py:76 | definition: `int(...)` on a non-empty string of ASCII digits, None otherwise; round trips proved by `ToDecimalRoundTrip` and `ZeroPadValue` |
| `Decimal.ZeroPad` | modules/members.py:81 | `{n:03d}`-style padding gives at least w characters, all digits |
| `Decimal.ToDecimalRoundTrip` | modules/members.py:76-81 | parsing the decimal text of n gives back n |
| `Decimal.LeadingZerosValue` | modules/members.py:81 | leading zeros do not change the value of a digit string |
| `Decimal.ZeroPadValue` | modules/members.py:81 | zero padding to width w gives at least w digits that parse back to n |

## Left out

- Table creation (`ensure_tables`), the admin and form openers, and the message boxes. Failures
  are returned as values instead of shown.
- SQLite itself: connections, SQL text, commits and rollback. Each insert is an append that is
  never rolled back, which is how the source's per-statement commits behave.
- The row order of `fetch_all` without ORDER BY is taken to be table order.
- IEEE floating point: money is exact `real`. `Money.Round2` rounds the exact value half to even,
  not the nearest binary float.
- Dates are day numbers. `date.today()` is a parameter. Malformed ISO date strings, for which
  `date.fromisoformat` would raise, are not modelled. Comparing ISO strings is modelled as
  comparing day numbers, which orders dates the same way.
- `Loans.LoansModule.RecordPayment`, `Loans.LoansModule.GetLoanBalance`: each reads one `today` for the
  whole call. The source calls `date.today()` separately for the Cash row and the Loan Receivable row of
  the ledger, and once per schedule row in the arrears sum (modules/loans.py:240, 248, 264). The two differ only for a
  call that spans midnight.
- The `float(...)` and `int(...)` conversions of the loan request and product, and the KeyError
  for a missing request key. The request is a typed record, and an absent LoanMethod is an `Option`.
- `IdNumber`: Python's `int()` also accepts signs, surrounding whitespace, underscores and
  non-ASCII digits. The model accepts only non-empty strings of ASCII digits.
- Character classes are ASCII only. Python's `isalnum`, `isalpha` and `isdigit` also accept other
  Unicode letters and digits.
- `Members.InsertError`: SQLite types and values that are None in the member dictionary are not
  modelled. Only unknown columns, absent FirstName or LastName, and a duplicate MemberID are rejected.
- `Members.InsertError`: column names are matched exactly. SQLite matches them without regard to
  case, and also accepts quoted forms such as `[FirstName]`. So the source stores a row with a key
  such as `firstname` that the model refuses as an unknown column. A key such as `memberid` would,
  in the source, also get a generated MemberID and name that column twice; the model refuses it
  before the id is generated.
- `Utils.SafeGet`: the default has no default value. The call without one, `safe_get(d, key)`, is
  `SafeGet(d, key, None)` over `Option` values, and none of the files modelled here calls it.
- `ReduceScheduleTotal`, `FlatScheduleTotalIff`: these relate the unrounded instalments to the
  unrounded total. The stored rounded amounts are only bounded: per row by `ScheduleShape`, and in
  their principal sum by `SchedulePrincipalTolerance`.
- Everything outside the core: the database manager, login, password reset hashing, the
  dashboard, reports and export, stations, and member edit/delete and forms.

## Findings

| source | as written | input that shows it | evidently intended | confidence | as-written member | corrected member |
|---|---|---|---|---|---|---|
| modules/loans.py:153-168 | the id of the new loan is taken from `DBManager.insert` (db_manager.py:82-89), which returns nothing; the schedule is then generated for LoanID None, and the NOT NULL LoanID column (loans.py:66) rejects its first row after the loan row was committed | applying for an active product with a positive term, e.g. "Major" (24 months) for 12000 (`Loans.OrphanLoanExample`) | the new row's id is passed on, so each loan gets its full schedule (`Loans.ScheduledLoanExample`) | not executed; high | `Loans.LoansModule.CreateLoanAsWritten` | `Loans.LoansModule.CreateLoan` |
