/** The interest and instalment arithmetic of modules/loans.py, on exact reals.
    rate is always the product's percentage divided by 100, as create_loan passes it. */
module Amortization {

  import opened Money

  /** create_loan and generate_schedule take the flat branch only for the exact text "Flat";
      every other method name takes the reducing-balance branch. */
  predicate IsFlat(loanMethod: string) { loanMethod == "Flat" }

  // ---------------------------------------------------------------- create_loan

  /** principal * rate * (months / 12), with true division. */
  function FlatInterest(principal: real, rate: real, months: int): (r: real)
    ensures months == 12 ==> r == principal * rate
    ensures months == 0 ==> r == 0.0
  {
    principal * rate * (months as real / 12.0)
  }

  /** The i-th term of the reducing-balance sum: interest on the principal outstanding
      before instalment i. */
  function ReduceTerm(principal: real, rate: real, months: int, i: nat): (r: real)
    requires months > 0
    ensures i == 0 ==> r == principal * rate / 12.0
    ensures i == months ==> r == 0.0
  {
    var m := principal / months as real;
    assert m * months as real == principal;
    (principal - m * i as real) * rate / 12.0
  }

  /** The first k terms of the reducing-balance sum. */
  function ReduceInterestUpTo(principal: real, rate: real, months: int, k: nat): real
    requires months > 0
  {
    if k == 0 then 0.0
    else ReduceInterestUpTo(principal, rate, months, k - 1) + ReduceTerm(principal, rate, months, k - 1)
  }

  /** sum(... for i in range(months)): an empty range for months <= 0 sums to 0. */
  function ReduceInterest(principal: real, rate: real, months: int): real
  {
    if months <= 0 then 0.0 else ReduceInterestUpTo(principal, rate, months, months)
  }

  function TotalInterest(loanMethod: string, principal: real, rate: real, months: int): real
  {
    if IsFlat(loanMethod) then FlatInterest(principal, rate, months)
    else ReduceInterest(principal, rate, months)
  }

  /** The TotalPayable the loan row stores: round(principal + total_interest, 2). */
  function TotalPayable(loanMethod: string, principal: real, rate: real, months: int): (t: real)
    ensures -1.0 / 200.0 <= t - (principal + TotalInterest(loanMethod, principal, rate, months)) <= 1.0 / 200.0
  {
    Round2(principal + TotalInterest(loanMethod, principal, rate, months))
  }

  /** 0 + 1 + ... + (k - 1). */
  function Triangle(k: nat): nat
  {
    if k == 0 then 0 else Triangle(k - 1) + (k - 1)
  }

  lemma {:induction false} TriangleClosed(k: nat)
    ensures 2 * Triangle(k) == k * (k - 1)
  {
    if k > 0 {
      TriangleClosed(k - 1);
    }
  }

  /** The first k reducing-balance terms: k full principals less the instalments already
      repaid, 0 + 1 + ... + (k - 1) of them, at rate / 12. */
  lemma {:induction false} ReduceInterestUpToClosed(principal: real, rate: real, months: int, k: nat)
    requires months > 0
    ensures ReduceInterestUpTo(principal, rate, months, k)
         == (k as real * principal - (principal / months as real) * Triangle(k) as real) * rate / 12.0
  {
    if k > 0 {
      ReduceInterestUpToClosed(principal, rate, months, k - 1);
      var m := principal / months as real;
      var j := k - 1;
      var a := j as real * principal - m * Triangle(j) as real;
      var b := principal - m * j as real;
      assert m * Triangle(k) as real == m * Triangle(j) as real + m * j as real;
      assert a + b == k as real * principal - m * Triangle(k) as real;
      assert a * rate / 12.0 + b * rate / 12.0 == (a + b) * rate / 12.0;
    }
  }

  /** Closed form of the reducing-balance interest: the average outstanding principal,
      principal * (months + 1) / 2, at rate / 12 for months months. */
  lemma ReduceInterestClosed(principal: real, rate: real, months: int)
    requires months > 0
    ensures ReduceInterest(principal, rate, months) == principal * rate * (months + 1) as real / 24.0
  {
    ReduceInterestUpToClosed(principal, rate, months, months);
    TriangleClosed(months);
    var n := months as real;
    var h := Triangle(months) as real;
    assert 2.0 * h == n * (n - 1.0);
    assert (principal / n) * h == principal * (n - 1.0) / 2.0 by {
      assert (principal / n) * (n * (n - 1.0)) == principal * (n - 1.0);
    }
    assert n * principal - principal * (n - 1.0) / 2.0 == principal * (n + 1.0) / 2.0;
  }

  // ---------------------------------------------------------------- generate_schedule

  function MonthlyPrincipal(principal: real, months: int): real
    requires months != 0
  {
    principal / months as real
  }

  /** The value of `remaining` at the start of iteration i: the principal less i monthly
      principals, subtracted one at a time as the loop does. */
  function Remaining(principal: real, months: int, i: nat): real
    requires months != 0
  {
    if i == 0 then principal else Remaining(principal, months, i - 1) - MonthlyPrincipal(principal, months)
  }

  /** The unrounded interest of instalment i. */
  function InstalmentInterest(loanMethod: string, principal: real, rate: real, months: int, i: nat): real
    requires months != 0
  {
    if IsFlat(loanMethod) then (principal * rate) / months as real
    else Remaining(principal, months, i) * rate / 12.0
  }

  /** The unrounded amount due of instalment i. */
  function InstalmentDue(loanMethod: string, principal: real, rate: real, months: int, i: nat): real
    requires months != 0
  {
    MonthlyPrincipal(principal, months) + InstalmentInterest(loanMethod, principal, rate, months, i)
  }

  /** start + timedelta(days=30 * (i + 1)), with dates as day numbers. */
  function DueDate(start: int, i: nat): (d: int)
    ensures d > start
  {
    start + 30 * (i + 1)
  }

  /** The unrounded interest of the first k instalments. */
  function ScheduleInterest(loanMethod: string, principal: real, rate: real, months: int, k: nat): real
    requires months != 0
  {
    if k == 0 then 0.0
    else ScheduleInterest(loanMethod, principal, rate, months, k - 1)
         + InstalmentInterest(loanMethod, principal, rate, months, k - 1)
  }

  /** The unrounded principal of the first k instalments. */
  function SchedulePrincipal(principal: real, months: int, k: nat): real
    requires months != 0
  {
    if k == 0 then 0.0 else SchedulePrincipal(principal, months, k - 1) + MonthlyPrincipal(principal, months)
  }

  /** The unrounded amount due of the first k instalments. */
  function ScheduleDue(loanMethod: string, principal: real, rate: real, months: int, k: nat): real
    requires months != 0
  {
    if k == 0 then 0.0
    else ScheduleDue(loanMethod, principal, rate, months, k - 1) + InstalmentDue(loanMethod, principal, rate, months, k - 1)
  }

  /** What the instalments ask for is their principals plus their interest. */
  lemma {:induction false} ScheduleDueSplit(loanMethod: string, principal: real, rate: real, months: int, k: nat)
    requires months != 0
    ensures ScheduleDue(loanMethod, principal, rate, months, k)
         == SchedulePrincipal(principal, months, k) + ScheduleInterest(loanMethod, principal, rate, months, k)
  {
    if k > 0 {
      ScheduleDueSplit(loanMethod, principal, rate, months, k - 1);
    }
  }

  /** Reducing balance: before rounding, the instalments add up to the loan's total payable. */
  lemma ReduceScheduleTotal(loanMethod: string, principal: real, rate: real, months: int)
    requires months > 0 && !IsFlat(loanMethod)
    ensures ScheduleDue(loanMethod, principal, rate, months, months)
         == principal + TotalInterest(loanMethod, principal, rate, months)
  {
    ScheduleDueSplit(loanMethod, principal, rate, months, months);
    PrincipalsSum(principal, months);
    ReduceScheduleMatchesLoan(loanMethod, principal, rate, months);
  }

  /** Flat: before rounding, the instalments add up to the loan's total payable exactly when
      the term is 12 months or no interest is charged. */
  lemma FlatScheduleTotalIff(principal: real, rate: real, months: int)
    requires months > 0
    ensures ScheduleDue("Flat", principal, rate, months, months) == principal + TotalInterest("Flat", principal, rate, months)
            <==> (months == 12 || principal * rate == 0.0)
  {
    ScheduleDueSplit("Flat", principal, rate, months, months);
    PrincipalsSum(principal, months);
    FlatAgreesIff(principal, rate, months);
  }

  /** The loop's running balance is the principal less i equal instalments. */
  lemma {:induction false} RemainingClosed(principal: real, months: int, i: nat)
    requires months != 0
    ensures Remaining(principal, months, i) == principal - MonthlyPrincipal(principal, months) * i as real
  {
    if i > 0 {
      RemainingClosed(principal, months, i - 1);
    }
  }

  /** A reducing-balance schedule is fully amortised: after the last instalment nothing remains. */
  lemma FullyAmortised(principal: real, months: int)
    requires months > 0
    ensures Remaining(principal, months, months) == 0.0
  {
    RemainingClosed(principal, months, months);
  }

  /** The monthly principals add up to the loan principal. */
  lemma {:induction false} PrincipalsSumUpTo(principal: real, months: int, k: nat)
    requires months != 0
    ensures SchedulePrincipal(principal, months, k) == MonthlyPrincipal(principal, months) * k as real
  {
    if k > 0 {
      PrincipalsSumUpTo(principal, months, k - 1);
    }
  }

  lemma PrincipalsSum(principal: real, months: int)
    requires months > 0
    ensures SchedulePrincipal(principal, months, months) == principal
  {
    PrincipalsSumUpTo(principal, months, months);
  }

  /** For a reducing-balance loan the schedule charges exactly the interest create_loan adds
      to TotalPayable. */
  lemma {:induction false} ReduceScheduleUpTo(loanMethod: string, principal: real, rate: real, months: int, k: nat)
    requires months > 0 && !IsFlat(loanMethod)
    ensures ScheduleInterest(loanMethod, principal, rate, months, k) == ReduceInterestUpTo(principal, rate, months, k)
  {
    if k > 0 {
      ReduceScheduleUpTo(loanMethod, principal, rate, months, k - 1);
      RemainingClosed(principal, months, k - 1);
      assert InstalmentInterest(loanMethod, principal, rate, months, k - 1)
          == Remaining(principal, months, k - 1) * rate / 12.0;
      assert Remaining(principal, months, k - 1) == principal - (principal / months as real) * (k - 1) as real;
    }
  }

  lemma ReduceScheduleMatchesLoan(loanMethod: string, principal: real, rate: real, months: int)
    requires months > 0 && !IsFlat(loanMethod)
    ensures ScheduleInterest(loanMethod, principal, rate, months, months) == TotalInterest(loanMethod, principal, rate, months)
  {
    ReduceScheduleUpTo(loanMethod, principal, rate, months, months);
  }

  /** A flat schedule charges principal * rate / months per instalment, principal * rate in all. */
  lemma {:induction false} FlatScheduleUpTo(principal: real, rate: real, months: int, k: nat)
    requires months != 0
    ensures ScheduleInterest("Flat", principal, rate, months, k) == (principal * rate) / months as real * k as real
  {
    if k > 0 {
      FlatScheduleUpTo(principal, rate, months, k - 1);
      var c := (principal * rate) / months as real;
      assert InstalmentInterest("Flat", principal, rate, months, k - 1) == c;
      assert c * (k - 1) as real + c == c * k as real;
    }
  }

  lemma FlatScheduleInterest(principal: real, rate: real, months: int)
    requires months > 0
    ensures ScheduleInterest("Flat", principal, rate, months, months) == principal * rate
  {
    FlatScheduleUpTo(principal, rate, months, months);
  }

  /** The flat loan charges principal * rate * months / 12 but its schedule charges
      principal * rate: the two agree exactly when the term is 12 months (or nothing is charged). */
  lemma FlatAgreesIff(principal: real, rate: real, months: int)
    requires months > 0
    ensures TotalInterest("Flat", principal, rate, months) == ScheduleInterest("Flat", principal, rate, months, months)
            <==> (months == 12 || principal * rate == 0.0)
  {
    FlatScheduleInterest(principal, rate, months);
    var c := principal * rate;
    assert FlatInterest(principal, rate, months) == c * (months as real / 12.0);
    if c != 0.0 && c * (months as real / 12.0) == c {
      assert months as real / 12.0 == 1.0;
    }
  }

  /** Two amounts rounded separately differ from their rounded sum by at most one cent. */
  lemma RoundSplit(a: real, b: real)
    ensures -0.01 <= Round2(a + b) - (Round2(a) + Round2(b)) <= 0.01
  {
    var x, y, z := Round2(a + b), Round2(a), Round2(b);
    var cx, cy, cz := (x * 100.0).Floor, (y * 100.0).Floor, (z * 100.0).Floor;
    var d := cx - cy - cz;
    assert d as real == (x - y - z) * 100.0;
    assert -1.5 <= d as real <= 1.5;
    assert -1 <= d <= 1;
  }

  /** A flat loan of 12000 at 10% over 12 months: its total and each of its instalments. */
  lemma FlatTwelveMonthExample(i: nat)
    requires i < 12
    ensures TotalPayable("Flat", 12000.0, 10.0 / 100.0, 12) == 13200.0
    ensures Round2(MonthlyPrincipal(12000.0, 12)) == 1000.0
    ensures Round2(InstalmentInterest("Flat", 12000.0, 10.0 / 100.0, 12, i)) == 100.0
    ensures Round2(InstalmentDue("Flat", 12000.0, 10.0 / 100.0, 12, i)) == 1100.0
  {
    RoundWholeCents(1320000);
    RoundWholeCents(100000);
    RoundWholeCents(10000);
    RoundWholeCents(110000);
  }
}
