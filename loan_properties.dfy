/**
  What the loan engine promises, proved about the reference definition
  `Calculate` (which the method `CalculateLoan` computes exactly).

  The first group speaks of the loop `Amortize` for any fixed terms; the
  second of the whole operation on a request; the third relates the
  scheduled payment to a month-by-month reference recurrence `Owed`.
 */
module LoanProperties {
  import opened RealArith
  import opened LoanEngine

  /** The balance at the start of month `i + 1` of a run from `principal`. */
  function OpeningBalance(principal: real, s: seq<ScheduleItem>, i: nat): real
    requires i <= |s|
  {
    if i == 0 then principal else s[i - 1].balance
  }

  // ---------------------------------------------------------------------
  // One month
  // ---------------------------------------------------------------------

  /**
    What one successful month records: its number, interest accrued on the
    opening balance, interest plus principal equal to the cash paid, the
    principal subtracted from the balance, a balance that never goes below
    zero, and either the scheduled payment or the clamped last payment
    that clears the balance.
   */
  lemma InstallmentFacts(opening: real, month: int, t: Terms, e: ScheduleItem)
    requires Installment(opening, Accrued(opening, t.rate), month, t) == Ok(e)
    ensures e.month == month
    ensures e.interest == Accrued(opening, t.rate)
    ensures e.interest + e.principal == e.payment
    ensures e.balance == opening - e.principal
    ensures e.balance >= 0.0
    ensures e.payment == t.payment
         || (e.principal == opening && e.balance == 0.0 && e.payment < t.payment)
    ensures t.rate > 0.0 && opening > 0.0 ==> e.principal > 0.0
    ensures t.rate == 0.0 && t.payment > 0.0 && opening > 0.0 ==> e.principal > 0.0
  {
  }

  /** The guard: with a positive rate a month fails exactly when interest swallows the whole payment. */
  lemma InstallmentFails(opening: real, month: int, t: Terms)
    ensures Installment(opening, Accrued(opening, t.rate), month, t).Err?
        <==> t.rate > 0.0 && t.payment <= opening * t.rate
    ensures Installment(opening, Accrued(opening, t.rate), month, t).Err?
        ==> Installment(opening, Accrued(opening, t.rate), month, t).error == NonAmortizingPayment
  {
  }

  // ---------------------------------------------------------------------
  // The loop for fixed terms
  // ---------------------------------------------------------------------

  /**
    A successful run extends the entries it started from; every new entry
    is the month computed from the balance the previous one left, which
    was above `Epsilon`; the run never exceeds the iteration cap or
    `HardStop + 1` entries; and unless a cap ended it, it leaves at most
    `Epsilon` owing.
   */
  lemma {:induction false} AmortizeTrace(principal: real, balance: real, done: seq<ScheduleItem>, t: Terms)
    requires balance == OpeningBalance(principal, done, |done|)
    requires |done| <= t.cap && |done| <= HardStop
    requires Amortize(balance, done, t).Ok?
    ensures |done| <= |Amortize(balance, done, t).value| <= t.cap
    ensures |Amortize(balance, done, t).value| <= HardStop + 1
    ensures Amortize(balance, done, t).value[..|done|] == done
    ensures var s := Amortize(balance, done, t).value;
      forall i :: |done| <= i < |s| ==>
        OpeningBalance(principal, s, i) > Epsilon &&
        Installment(OpeningBalance(principal, s, i), Accrued(OpeningBalance(principal, s, i), t.rate), i + 1, t) == Ok(s[i])
    ensures var s := Amortize(balance, done, t).value;
      |s| < t.cap && |s| <= HardStop ==> OpeningBalance(principal, s, |s|) <= Epsilon
    decreases t.cap - |done|
  {
    if balance <= Epsilon || |done| >= t.cap {
    } else {
      var item := Installment(balance, Accrued(balance, t.rate), |done| + 1, t).value;
      var next := done + [item];
      if |done| + 1 > HardStop {
        assert Amortize(balance, done, t).value == next;
        assert next[..|done|] == done;
      } else {
        assert Amortize(balance, done, t) == Amortize(item.balance, next, t);
        AmortizeTrace(principal, item.balance, next, t);
        var s := Amortize(balance, done, t).value;
        assert s[..|done| + 1] == next;
        assert s[..|done|] == next[..|done|] == done;
        assert s[|done|] == item;
        assert OpeningBalance(principal, s, |done|) == balance by {
          if |done| > 0 {
            assert s[|done| - 1] == done[|done| - 1];
          }
        }
      }
    }
  }

  /** A run only ever fails with `NonAmortizingPayment`. */
  lemma {:induction false} AmortizeErrorKind(balance: real, done: seq<ScheduleItem>, t: Terms)
    ensures Amortize(balance, done, t).Err? ==> Amortize(balance, done, t).error == NonAmortizingPayment
    decreases t.cap - |done|
  {
    if balance <= Epsilon || |done| >= t.cap {
    } else {
      match Installment(balance, Accrued(balance, t.rate), |done| + 1, t)
      case Err(e) =>
      case Ok(item) =>
        if |done| + 1 <= HardStop {
          AmortizeErrorKind(item.balance, done + [item], t);
        }
    }
  }

  /**
    Once a month's payment covers its interest, every later month does too
    (the balance only shrinks), so the run cannot fail.
   */
  lemma {:induction false} AmortizeSucceeds(balance: real, done: seq<ScheduleItem>, t: Terms)
    requires t.rate >= 0.0
    requires t.rate == 0.0 || balance * t.rate < t.payment
    ensures Amortize(balance, done, t).Ok?
    decreases t.cap - |done|
  {
    if balance <= Epsilon || |done| >= t.cap {
    } else {
      var interest := Accrued(balance, t.rate);
      assert Installment(balance, interest, |done| + 1, t).Ok?;
      var item := Installment(balance, interest, |done| + 1, t).value;
      if |done| + 1 <= HardStop {
        InstallmentFacts(balance, |done| + 1, t, item);
        if t.rate > 0.0 {
          assert item.balance <= balance;
          assert item.balance * t.rate <= balance * t.rate;
        }
        AmortizeSucceeds(item.balance, done + [item], t);
      }
    }
  }

  // ---------------------------------------------------------------------
  // The whole operation
  // ---------------------------------------------------------------------

  /** The request is rejected as invalid exactly when principal or term is not positive or the rate is negative. */
  lemma ValidationIff(input: LoanInput)
    ensures Calculate(input) == Err(InvalidInput)
        <==> input.principal <= 0.0 || input.termMonths <= 0 || input.annualRate < 0.0
  {
    if ValidInputs(input) {
      AmortizeErrorKind(input.principal, [], TermsOf(input));
    }
  }

  /** A valid request fails as non-amortizing exactly when its run fails. */
  lemma CalculateFailure(input: LoanInput)
    requires ValidInputs(input)
    ensures TermsOf(input).rate >= 0.0 && TermsOf(input).cap > 0
    ensures Calculate(input) == Err(NonAmortizingPayment) <==> Amortize(input.principal, [], TermsOf(input)).Err?
  {
    AmortizeErrorKind(input.principal, [], TermsOf(input));
  }

  /** The opening month already fails: a positive rate whose interest on more than `Epsilon` reaches the payment. */
  predicate InterestSwallowsPayment(balance: real, t: Terms) {
    t.rate > 0.0 && balance > Epsilon && t.payment <= balance * t.rate
  }

  /**
    From the opening balance with no month done yet, the run fails exactly
    when the cap allows a month and that first month's interest reaches
    the payment.
   */
  lemma AmortizeFailsIff(balance: real, t: Terms)
    requires t.rate >= 0.0
    ensures Amortize(balance, [], t).Err? <==> t.cap > 0 && InterestSwallowsPayment(balance, t)
  {
    if t.cap > 0 && InterestSwallowsPayment(balance, t) {
      InstallmentFails(balance, 1, t);
    } else if t.rate == 0.0 || balance * t.rate < t.payment {
      AmortizeSucceeds(balance, [], t);
    }
  }

  /**
    A valid request fails as non-amortizing exactly when the rate is
    positive, the principal exceeds `Epsilon`, and the first month's
    interest already reaches the scheduled payment. A failure carries no
    schedule at all.
   */
  lemma NonAmortizingIff(input: LoanInput)
    requires ValidInputs(input)
    ensures Calculate(input) == Err(NonAmortizingPayment)
        <==> InterestSwallowsPayment(input.principal, TermsOf(input))
  {
    CalculateFailure(input);
    AmortizeFailsIff(input.principal, TermsOf(input));
  }

  /** The base payment: principal over term at rate 0, the annuity value otherwise. */
  lemma BasePaymentValue(principal: real, r: real, n: int)
    requires r >= 0.0 && n > 0
    ensures r == 0.0 ==> BasePayment(principal, r, n) * n as real == principal
    ensures r > 0.0 ==> var q := Pow(1.0 + r, n);
      q > 1.0 && BasePayment(principal, r, n) * (q - 1.0) == principal * r * q
  {
    if r > 0.0 {
      var q := Pow(1.0 + r, n);
      assert q > 1.0;
      assert BasePayment(principal, r, n) * (q - 1.0) == principal * (r * q);
    }
  }

  /** The base payment always exceeds the first month's interest. */
  lemma BaseExceedsInterest(principal: real, r: real, n: int)
    requires principal > 0.0 && r >= 0.0 && n > 0
    ensures BasePayment(principal, r, n) > principal * r
  {
    BasePaymentValue(principal, r, n);
    var b := BasePayment(principal, r, n);
    if r == 0.0 {
      assert b * n as real == principal;
    } else {
      var q := Pow(1.0 + r, n);
      var a := principal * r;
      assert a > 0.0;
      assert b * (q - 1.0) == a * q;
      assert b * (q - 1.0) == a * (q - 1.0) + a;
      assert (b - a) * (q - 1.0) == a;
    }
  }

  /** A request that meets every field constraint (extra payment included) always gets a schedule. */
  lemma WellFormedSucceeds(input: LoanInput)
    requires WellFormed(input)
    ensures Calculate(input).Ok?
  {
    var t := TermsOf(input);
    BaseExceedsInterest(input.principal, t.rate, input.termMonths);
    AmortizeSucceeds(input.principal, [], t);
  }

  // ---------------------------------------------------------------------
  // The schedule of a successful request
  // ---------------------------------------------------------------------

  /**
    The unrounded entries of a successful request: at most `n + 600` and at
    most `HardStop + 1` of them, numbered 1, 2, ... in order, each starting
    from a balance above `Epsilon`; unless a cap stopped the loop, the
    balance left at the end is at most `Epsilon`.
   */
  lemma ScheduleShape(input: LoanInput)
    requires ValidInputs(input) && ExactSchedule(input).Ok?
    ensures var s := ExactSchedule(input).value;
      |s| <= input.termMonths + 600 && |s| <= HardStop + 1
    ensures var s := ExactSchedule(input).value;
      forall i :: 0 <= i < |s| ==> s[i].month == i + 1 && OpeningBalance(input.principal, s, i) > Epsilon
    ensures var s := ExactSchedule(input).value;
      |s| < input.termMonths + 600 && |s| <= HardStop ==> OpeningBalance(input.principal, s, |s|) <= Epsilon
  {
    var t := TermsOf(input);
    var s := ExactSchedule(input).value;
    AmortizeTrace(input.principal, input.principal, [], t);
    forall i | 0 <= i < |s|
      ensures s[i].month == i + 1
    {
      InstallmentFacts(OpeningBalance(input.principal, s, i), i + 1, t, s[i]);
    }
  }

  /** The entries of a run that follows `Installment` from `principal` month by month. */
  predicate Follows(principal: real, t: Terms, s: seq<ScheduleItem>) {
    forall i :: 0 <= i < |s| ==>
      OpeningBalance(principal, s, i) > Epsilon &&
      Installment(OpeningBalance(principal, s, i), Accrued(OpeningBalance(principal, s, i), t.rate), i + 1, t) == Ok(s[i])
  }

  /** What one entry of such a run records, in terms of the balance the month opened with. */
  predicate EntryHolds(principal: real, t: Terms, s: seq<ScheduleItem>, i: nat)
    requires i < |s|
  {
    var opening := OpeningBalance(principal, s, i);
    s[i].interest == Accrued(opening, t.rate) &&
    s[i].interest + s[i].principal == s[i].payment &&
    s[i].balance == opening - s[i].principal &&
    s[i].balance >= 0.0 &&
    s[i].payment <= t.payment &&
    (i < |s| - 1 ==> s[i].payment == t.payment)
  }

  /** Only the last month of a run can be clamped, since a clamp leaves nothing owing. */
  lemma FollowsEntry(principal: real, t: Terms, s: seq<ScheduleItem>, i: nat)
    requires i < |s| && Follows(principal, t, s)
    ensures EntryHolds(principal, t, s, i)
  {
    var opening := OpeningBalance(principal, s, i);
    assert Installment(opening, Accrued(opening, t.rate), i + 1, t) == Ok(s[i]);
    InstallmentFacts(opening, i + 1, t, s[i]);
    if i < |s| - 1 {
      assert s[i].balance == OpeningBalance(principal, s, i + 1) > Epsilon;
    }
  }

  /**
    Every unrounded entry of a successful request: interest is the monthly
    rate on the opening balance, interest plus principal is the cash paid,
    the principal comes off the balance, the balance stays non-negative,
    and the cash paid never exceeds the scheduled payment and equals it in
    every month but the last.
   */
  lemma ScheduleEntries(input: LoanInput)
    requires ValidInputs(input) && ExactSchedule(input).Ok?
    ensures var s := ExactSchedule(input).value;
      forall i :: 0 <= i < |s| ==> EntryHolds(input.principal, TermsOf(input), s, i)
  {
    var t := TermsOf(input);
    var s := ExactSchedule(input).value;
    AmortizeTrace(input.principal, input.principal, [], t);
    assert Follows(input.principal, t, s);
    forall i | 0 <= i < |s|
      ensures EntryHolds(input.principal, t, s, i)
    {
      FollowsEntry(input.principal, t, s, i);
    }
  }

  /** A month of such a run lowers the balance when the rate is positive or the payment is. */
  lemma FollowsDecreasing(principal: real, t: Terms, s: seq<ScheduleItem>, i: nat)
    requires i < |s| && Follows(principal, t, s)
    requires t.rate >= 0.0 && (t.rate > 0.0 || t.payment > 0.0)
    ensures 0.0 <= s[i].balance < OpeningBalance(principal, s, i)
  {
    var opening := OpeningBalance(principal, s, i);
    assert Installment(opening, Accrued(opening, t.rate), i + 1, t) == Ok(s[i]);
    InstallmentFacts(opening, i + 1, t, s[i]);
  }

  /** When the extra payment is not negative, every month strictly lowers the balance. */
  lemma BalanceDecreases(input: LoanInput)
    requires ValidInputs(input) && ExactSchedule(input).Ok?
    requires input.extraPayment >= 0.0
    ensures var s := ExactSchedule(input).value;
      forall i :: 0 <= i < |s| ==> 0.0 <= s[i].balance < OpeningBalance(input.principal, s, i)
  {
    var t := TermsOf(input);
    var s := ExactSchedule(input).value;
    BaseExceedsInterest(input.principal, t.rate, input.termMonths);
    assert t.rate >= 0.0 && (t.rate > 0.0 || t.payment > 0.0);
    AmortizeTrace(input.principal, input.principal, [], t);
    assert Follows(input.principal, t, s);
    forall i | 0 <= i < |s|
      ensures 0.0 <= s[i].balance < OpeningBalance(input.principal, s, i)
    {
      FollowsDecreasing(input.principal, t, s, i);
    }
  }

  /**
    Over the first `k` entries, the cash paid is the interest paid plus the
    principal retired, that is the starting principal less the balance then owing.
   */
  lemma {:induction false} PaidSplits(principal: real, t: Terms, s: seq<ScheduleItem>, k: nat)
    requires k <= |s|
    requires forall i :: 0 <= i < |s| ==> EntryHolds(principal, t, s, i)
    ensures Total(s[..k], PaymentOf) == Total(s[..k], InterestOf) + principal - OpeningBalance(principal, s, k)
    decreases k
  {
    if k > 0 {
      PaidSplits(principal, t, s, k - 1);
      assert EntryHolds(principal, t, s, k - 1);
      assert s[..k][..k - 1] == s[..k - 1];
      assert s[..k][k - 1] == s[k - 1];
    }
  }

  /**
    For a successful request, the unrounded cash paid over the schedule is
    the unrounded interest plus the principal, less whatever is left owing.
   */
  lemma PaymentsCoverPrincipalAndInterest(input: LoanInput)
    requires ValidInputs(input) && ExactSchedule(input).Ok?
    ensures var s := ExactSchedule(input).value;
      Total(s, PaymentOf) == Total(s, InterestOf) + input.principal - OpeningBalance(input.principal, s, |s|)
  {
    var s := ExactSchedule(input).value;
    ScheduleEntries(input);
    PaidSplits(input.principal, TermsOf(input), s, |s|);
    assert s[..|s|] == s;
  }

  lemma RecordAllPrefix(s: seq<ScheduleItem>)
    requires |s| > 0
    ensures RecordAll(s)[..|s| - 1] == RecordAll(s[..|s| - 1])
  {
  }

  /** Summing payments rounded to cents drifts from the exact sum by at most half a cent per entry. */
  lemma {:induction false} RecordedPaymentsDrift(s: seq<ScheduleItem>)
    ensures -0.005 * |s| as real <= Total(RecordAll(s), PaymentOf) - Total(s, PaymentOf) <= 0.005 * |s| as real
    decreases |s|
  {
    if |s| > 0 {
      var n := |s| - 1;
      RecordedPaymentsDrift(s[..n]);
      RecordAllPrefix(s);
      Round2Error(s[n].payment);
    }
  }

  /**
    The totals of a successful request: the interest total is within half
    a cent of the exact interest; the payment total is within half a cent
    of the sum of the recorded payments, and so within half a cent per
    month plus half a cent of the exact cash paid.
   */
  lemma TotalsWithinRounding(input: LoanInput)
    requires Calculate(input).Ok?
    ensures ValidInputs(input) && ExactSchedule(input).Ok?
    ensures var res, s := Calculate(input).value, ExactSchedule(input).value;
      -0.005 <= res.totalInterest - Total(s, InterestOf) <= 0.005 &&
      -0.005 <= res.totalPayment - Total(res.schedule, PaymentOf) <= 0.005 &&
      -0.005 * (|s| + 1) as real <= res.totalPayment - Total(s, PaymentOf) <= 0.005 * (|s| + 1) as real
  {
    var s := ExactSchedule(input).value;
    Round2Error(Total(s, InterestOf));
    Round2Error(Total(RecordAll(s), PaymentOf));
    RecordedPaymentsDrift(s);
  }

  /** A successful request is a valid one whose run succeeded, summarised by `Summary`. */
  lemma CalculateSucceeded(input: LoanInput)
    requires Calculate(input).Ok?
    ensures ValidInputs(input) && ExactSchedule(input).Ok?
    ensures Calculate(input).value == Summary(input, ExactSchedule(input).value)
    ensures Calculate(input).value.schedule == RecordAll(ExactSchedule(input).value)
    ensures Calculate(input).value.payoffMonths == |ExactSchedule(input).value|
    ensures Calculate(input).value.monthlyPayment == Round(TermsOf(input).payment, 2)
  {
  }

  /**
    The recorded schedule of a successful request: `payoffMonths` is its
    length, at most `n + 600` and at most `HardStop + 1`, and its months
    run 1, 2, ... in order.
   */
  lemma RecordedLength(input: LoanInput)
    requires Calculate(input).Ok?
    ensures var res := Calculate(input).value;
      res.payoffMonths == |res.schedule| <= input.termMonths + 600 &&
      res.payoffMonths <= HardStop + 1 &&
      forall i :: 0 <= i < |res.schedule| ==> res.schedule[i].month == i + 1
  {
    CalculateSucceeded(input);
    ScheduleShape(input);
  }

  /**
    Each recorded payment is at most the monthly payment and equals it in
    every month but the last, and no recorded balance is negative.
   */
  lemma RecordedPayments(input: LoanInput)
    requires Calculate(input).Ok?
    ensures var res := Calculate(input).value;
      forall i :: 0 <= i < |res.schedule| ==>
        res.schedule[i].balance >= 0.0 &&
        res.schedule[i].payment <= res.monthlyPayment &&
        (i < |res.schedule| - 1 ==> res.schedule[i].payment == res.monthlyPayment)
  {
    CalculateSucceeded(input);
    var s := ExactSchedule(input).value;
    var t := TermsOf(input);
    var res := Calculate(input).value;
    ScheduleEntries(input);
    forall i | 0 <= i < |s|
      ensures res.schedule[i].balance >= 0.0
      ensures res.schedule[i].payment <= res.monthlyPayment
      ensures i < |s| - 1 ==> res.schedule[i].payment == res.monthlyPayment
    {
      assert EntryHolds(input.principal, t, s, i);
      assert res.schedule[i] == Recorded(s[i]);
      Round2NonNegative(Max(s[i].balance, 0.0));
      Round2Monotone(s[i].payment, t.payment);
    }
  }

  /** No recorded balance before the last month is below one cent. */
  lemma RecordedOutstanding(input: LoanInput)
    requires Calculate(input).Ok?
    ensures var res := Calculate(input).value;
      forall i :: 0 <= i < |res.schedule| - 1 ==> res.schedule[i].balance >= 0.01
  {
    CalculateSucceeded(input);
    var s := ExactSchedule(input).value;
    var res := Calculate(input).value;
    ScheduleShape(input);
    forall i | 0 <= i < |s| - 1
      ensures res.schedule[i].balance >= 0.01
    {
      assert OpeningBalance(input.principal, s, i + 1) == s[i].balance > Epsilon;
      assert res.schedule[i] == Recorded(s[i]);
      Round2AboveHalfCent(Max(s[i].balance, 0.0));
    }
  }

  /**
    When the balance fell to `Epsilon` before either cap stopped the loop,
    the last recorded balance is exactly zero.
   */
  lemma RecordedPaidOff(input: LoanInput)
    requires Calculate(input).Ok?
    ensures var res := Calculate(input).value;
      0 < res.payoffMonths < input.termMonths + 600 && res.payoffMonths <= HardStop ==>
        res.schedule[res.payoffMonths - 1].balance == 0.0
  {
    CalculateSucceeded(input);
    var s := ExactSchedule(input).value;
    ScheduleShape(input);
    ScheduleEntries(input);
    if 0 < |s| < input.termMonths + 600 && |s| <= HardStop {
      var last := s[|s| - 1];
      assert EntryHolds(input.principal, TermsOf(input), s, |s| - 1);
      assert OpeningBalance(input.principal, s, |s|) == last.balance;
      Round2Tiny(Max(last.balance, 0.0));
    }
  }

  /**
    Each recorded month's interest and principal, rounded separately, add
    up to its rounded payment to within one cent.
   */
  lemma RecordedComponentsAgree(e: ScheduleItem)
    requires e.interest + e.principal == e.payment
    ensures -0.01 <= Recorded(e).interest + Recorded(e).principal - Recorded(e).payment <= 0.01
  {
    var i, p, c := e.interest * 100.0, e.principal * 100.0, e.payment * 100.0;
    RoundToCents(e.interest);
    RoundToCents(e.principal);
    RoundToCents(e.payment);
    RoundScaledNearest(e.interest, 100.0);
    RoundScaledNearest(e.principal, 100.0);
    RoundScaledNearest(e.payment, 100.0);
    var d := HalfEven(i) + HalfEven(p) - HalfEven(c);
    assert i + p == c;
    assert -1 <= d <= 1;
    assert (Recorded(e).interest + Recorded(e).principal - Recorded(e).payment) * 100.0 == d as real;
  }
  /**
    In every entry of a successful request's schedule, the recorded
    interest and principal add up to the recorded payment to within one cent.
   */
  lemma RecordedEntriesAgree(input: LoanInput)
    requires Calculate(input).Ok?
    ensures var res := Calculate(input).value;
      forall i :: 0 <= i < |res.schedule| ==>
        -0.01 <= res.schedule[i].interest + res.schedule[i].principal - res.schedule[i].payment <= 0.01
  {
    CalculateSucceeded(input);
    var s := ExactSchedule(input).value;
    var res := Calculate(input).value;
    ScheduleEntries(input);
    forall i | 0 <= i < |s|
      ensures -0.01 <= res.schedule[i].interest + res.schedule[i].principal - res.schedule[i].payment <= 0.01
    {
      assert EntryHolds(input.principal, TermsOf(input), s, i);
      assert res.schedule[i] == Recorded(s[i]);
      RecordedComponentsAgree(s[i]);
    }
  }


  // ---------------------------------------------------------------------
  // The scheduled payment against a reference recurrence
  // ---------------------------------------------------------------------

  /**
    What is owed after `k` months of paying `payment` at monthly rate
    `rate` on `balance`, with no clamp and no stopping rule.
   */
  function Owed(balance: real, rate: real, payment: real, k: nat): real {
    if k == 0 then balance
    else
      var o := Owed(balance, rate, payment, k - 1);
      o + o * rate - payment
  }

  /**
    The closed form of what is owed, scaled by the rate, once one unit
    has grown to `growth`: the principal's interest-bearing growth less
    the growth of the payments made.
   */
  function ScaledOwed(balance: real, rate: real, payment: real, growth: real): real {
    balance * rate * growth - payment * (growth - 1.0)
  }

  /** `owed`, scaled by the rate, agrees with the closed form at `growth`. */
  predicate MatchesClosedForm(balance: real, rate: real, payment: real, owed: real, growth: real) {
    rate * owed == ScaledOwed(balance, rate, payment, growth)
  }

  /** One month of the closed form, as plain algebra: `o` is owed after `x` has grown to `x'`. */
  lemma ClosedFormStep(balance: real, rate: real, payment: real, o: real, x: real, o': real, x': real)
    requires MatchesClosedForm(balance, rate, payment, o, x)
    requires o' == o + o * rate - payment && x' == (1.0 + rate) * x
    ensures MatchesClosedForm(balance, rate, payment, o', x')
  {
    var ro := rate * o;
    assert rate * o' == ro + rate * ro - rate * payment;
    assert ro + rate * ro == (1.0 + rate) * ro;
    assert (1.0 + rate) * ro == (1.0 + rate) * (balance * rate * x) - (1.0 + rate) * (payment * (x - 1.0));
    assert (1.0 + rate) * (balance * rate * x) == balance * rate * x';
    assert (1.0 + rate) * (payment * (x - 1.0)) == payment * (x' - 1.0) - rate * payment;
  }

  /** The closed form holds after `k` months. */
  predicate ClosedFormHolds(balance: real, rate: real, payment: real, k: nat) {
    MatchesClosedForm(balance, rate, payment, Owed(balance, rate, payment, k), Pow(1.0 + rate, k))
  }

  lemma ClosedFormStart(balance: real, rate: real, payment: real)
    ensures ClosedFormHolds(balance, rate, payment, 0)
  {
    assert Pow(1.0 + rate, 0) == 1.0;
  }

  lemma OwedNext(balance: real, rate: real, payment: real, k: nat)
    requires k > 0
    ensures Owed(balance, rate, payment, k)
         == Owed(balance, rate, payment, k - 1) + Owed(balance, rate, payment, k - 1) * rate - payment
  {
  }

  lemma PowNext(x: real, k: nat)
    requires k > 0
    ensures Pow(x, k) == x * Pow(x, k - 1)
  {
  }

  lemma ClosedFormNext(balance: real, rate: real, payment: real, k: nat)
    requires k > 0 && ClosedFormHolds(balance, rate, payment, k - 1)
    ensures ClosedFormHolds(balance, rate, payment, k)
  {
    var o, x := Owed(balance, rate, payment, k - 1), Pow(1.0 + rate, k - 1);
    var o', x' := Owed(balance, rate, payment, k), Pow(1.0 + rate, k);
    assert MatchesClosedForm(balance, rate, payment, o, x);
    OwedNext(balance, rate, payment, k);
    PowNext(1.0 + rate, k);
    ClosedFormStep(balance, rate, payment, o, x, o', x');
  }

  /** What is owed after `k` months, scaled by the rate, is given by the closed form. */
  lemma {:induction false} OwedClosedForm(balance: real, rate: real, payment: real, k: nat)
    ensures ClosedFormHolds(balance, rate, payment, k)
    decreases k
  {
    if k == 0 {
      ClosedFormStart(balance, rate, payment);
    } else {
      OwedClosedForm(balance, rate, payment, k - 1);
      ClosedFormNext(balance, rate, payment, k);
    }
  }

  /** At rate zero what is owed falls by the payment every month. */
  lemma {:induction false} OwedInterestFree(balance: real, payment: real, k: nat)
    ensures Owed(balance, 0.0, payment, k) == balance - k as real * payment
    decreases k
  {
    if k > 0 {
      OwedInterestFree(balance, payment, k - 1);
    }
  }

  /** At a positive rate, the closed form vanishes for a payment that is the annuity value. */
  lemma ClosedFormVanishes(o: real, rate: real, principal: real, payment: real, growth: real)
    requires rate > 0.0
    requires MatchesClosedForm(principal, rate, payment, o, growth)
    requires payment * (growth - 1.0) == principal * rate * growth
    ensures o == 0.0
  {
    assert rate * o == 0.0;
  }

  /** The base payment retires the principal in exactly `n` months. */
  lemma BasePaymentRetiresLoan(principal: real, r: real, n: int)
    requires r >= 0.0 && n > 0
    ensures Owed(principal, r, BasePayment(principal, r, n), n) == 0.0
  {
    var b := BasePayment(principal, r, n);
    BasePaymentValue(principal, r, n);
    if r == 0.0 {
      OwedInterestFree(principal, b, n);
    } else {
      OwedClosedForm(principal, r, b, n);
      var q := Pow(1.0 + r, n);
      assert MatchesClosedForm(principal, r, b, Owed(principal, r, b, n), q);
      ClosedFormVanishes(Owed(principal, r, b, n), r, principal, b, q);
    }
  }

  /** A payment above the first month's interest makes what is owed fall every month. */
  lemma {:induction false} OwedFalls(balance: real, rate: real, payment: real, k: nat)
    requires rate >= 0.0 && balance * rate < payment
    ensures Owed(balance, rate, payment, k + 1) < Owed(balance, rate, payment, k) <= balance
    decreases k
  {
    if k > 0 {
      OwedFalls(balance, rate, payment, k - 1);
    }
    var o := Owed(balance, rate, payment, k);
    assert o * rate <= balance * rate;
  }

  lemma {:induction false} OwedAtLeast(balance: real, rate: real, payment: real, j: nat, k: nat)
    requires rate >= 0.0 && balance * rate < payment && j <= k
    ensures Owed(balance, rate, payment, j) >= Owed(balance, rate, payment, k)
    decreases k - j
  {
    if j < k {
      OwedAtLeast(balance, rate, payment, j + 1, k);
      OwedFalls(balance, rate, payment, j);
    }
  }

  /** If what is owed falls every month, it stays above its value after month `n - 1` until then. */
  lemma OwedStaysAbove(balance: real, rate: real, payment: real, n: nat)
    requires rate >= 0.0 && balance * rate < payment && n > 0
    requires Owed(balance, rate, payment, n - 1) > Epsilon
    ensures forall j :: 0 <= j < n ==>
      Owed(balance, rate, payment, j) > Epsilon &&
      Owed(balance, rate, payment, j + 1) < Owed(balance, rate, payment, j)
  {
    forall j | 0 <= j < n
      ensures Owed(balance, rate, payment, j) > Epsilon
      ensures Owed(balance, rate, payment, j + 1) < Owed(balance, rate, payment, j)
    {
      OwedAtLeast(balance, rate, payment, j, n - 1);
      OwedFalls(balance, rate, payment, j);
    }
  }

  /**
    While what is owed stays above `Epsilon` and keeps falling until it is
    exactly zero after month `n`, the loop follows `Owed` month by month,
    never clamps, and stops after exactly `n` months with nothing owing.
   */
  lemma {:induction false} AmortizeFollowsOwed(principal: real, t: Terms, n: nat, done: seq<ScheduleItem>)
    requires t.rate >= 0.0
    requires |done| < n <= HardStop + 1 && n <= t.cap
    requires Owed(principal, t.rate, t.payment, n) == 0.0
    requires forall j :: |done| <= j < n ==>
      Owed(principal, t.rate, t.payment, j) > Epsilon &&
      Owed(principal, t.rate, t.payment, j + 1) < Owed(principal, t.rate, t.payment, j)
    ensures Amortize(Owed(principal, t.rate, t.payment, |done|), done, t).Ok?
    ensures var s := Amortize(Owed(principal, t.rate, t.payment, |done|), done, t).value;
      |s| == n && s[..|done|] == done && s[n - 1].balance == 0.0 &&
      forall j :: |done| <= j < n ==> s[j].payment == t.payment
    decreases n - |done|
  {
    var k := |done|;
    var b := Owed(principal, t.rate, t.payment, k);
    var after := Owed(principal, t.rate, t.payment, k + 1);
    assert after == b + Accrued(b, t.rate) - t.payment;
    assert after >= 0.0 by {
      if k + 1 < n {
        assert Owed(principal, t.rate, t.payment, k + 1) > Epsilon;
      }
    }
    var item := ScheduleItem(k + 1, t.payment, Accrued(b, t.rate), b - after, after);
    assert Installment(b, Accrued(b, t.rate), k + 1, t) == Ok(item);
    var next := done + [item];
    if k + 1 == n {
      assert Amortize(b, done, t) == Ok(next);
      assert next[..k] == done;
    } else {
      assert Amortize(b, done, t) == Amortize(after, next, t);
      AmortizeFollowsOwed(principal, t, n, next);
      var s := Amortize(after, next, t).value;
      assert s[..k + 1] == next;
      assert s[..k] == next[..k] == done;
      assert s[k] == item;
    }
  }

  /** What is owed going into the last month, grown by one month of interest, is the base payment. */
  lemma LastMonthOwed(principal: real, r: real, n: int)
    requires r >= 0.0 && n > 0
    ensures (1.0 + r) * Owed(principal, r, BasePayment(principal, r, n), n - 1) == BasePayment(principal, r, n)
  {
    BasePaymentRetiresLoan(principal, r, n);
    OwedNext(principal, r, BasePayment(principal, r, n), n);
  }

  /** A base payment above `Epsilon` grown by a month's interest leaves more than `Epsilon` owing into the last month. */
  lemma LastMonthAbove(principal: real, r: real, n: int)
    requires r >= 0.0 && n > 0
    requires BasePayment(principal, r, n) > Epsilon * (1.0 + r)
    ensures Owed(principal, r, BasePayment(principal, r, n), n - 1) > Epsilon
  {
    LastMonthOwed(principal, r, n);
    var last := Owed(principal, r, BasePayment(principal, r, n), n - 1);
    assert (1.0 + r) * (last - Epsilon) > 0.0;
  }

  /**
    With no extra payment and a term of at most `HardStop + 1` months, the
    loan is paid off in exactly the term, every recorded payment is the
    monthly payment, and the last recorded balance is zero, provided the
    base payment exceeds `Epsilon` grown by one month of interest (that is,
    the balance owed going into the last month exceeds `Epsilon`).
   */
  lemma PaidOffOnTerm(input: LoanInput)
    requires ValidInputs(input) && input.extraPayment == 0.0 && input.termMonths <= HardStop + 1
    requires var r := MonthlyRate(input.annualRate);
      BasePayment(input.principal, r, input.termMonths) > Epsilon * (1.0 + r)
    ensures Calculate(input).Ok?
    ensures var res := Calculate(input).value;
      res.payoffMonths == input.termMonths &&
      res.schedule[input.termMonths - 1].balance == 0.0 &&
      forall i :: 0 <= i < |res.schedule| ==> res.schedule[i].payment == res.monthlyPayment
  {
    var t := TermsOf(input);
    var p, n := input.principal, input.termMonths;
    assert t.rate >= 0.0 && t.payment == BasePayment(p, t.rate, n);
    LastMonthAbove(p, t.rate, n);
    BasePaymentRetiresLoan(p, t.rate, n);
    BaseExceedsInterest(p, t.rate, n);
    OwedStaysAbove(p, t.rate, t.payment, n);
    AmortizeFollowsOwed(p, t, n, []);
    assert Owed(p, t.rate, t.payment, 0) == p;
    var s := ExactSchedule(input).value;
    assert |s| == n;
    Round2Tiny(0.0);
    assert Max(s[n - 1].balance, 0.0) == 0.0;
  }

  /**
    An interest-free loan with no extra payment is paid in exactly `n`
    equal installments when each installment exceeds `Epsilon`.
   */
  lemma InterestFreePaidOffOnTerm(input: LoanInput)
    requires ValidInputs(input) && input.annualRate == 0.0 && input.extraPayment == 0.0
    requires input.termMonths <= HardStop + 1
    requires input.principal / input.termMonths as real > Epsilon
    ensures Calculate(input).Ok? && Calculate(input).value.payoffMonths == input.termMonths
  {
    assert MonthlyRate(input.annualRate) == 0.0;
    assert BasePayment(input.principal, 0.0, input.termMonths) > Epsilon * (1.0 + 0.0);
    PaidOffOnTerm(input);
  }
}
