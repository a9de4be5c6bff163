/**
  The amortization engine of the loan calculator: one call turns a
  principal, an annual rate in percent, a term in months and an extra
  monthly payment into either an error or a payment schedule with totals.

  Amounts are exact reals. `Installment` and `Amortize` are the reference
  definition of the month-by-month loop on unrounded values; `Calculate`
  is the whole operation as a function, and the method `CalculateLoan`
  is the loop itself, proved to compute exactly `Calculate`.
 */
module LoanEngine {
  import opened RealArith

  /** The caller's request. The engine re-checks principal, term and rate itself. */
  datatype LoanInput = LoanInput(
    principal: real,
    annualRate: real,   // percent per year, 6.5 means 6.5 %
    termMonths: int,
    extraPayment: real)

  /** One month of the schedule. */
  datatype ScheduleItem = ScheduleItem(
    month: int,
    payment: real,
    interest: real,
    principal: real,
    balance: real)

  datatype LoanResult = LoanResult(
    monthlyPayment: real,
    totalPayment: real,
    totalInterest: real,
    payoffMonths: int,
    apr: real,
    schedule: seq<ScheduleItem>)

  /** The two ways the operation can fail. */
  datatype LoanError = InvalidInput | NonAmortizingPayment

  datatype Result<T> = Ok(value: T) | Err(error: LoanError)

  /** The loop never runs past this month number. */
  const HardStop: int := 3600

  /** The loop stops once the balance is at most this amount. */
  const Epsilon: real := 0.005

  /** The field constraints of the request model (principal > 0, rate >= 0, term > 0, extra >= 0). */
  predicate WellFormed(input: LoanInput) {
    input.principal > 0.0 && input.annualRate >= 0.0 && input.termMonths > 0 && input.extraPayment >= 0.0
  }

  /** The engine's own validation; it does not look at the extra payment. */
  predicate ValidInputs(input: LoanInput) {
    input.principal > 0.0 && input.termMonths > 0 && input.annualRate >= 0.0
  }

  /** Annual percent to monthly fraction. */
  function MonthlyRate(annualRate: real): (r: real)
    ensures r * 1200.0 == annualRate
  {
    annualRate / 100.0 / 12.0
  }

  /**
    The payment that retires `principal` in `n` months at monthly rate `r`:
    straight-line at rate 0, the annuity formula otherwise.
   */
  function BasePayment(principal: real, r: real, n: int): real
    requires r >= 0.0 && n > 0
  {
    if r == 0.0 then principal / n as real
    else principal * (r * Pow(1.0 + r, n)) / (Pow(1.0 + r, n) - 1.0)
  }

  /** The fixed part of the loop: monthly rate, scheduled payment and the iteration cap. */
  datatype Terms = Terms(rate: real, payment: real, cap: int)

  function TermsOf(input: LoanInput): Terms
    requires ValidInputs(input)
  {
    var r := MonthlyRate(input.annualRate);
    Terms(r, BasePayment(input.principal, r, input.termMonths) + input.extraPayment, input.termMonths + 600)
  }

  /** Interest accrued in one month on `balance` at monthly rate `rate`. */
  function Accrued(balance: real, rate: real): real { balance * rate }

  /**
    One month on unrounded amounts, starting from `balance` on which
    `interest` has accrued: the principal repaid (clamped to the balance),
    the cash actually paid and the balance left. Fails when a positive rate
    leaves nothing for principal.
   */
  function Installment(balance: real, interest: real, month: int, t: Terms): Result<ScheduleItem> {
    var due := t.payment - interest;
    if due <= 0.0 && t.rate > 0.0 then Err(NonAmortizingPayment)
    else if due > balance then Ok(ScheduleItem(month, interest + balance, interest, balance, 0.0))
    else Ok(ScheduleItem(month, t.payment, interest, due, balance - due))
  }

  /**
    The loop, from `balance` once the entries `done` have been appended:
    it runs while the balance exceeds `Epsilon` and fewer than `t.cap`
    months have passed, and stops after a month numbered above `HardStop`.
    The result is every entry of the run, or the failure alone.
   */
  function Amortize(balance: real, done: seq<ScheduleItem>, t: Terms): Result<seq<ScheduleItem>>
    decreases t.cap - |done|
  {
    if balance <= Epsilon || |done| >= t.cap then Ok(done)
    else
      match Installment(balance, Accrued(balance, t.rate), |done| + 1, t)
      case Err(e) => Err(e)
      case Ok(item) =>
        if |done| + 1 > HardStop then Ok(done + [item])
        else Amortize(item.balance, done + [item], t)
  }

  /** The entry recorded for one month: every amount rounded to cents, the balance floored at 0. */
  function Recorded(e: ScheduleItem): ScheduleItem {
    ScheduleItem(e.month, Round(e.payment, 2), Round(e.interest, 2), Round(e.principal, 2), Round(Max(e.balance, 0.0), 2))
  }

  /** The recorded schedule: one `Recorded` entry per month of the run. */
  function RecordAll(s: seq<ScheduleItem>): seq<ScheduleItem> {
    seq(|s|, i requires 0 <= i < |s| => Recorded(s[i]))
  }

  function PaymentOf(e: ScheduleItem): real { e.payment }
  function InterestOf(e: ScheduleItem): real { e.interest }

  /** The left-to-right sum of one field over the entries. */
  function Total(s: seq<ScheduleItem>, field: ScheduleItem -> real): real {
    if s == [] then 0.0 else Total(s[..|s| - 1], field) + field(s[|s| - 1])
  }

  /** The unrounded entries of the whole run, or the error. */
  function ExactSchedule(input: LoanInput): Result<seq<ScheduleItem>> {
    if !ValidInputs(input) then Err(InvalidInput)
    else Amortize(input.principal, [], TermsOf(input))
  }

  /** The result built from the unrounded run `exact`. */
  function Summary(input: LoanInput, exact: seq<ScheduleItem>): LoanResult
    requires ValidInputs(input)
  {
    var schedule := RecordAll(exact);
    LoanResult(
      Round(TermsOf(input).payment, 2),
      Round(Total(schedule, PaymentOf), 2),
      Round(Total(exact, InterestOf), 2),
      |schedule|,
      Round(input.annualRate, 3),
      schedule)
  }

  /** The whole operation. */
  function Calculate(input: LoanInput): Result<LoanResult> {
    match ExactSchedule(input)
    case Err(e) => Err(e)
    case Ok(exact) => Ok(Summary(input, exact))
  }

  lemma RecordAllAppend(s: seq<ScheduleItem>, e: ScheduleItem)
    ensures RecordAll(s + [e]) == RecordAll(s) + [Recorded(e)]
  {
    assert RecordAll(s + [e])[|s|] == Recorded(e);
  }

  lemma TotalAppend(s: seq<ScheduleItem>, e: ScheduleItem, field: ScheduleItem -> real)
    ensures Total(s + [e], field) == Total(s, field) + field(e)
  {
    assert (s + [e])[..|s|] == s;
  }

  /**
    The engine as the source writes it: validate, compute the scheduled
    payment, run the capped loop, then total up. Any failure is returned
    alone, without the entries built so far.
   */
  method CalculateLoan(input: LoanInput) returns (res: Result<LoanResult>)
    ensures res == Calculate(input)
  {
    var principal := input.principal;
    var r := input.annualRate / 100.0 / 12.0;
    var n := input.termMonths;
    var extra := input.extraPayment;

    if principal <= 0.0 || n <= 0 || input.annualRate < 0.0 {
      assert ExactSchedule(input) == Err(InvalidInput);
      return Err(InvalidInput);
    }

    var basePayment := BasePayment(principal, r, n);
    var payment := basePayment + extra;
    assert r == MonthlyRate(input.annualRate);
    assert TermsOf(input) == Terms(r, payment, n + 600);

    var balance := principal;
    var schedule: seq<ScheduleItem> := [];
    var totalInterest := 0.0;
    var month := 0;
    ghost var t := TermsOf(input);
    var safetyCap := n + 600;
    ghost var exact: seq<ScheduleItem> := [];

    while balance > Epsilon && month < safetyCap
      invariant month == |exact| <= HardStop
      invariant Amortize(principal, [], t) == Amortize(balance, exact, t)
      invariant schedule == RecordAll(exact)
      invariant totalInterest == Total(exact, InterestOf)
      decreases safetyCap - month
    {
      month := month + 1;
      var interestComponent := Accrued(balance, r);
      var principalComponent := payment - interestComponent;

      if principalComponent <= 0.0 && r > 0.0 {
        assert Amortize(balance, exact, t) == Err(NonAmortizingPayment);
        assert ExactSchedule(input) == Err(NonAmortizingPayment);
        return Err(NonAmortizingPayment);
      }

      ghost var opening := balance;
      ghost var expected := Installment(opening, interestComponent, month, t);
      var paymentActual: real;
      if principalComponent > balance {
        principalComponent := balance;
        paymentActual := interestComponent + principalComponent;
        assert expected == Ok(ScheduleItem(month, paymentActual, interestComponent, principalComponent, 0.0));
      } else {
        paymentActual := payment;
        assert expected == Ok(ScheduleItem(month, paymentActual, interestComponent, principalComponent, balance - principalComponent));
      }

      balance := balance - principalComponent;
      totalInterest := totalInterest + interestComponent;

      var entry := ScheduleItem(month, paymentActual, interestComponent, principalComponent, balance);
      assert expected == Ok(entry);
      TotalAppend(exact, entry, InterestOf);
      RecordAllAppend(exact, entry);
      exact := exact + [entry];
      schedule := schedule + [Recorded(entry)];

      if month > HardStop {
        assert Amortize(principal, [], t) == Ok(exact);
        break;
      }
    }
    assert Amortize(principal, [], t) == Ok(exact);
    var totalPayment := Total(schedule, PaymentOf);
    res := Ok(LoanResult(
      Round(payment, 2),
      Round(totalPayment, 2),
      Round(totalInterest, 2),
      |schedule|,
      Round(input.annualRate, 3),
      schedule));
    assert res == Ok(Summary(input, exact));
  }
}
