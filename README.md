# Loan amortization engine

This project models the amortization engine of a small loan-calculator
service, `calculate_loan` in `main.py`, and proves properties of the model.
A request gives a principal, an annual rate in percent, a term in months and
an extra monthly payment. The engine does four things:

- it re-validates principal, term and rate;
- it derives the monthly rate;
- it computes the scheduled payment, which is straight-line at rate zero and
  the annuity formula otherwise, plus the extra payment;
- it runs a capped month-by-month loop. Each month accrues interest, rejects
  a payment that does not cover it, clamps the last month, and appends one
  rounded entry to the schedule. The engine then totals up.

Layout:

- `real_arith.dfy` (module `RealArith`). This has `Pow` for Python's `**`
  with a natural exponent, and `Round` for Python's `round(x, ndigits)` on
  exact reals: nearest multiple, ties to even. It also has the lemmas about
  rounding to cents.
- `loan_engine.dfy` (module `LoanEngine`):
  - the records `LoanInput`, `ScheduleItem` and `LoanResult`;
  - the two errors, as `Result`;
  - the reference definition of one month (`Installment`) and of the loop
    (`Amortize`, over unrounded amounts), and the whole operation as a
    function (`Calculate`);
  - the imperative method `CalculateLoan`. This is the engine's `while` loop
    with its early failure, its `break` and its schedule buffer. It is proved
    to return exactly `Calculate(input)`.
- `loan_properties.dfy` (module `LoanProperties`). This holds what the
  engine promises, proved about `Calculate`:
  - validation;
  - the non-amortizing guard;
  - the shape, components and balances of the schedule;
  - conservation of cash and rounding drift of the totals;
  - a reference recurrence `Owed`, against which the annuity payment is shown
    to retire the loan in exactly the term.

The records of main.py:18-39 are the datatypes `LoanInput`, `ScheduleItem`
and `LoanResult` in `loan_engine.dfy`, field for field. The two errors of
main.py:60 and main.py:84 are the datatype `LoanError`, carried by `Result`.

All amounts are exact reals. Each recorded entry is the exact month with
every amount rounded to cents, so the proofs speak about the exact run
(`ExactSchedule`) and about its rounded record (`RecordAll`).

## Model

| member | source | states |
|---|---|---|
| `LoanEngine.CalculateLoan` | main.py:52-118 | The loop, with validation, early failure, clamp, hard stop and totals, returns exactly `Calculate(input)`. A failure returns no partial schedule. The interest total accumulated in the loop is the sum of the unrounded interest. |
| `LoanEngine.ValidInputs` | main.py:59 | Definition: the engine's own check, principal > 0, term > 0 and rate ≥ 0. Its meaning is proved in `ValidationIff`. |
| `LoanEngine.BasePayment` | main.py:62-66 | Definition: P/n at rate 0, and P·r·q/(q − 1) with q = (1+r)^n otherwise. Its meaning is proved in `BasePaymentValue` and `BasePaymentRetiresLoan`. |
| `LoanEngine.TermsOf` | main.py:55-76 | Definition: the monthly rate, the scheduled payment (base plus extra) and the cap n + 600. |
| `LoanEngine.Accrued` | main.py:79 | Definition: one month's interest, balance × r. |
| `LoanEngine.Installment` | main.py:79-92 | Definition of one month on unrounded amounts: the guard, the clamp and the new balance. Its meaning is proved in `InstallmentFacts` and `InstallmentFails`. |
| `LoanEngine.Amortize` | main.py:70-106 | Definition of the loop: it runs while the balance exceeds 0.005 and fewer than `cap` months have passed, stops after month 3601, and returns the failure alone. Its meaning is proved in `AmortizeTrace`, `AmortizeFailsIff` and `AmortizeSucceeds`. |
| `LoanEngine.Recorded` | main.py:95-103 | Definition: the entry appended for one month, every amount rounded to cents and the balance floored at 0. |
| `LoanEngine.Total` | main.py:93-108 | Definition: the left-to-right sum of one field, as `+=` and `sum` compute it. `TotalAppend` states its step. |
| `LoanEngine.ExactSchedule` | main.py:59-106 | Definition: `InvalidInput`, or the result of the loop from the principal. |
| `LoanEngine.Summary` | main.py:108-117 | Definition: the result fields built from the run. |
| `LoanEngine.Calculate` | main.py:52-118 | Definition of the whole operation as a function. `CalculateLoan` is proved equal to it. |
| `RealArith.Round` | main.py:98-115 | Definition: `round(x, ndigits)` on exact reals. Its meaning is proved in `RoundScaledNearest`, `RoundToCents` and `Round2Error`. |
| `LoanEngine.MonthlyRate` | main.py:55 | The monthly rate times 1200 is the annual percentage rate. |
| `LoanEngine.RecordAll` | main.py:95-103 | Definition: one entry per exact month, each `Recorded`. Its meaning is proved in `RecordedPayments`, `RecordedOutstanding`, `RecordedPaidOff`, `RecordedEntriesAgree` and `RecordedPaymentsDrift`. |
| `LoanEngine.RecordAllAppend` | main.py:95-103 | Appending a month appends its rounded record. |
| `LoanEngine.TotalAppend` | main.py:93 | A running total grows by exactly the appended entry's field. |
| `RealArith.Pow` | main.py:66 | A base of at least 1 gives a power of at least 1, and above 1 for a base above 1 and a positive exponent. So the annuity denominator is positive. |
| `RealArith.Max` | main.py:101 | The maximum is one of its arguments and at least both. |
| `RealArith.HalfEven` | main.py:98-101 | Rounding to a whole number moves the value by at most one half. |
| `RealArith.RoundScaledNearest` | main.py:98-101 | A rounded value is a whole number of units, at most half a unit from the input. |
| `RealArith.RoundToCents` | main.py:98-101 | `round(x, 2)` rounds to whole hundredths. |
| `RealArith.Round2Error` | main.py:98-101 | Rounding to cents moves a value by at most 0.005 and gives a whole number of cents. |
| `RealArith.Round2Tiny` | main.py:101 | A balance in [0, 0.005] is recorded as 0.00. |
| `RealArith.Round2AboveHalfCent` | main.py:101 | A balance above 0.005 is recorded as at least 0.01. |
| `RealArith.Round2NonNegative` | main.py:101 | A non-negative amount never rounds to a negative one. |
| `RealArith.HalfEvenMonotone` | main.py:98 | Rounding to a whole number preserves order. |
| `RealArith.Round2Monotone` | main.py:98 | Rounding to cents preserves order. |
| `LoanProperties.InstallmentFacts` | main.py:79-92 | One month has interest = opening balance times rate, interest + principal = cash paid, and new balance = opening − principal ≥ 0. The cash is either the scheduled payment or the clamped final amount that leaves 0. With a positive rate, or rate 0 and a positive payment, the principal repaid is positive. |
| `LoanProperties.InstallmentFails` | main.py:83-84 | A month fails exactly when the rate is positive and the interest reaches the payment. It then fails with `NonAmortizingPayment`. |
| `LoanProperties.AmortizeTrace` | main.py:70-106 | A successful run extends its prefix. Each new entry is the month computed from the previous balance, which exceeded 0.005. The run has at most `cap` and at most 3601 entries. Unless a cap stopped it, the balance left is ≤ 0.005. |
| `LoanProperties.AmortizeErrorKind` | main.py:83-84 | The loop can only fail with `NonAmortizingPayment`. |
| `LoanProperties.AmortizeSucceeds` | main.py:77-92 | Once a month's payment exceeds its interest, no later month can fail. |
| `LoanProperties.ValidationIff` | main.py:59-60 | The result is `InvalidInput` if and only if principal ≤ 0, term ≤ 0, or rate < 0. |
| `LoanProperties.CalculateFailure` | main.py:77-84 | A valid request fails as non-amortizing exactly when its loop fails. |
| `LoanProperties.AmortizeFailsIff` | main.py:77-84 | From a fresh start, the loop fails if and only if the cap allows a month, the rate is positive, the balance exceeds 0.005, and the first interest reaches the payment. |
| `LoanProperties.NonAmortizingIff` | main.py:79-84 | A valid request fails with `NonAmortizingPayment` if and only if the rate is positive, the principal exceeds 0.005, and the scheduled payment is at most the first month's interest. |
| `LoanProperties.BasePaymentValue` | main.py:63-66 | At rate 0, base × n = P. At rate r > 0, with q = (1+r)^n > 1, base × (q − 1) = P·r·q. |
| `LoanProperties.BaseExceedsInterest` | main.py:63-66 | The base payment exceeds the first month's interest P·r. |
| `LoanProperties.WellFormedSucceeds` | main.py:63-84 | A request meeting all four field constraints, including extra ≥ 0, never fails. |
| `LoanProperties.ScheduleShape` | main.py:76-78 | Entries number at most n + 600 and at most 3601. Months are 1, 2, … in order, and each month opens above 0.005. On a normal exit the final balance is ≤ 0.005. |
| `LoanProperties.FollowsEntry` | main.py:79-92 | In a run, each entry satisfies the component identities, and every entry except the last pays the full scheduled payment. |
| `LoanProperties.ScheduleEntries` | main.py:79-93 | Every unrounded entry satisfies interest = opening × r, interest + principal = payment, and balance = opening − principal ≥ 0. The payment is at most the scheduled payment, and equal to it except in the last month. |
| `LoanProperties.FollowsDecreasing` | main.py:83-92 | With a positive rate or a positive payment, each month strictly lowers the balance without going below 0. |
| `LoanProperties.BalanceDecreases` | main.py:83-92 | With extra ≥ 0, every month strictly lowers the balance and leaves it ≥ 0. |
| `LoanProperties.PaidSplits` | main.py:79-93 | Over any prefix, cash paid = interest paid + principal − balance then owed. |
| `LoanProperties.PaymentsCoverPrincipalAndInterest` | main.py:79-108 | Over a whole run, unrounded cash paid = unrounded interest + principal − final balance. |
| `LoanProperties.RecordedPaymentsDrift` | main.py:98-108 | The sum of payments rounded per entry differs from the exact sum by at most 0.005 per entry. |
| `LoanProperties.TotalsWithinRounding` | main.py:108-113 | `total_interest` is within 0.005 of the exact interest sum. `total_payment` is within 0.005 of the sum of recorded payments, and within 0.005 × (months + 1) of the exact cash paid. |
| `LoanProperties.RecordedLength` | main.py:105-114 | `payoff_months` = the schedule length, which is ≤ n + 600 and ≤ 3601. Recorded months are 1, 2, … in order. |
| `LoanProperties.RecordedPayments` | main.py:86-111 | Recorded balances are ≥ 0. Every recorded payment is ≤ `monthly_payment`, and equal to it except in the last month. |
| `LoanProperties.RecordedOutstanding` | main.py:77-101 | Every recorded balance before the last is at least 0.01, so no earlier entry shows the loan as paid off. |
| `LoanProperties.RecordedPaidOff` | main.py:77-101 | If no cap stopped the loop, the last recorded balance is exactly 0.00. |
| `LoanProperties.RecordedEntriesAgree` | main.py:95-103 | In every entry of a successful result's schedule, the recorded interest plus the recorded principal is within one cent of the recorded payment. |
| `LoanProperties.OwedClosedForm` | main.py:66 | The recurrence `Owed` (balance after k unclamped months) satisfies r·Owed(k) = P·r·q^k − pay·(q^k − 1), where q = 1 + r. |
| `LoanProperties.OwedInterestFree` | main.py:64 | At rate 0, Owed(k) = P − k·pay. |
| `LoanProperties.BasePaymentRetiresLoan` | main.py:63-66 | Paying the base payment for n months at rate r leaves exactly 0 owing. |
| `LoanProperties.OwedFalls` | main.py:79-92 | A payment above P·r makes what is owed fall every month, and never rise above P. |
| `LoanProperties.AmortizeFollowsOwed` | main.py:77-106 | While `Owed` stays above 0.005 and reaches 0 at month n, the loop tracks it without clamping. It stops after exactly n months, with balance 0, for any n ≤ 3601. |
| `LoanProperties.LastMonthOwed` | main.py:63-92 | What is owed going into month n, grown by one month of interest, equals the base payment. |
| `LoanProperties.LastMonthAbove` | main.py:63-92 | If the base payment exceeds 0.005·(1 + r), more than 0.005 is still owed going into month n. |
| `LoanProperties.PaidOffOnTerm` | main.py:63-114 | With no extra payment, n ≤ 3601 and a base payment above 0.005·(1 + r), the loan is paid off in exactly n months, the last recorded balance is 0.00, and every recorded payment equals `monthly_payment`. |
| `LoanProperties.InterestFreePaidOffOnTerm` | main.py:63-114 | At rate 0 with no extra payment, n ≤ 3601 and P/n > 0.005, `payoff_months` = n. |

## Left out

- The web application is not modelled, because it is transport plumbing:
  - the FastAPI app and the CORS middleware (main.py:7-15);
  - the routes `/`, `/api/hello` and `/test` (main.py:42-49, 121-137);
  - server start-up with uvicorn and the `PORT` environment variable
    (main.py:140-143).
- HTTP status codes and error messages are not modelled. The two
  `HTTPException`s become the two-valued `LoanError`.
- Floating point is not modelled: every amount is an exact real. Four
  consequences:
  - `round` is exact ties-to-even on reals, not Python's rounding of the
    nearest binary double, so published figures are not reproduced bit for
    bit;
  - the float `(1 + r) ** n` at main.py:66 has two failures that cannot
    occur here. For a tiny `r` it equals 1, and the division raises
    `ZeroDivisionError`. For a large `r` and `n` it exceeds the double range
    and raises `OverflowError`: `annual_rate = 120` with `term_months = 7500`
    gives 1.1^7500 ≈ 10^310. For such inputs the code fails with an
    unhandled error, while `Calculate` and `WellFormedSucceeds` return a
    schedule;
  - float residue in the final balance is not modelled;
  - the residue is also where `RecordedPaidOff` differs from the code. A final balance equal to the double nearest 0.005 stops
    the loop, because it is not above 0.005. Python's `round` then records it
    as 0.01, because that double lies just above 0.005. The model records
    0.00.
- `LoanResult.schedule` is `Optional[...] = None` at main.py:39. The model
  drops the option and uses a plain sequence, because the engine always
  passes the list (main.py:116).
- Pydantic field validation (main.py:19-22) is not modelled as a mechanism.
  `LoanInput` accepts any values, and the constraints appear only as the
  hypothesis `WellFormed`. The defaulting of a missing extra payment to 0
  (main.py:57) is not modelled either: the extra payment is always given.
- The engine does not reject a negative extra payment: main.py:59 checks only
  principal, term and rate. Only the request model rejects it, with
  `confloat(ge=0)` at main.py:22. The model follows the engine, so
  `ValidationIff` states exactly the code's three conditions. `BalanceDecreases` and
  `WellFormedSucceeds` take extra ≥ 0 as a hypothesis.
- The `apr` field is modelled as `Round(annualRate, 3)`, but no property is
  stated about it: it only echoes the input.
- It is not proved that a larger extra payment shortens the payoff and lowers
  the interest. That property compares two runs; every property here is
  about a single run.
- `PaidOffOnTerm`: assumes the base payment exceeds 0.005·(1 + r). By
  `LastMonthAbove`, that means more than 0.005 is owed going into month n.
  Otherwise the loop stops before month n, because it ends as soon as at
  most 0.005 is owed.
- `InterestFreePaidOffOnTerm`: assumes P/n > 0.005, for the same reason. A
  zero-rate loan with no extra payment takes exactly n months only when
  P/n > 0.005.
- `RealArith.Pow`: its contract states only the lower bounds the annuity
  formula needs. Its value is used through its definition.
