# Loan management front-end: payment selection, customer validation, EMI preview

This Dafny project models the three pages of the loan-management web client
that hold real logic:

- **Payment page** (`src/pages/PaymentPage.tsx`). The page holds the loan's
  dues, the selected due ids, the payment option (`single`, `multiple` or
  `settlement`), the discount and the payment method.
  - The load effect selects the due named by the `dueId` query parameter, or
    this month's first unpaid due.
  - `handleOptionChange` resets the discount and re-derives the selection:
    this month's due, all unpaid dues, or nothing.
  - `toggleDue` adds or removes one id.
  - `totalAmount` sums the selected dues.
  - `finalAmount` takes the discount off in settlement mode, clamped at zero.
  - `filteredDues` decides which dues are listed.
  - `handlePay` refuses an empty selection. Otherwise it builds the payment
    request.

  The pure rules are functions in module `PaymentRules`. The component state
  is class `PaymentPageState.PaymentPage`, whose handlers are methods.
- **Customer form** (`src/pages/CustomerInfo.tsx`). `validateForm` builds an
  error map from four checks:
  - a name that is blank after `trim()`;
  - a phone that is blank, or is not exactly ten digits as typed;
  - a non-empty income whose `Number(...)` is `<= 0`;
  - a date of birth after "now".

  It stores the map and reports whether it is empty. `handleAdd` submits
  only a valid form. Module `JsText` models the JavaScript `trim` and
  `Number(string)` that the checks rely on. Module `CustomerForm` holds the
  per-field checks and the class `CustomerInfoPage`.
- **Loan calculator** (`src/pages/LoanCalculator.tsx`). `calculateEMI` does
  the following:
  - It computes the monthly rate `interest / 100 / 12`.
  - It computes the annuity instalment `P·r·(1+r)^n / ((1+r)^n − 1)`.
  - It builds a flat schedule of `duration` rows numbered 1..duration, each
    carrying the instalment rounded to cents.

  Module `LoanCalculator` states this over exact reals. It also proves that
  paying the instalment every month repays the loan exactly.

The due record follows `src/context/AppContext.tsx:17-23`. The due date is
already reduced to a `(year, month)` pair, and the status is `Paid` or
`Unpaid`. Amounts are `real`. The current month, the current instant and the
loaded loan are parameters.

Three behaviours of the code are easy to misread. The model follows the code
in each:

- The code has no zero-rate branch and no input check for the EMI. It divides
  by `(1+r)^n − 1`, so the model requires that denominator to be non-zero
  when the schedule is non-empty. `LoanCalculator.ZeroRateUndefined` shows
  that a zero rate never meets this requirement.
- An explicit `dueId` is selected only when a due with that id exists.
  Otherwise the selection is left unchanged.
- Only the final amount is clamped (`max(total − discount, 0)`). The posted
  discount is the value entered.

## Model

| member | source | states |
|---|---|---|
| `PaymentRules.Filter` | src/pages/PaymentPage.tsx:76-78 | keeps exactly the dues the callback accepts and nothing else; empty exactly when no due is accepted |
| `PaymentRules.FilterAppend` | src/pages/PaymentPage.tsx:76-78 | filtering keeps list order: it distributes over concatenation |
| `PaymentRules.FilterCongruent` | src/pages/PaymentPage.tsx:94-98 | two callbacks that agree on every due of the list select the same dues |
| `PaymentRules.FindIndex` | src/pages/PaymentPage.tsx:66-73 | `find` returns the first accepted due, and nothing only when no due is accepted |
| `PaymentRules.FindIsFirstOfFilter` | src/pages/PaymentPage.tsx:151-163 | `find` and `filter` with the same callback agree: the found due is the first filtered one |
| `PaymentRules.HasDueId` | src/pages/PaymentPage.tsx:31 | the truthiness of `dueId`: a missing parameter and an empty one are both false; no contract of its own |
| `PaymentRules.ThisMonthSelection` | src/pages/PaymentPage.tsx:61-74 | the "single" selection has at most one id; it is empty exactly when no unpaid due falls in the current month and year; otherwise it is the id of the first such due |
| `PaymentRules.PendingIds` | src/pages/PaymentPage.tsx:75-79 | the settlement selection holds the id of every unpaid due and only ids of unpaid dues, whatever the date |
| `PaymentRules.SettlementSelectsAllListed` | src/pages/PaymentPage.tsx:165-166 | (follows by unfolding) the settlement selection is the ids of the listed dues, in list order |
| `PaymentRules.SingleSelectsFirstListed` | src/pages/PaymentPage.tsx:155-163 | the "single" selection is the first listed due; more dues may be listed than selected |
| `PaymentRules.Without` | src/pages/PaymentPage.tsx:88 | removes every occurrence of the id, keeps every other id, and is strictly shorter when the id was present |
| `PaymentRules.WithoutAbsent` | src/pages/PaymentPage.tsx:88 | removing an absent id changes nothing |
| `PaymentRules.WithoutAppend` | src/pages/PaymentPage.tsx:88 | removal keeps the order of the remaining ids: it distributes over concatenation |
| `PaymentRules.WithoutAt` | src/pages/PaymentPage.tsx:88 | in a selection without repeats, removal deletes exactly the one position holding the id |
| `PaymentRules.Toggle` | src/pages/PaymentPage.tsx:85-91 | the id is selected afterwards exactly when it was not before; other ids keep their membership; an absent id is appended at the end |
| `PaymentRules.ToggleTwiceRestores` | src/pages/PaymentPage.tsx:85-91 | toggling an absent id twice gives back the original selection |
| `PaymentRules.ToggleTwiceMovesToEnd` | src/pages/PaymentPage.tsx:85-91 | (follows by unfolding) toggling a selected id twice leaves it once, at the end |
| `PaymentRules.WithoutKeepsDistinct` | src/pages/PaymentPage.tsx:88 | removing an id keeps a selection free of repeats |
| `PaymentRules.ToggleKeepsDistinct` | src/pages/PaymentPage.tsx:85-91 | a selection without repeats stays without repeats |
| `PaymentRules.TotalAmount` | src/pages/PaymentPage.tsx:94-98 | the total is 0 when no loan is loaded and 0 for an empty selection |
| `PaymentRules.TotalIgnoresRepeats` | src/pages/PaymentPage.tsx:94-98 | the total depends only on which ids are selected, so a repeated id does not count its due twice |
| `Loans.SumCons` | src/pages/PaymentPage.tsx:97 | (follows by unfolding) the sum of a list with a due in front adds that due's amount |
| `PaymentRules.SumFilterStep` | src/pages/PaymentPage.tsx:94-98 | (follows by unfolding) the first due adds its amount to a filtered sum exactly when the callback accepts it |
| `PaymentRules.SumSplits` | src/pages/PaymentPage.tsx:97 | the sum over a filter splits into the sums over two disjoint filters that cover it |
| `PaymentRules.TotalAfterToggle` | src/pages/PaymentPage.tsx:85-98 | toggling an id changes the total by exactly the amounts of the dues with that id: added when it was absent, taken off when it was present |
| `PaymentRules.SettlementTotal` | src/pages/PaymentPage.tsx:75-98 | with unique due ids, the settlement total is the sum of the unpaid dues |
| `PaymentRules.FinalAmount` | src/pages/PaymentPage.tsx:100-104 | in settlement: never negative, `total − discount` when the discount is at most the total, 0 when it is at least the total, at most the total for a non-negative discount and total; otherwise the total, whatever the discount |
| `PaymentRules.FilteredDues` | src/pages/PaymentPage.tsx:151-169 | with a `dueId` only the dues with that id; in "single" all unpaid dues of the current month; in "multiple" and "settlement" all unpaid dues |
| `PaymentRules.Checkout` | src/pages/PaymentPage.tsx:106-126 | refused exactly when nothing is selected; otherwise `count` is the selection's length, `dues` the selection, `discount` the discount in settlement and 0 otherwise, and `amount` the final amount |
| `PaymentRules.PaymentAmountMatchesDiscount` | src/pages/PaymentPage.tsx:100-125 | with non-negative due amounts, the posted amount is the selected total less the posted discount, clamped at zero, in every mode |
| `PaymentRules.SettlementPayment` | src/pages/PaymentPage.tsx:75-125 | a settlement with unique ids and an unpaid due is accepted; its count is the number of unpaid dues and its amount their sum less the discount, clamped at zero |
| `Loans.SumAmounts` | src/pages/PaymentPage.tsx:97 | the `reduce` summing `dueAmount`; no contract of its own: SumCons, SumAmountsNonNegative and SumSplits state its properties |
| `Loans.Ids` | src/pages/PaymentPage.tsx:78 | `.map((d) => d._id)`: as many ids as dues, position by position |
| `Loans.SumAmountsNonNegative` | src/pages/PaymentPage.tsx:97 | a sum of non-negative due amounts is non-negative |
| `PaymentPageState.PaymentPage.constructor` | src/pages/PaymentPage.tsx:14-18 | no loan and no selection, "single" mode, zero discount, cash |
| `PaymentPageState.PaymentPage.LoadLoan` | src/pages/PaymentPage.tsx:24-54 | stores the loan; selects exactly `[dueId]` when a due has that id and leaves the selection unchanged when none has; with no `dueId`, selects this month's due when the option captured at the fetch's start was "single", and otherwise leaves the selection alone; the option, discount and method are unchanged |
| `PaymentPageState.StaleLoadAfterOptionChange` | src/pages/PaymentPage.tsx:24-83 | a fetch issued in "single" that completes after a switch to "multiple" leaves the page in "multiple" with this month's due selected |
| `PaymentPageState.PaymentPage.HandleOptionChange` | src/pages/PaymentPage.tsx:56-83 | sets the option and a zero discount; leaves the selection alone while no loan is loaded; otherwise selects this month's due, every unpaid due, or nothing |
| `PaymentPageState.PaymentPage.ToggleDue` | src/pages/PaymentPage.tsx:85-91 | the selection becomes its toggle, and nothing else changes |
| `PaymentPageState.PaymentPage.SetDiscount` | src/pages/PaymentPage.tsx:271 | the discount becomes the entered value |
| `PaymentPageState.PaymentPage.SetMethod` | src/pages/PaymentPage.tsx:292 | the payment method becomes the chosen one |
| `PaymentPageState.PaymentPage.HandlePay` | src/pages/PaymentPage.tsx:106-126 | refused exactly when the selection is empty; otherwise the request built from the current state |
| `PaymentPageState.SwitchToSingleAfterManualSelection` | src/pages/PaymentPage.tsx:56-91 | after a manual toggle and a discount, switching to "single" discards both: zero discount and the current-month selection |
| `JsText.TrimStart` | src/pages/CustomerInfo.tsx:36 | drops exactly the leading white space |
| `JsText.TrimEnd` | src/pages/CustomerInfo.tsx:36 | drops exactly the trailing white space |
| `JsText.Trim` | src/pages/CustomerInfo.tsx:36-37 | `trim()`; no contract of its own: TrimStart, TrimEnd, TrimEmptyIff and TrimUnchanged state what it does |
| `JsText.TrimUnchanged` | src/pages/CustomerInfo.tsx:36-37 | a string that neither starts nor ends with white space is its own trim |
| `JsText.TrimEmptyIff` | src/pages/CustomerInfo.tsx:36-37 | `trim()` gives the empty string exactly when every character is white space |
| `JsText.ToNumber` | src/pages/CustomerInfo.tsx:40 | `Number(string)`: only a literal with a leading minus sign gives a negative number or negative infinity |
| `JsText.BlankIsZero` | src/pages/CustomerInfo.tsx:40 | `Number` of a blank string is 0 |
| `JsText.DigitsToNumber` | src/pages/CustomerInfo.tsx:40 | `Number` of a plain digit string is its decimal value |
| `JsText.NegatedDigitsToNumber` | src/pages/CustomerInfo.tsx:40 | `Number` of a minus sign followed by digits is the negated value |
| `JsText.UnsignedPointed` | src/pages/CustomerInfo.tsx:40 | the unsigned decimal reading of `whole.fraction` is the whole part plus the fraction digits scaled by ten to the number of fraction digits |
| `JsText.PointedValue` | src/pages/CustomerInfo.tsx:40 | the value of a decimal `whole.fraction` is never negative, and is 0 exactly when both digit runs are 0 |
| `JsText.PointedToNumber` | src/pages/CustomerInfo.tsx:40 | `Number` of `whole.fraction` is its decimal value, and of `-whole.fraction` the negated value |
| `CustomerForm.IsTenDigits` | src/pages/CustomerInfo.tsx:38 | `/^\d{10}$/.test(phone)` on the untrimmed phone; no contract of its own: PhoneError states its role |
| `CustomerForm.NameError` | src/pages/CustomerInfo.tsx:36 | a name error exactly when every character is white space, with message "Name is required" |
| `CustomerForm.PhoneError` | src/pages/CustomerInfo.tsx:37-39 | a blank phone gets only "Phone is required"; "Phone must be 10 digits" exactly when the phone is not blank and not ten ASCII digits; ten digits pass |
| `CustomerForm.IncomeNotPositive` | src/pages/CustomerInfo.tsx:40 | the condition `form.income && Number(form.income) <= 0`; no contract of its own: IncomeError states it case by case |
| `CustomerForm.IncomeError` | src/pages/CustomerInfo.tsx:40-41 | an empty income never errors; a non-empty income errors when it converts to zero, a negative number or negative infinity, and passes when it converts to a positive number, positive infinity or NaN; any error is "Income must be greater than 0" |
| `CustomerForm.IncomeOfBlankOrDigits` | src/pages/CustomerInfo.tsx:40-41 | a non-empty blank income errors, and a digit-string income errors exactly when its value is 0 |
| `CustomerForm.NegativeIncomeRefused` | src/pages/CustomerInfo.tsx:40-41 | a negative income errors |
| `CustomerForm.PointedIncomeError` | src/pages/CustomerInfo.tsx:40-41 | an income `whole.fraction` (such as "0.0" or "1.5") errors exactly when its value is 0 |
| `CustomerForm.NegativePointedIncomeRefused` | src/pages/CustomerInfo.tsx:40-41 | an income `-whole.fraction` (such as "-0.5" or "-0.0") always errors |
| `CustomerForm.DobError` | src/pages/CustomerInfo.tsx:42-43 | an error exactly when a parsed date of birth is later than now; an empty date never errors |
| `CustomerForm.NameStep` | src/pages/CustomerInfo.tsx:36 | (follows by unfolding) the name check's update of the map agrees with the name rule |
| `CustomerForm.PhoneStep` | src/pages/CustomerInfo.tsx:37-39 | (follows by unfolding) the phone check's if/else-if update of the map agrees with the phone rule |
| `CustomerForm.IncomeStep` | src/pages/CustomerInfo.tsx:40-41 | (follows by unfolding) the income check's update of the map agrees with the income rule |
| `CustomerForm.DobStep` | src/pages/CustomerInfo.tsx:42-43 | (follows by unfolding) the date-of-birth check's update of the map agrees with the date rule |
| `CustomerForm.Collect` | src/pages/CustomerInfo.tsx:34-44 | the map the checks leave holds each failed check's message under its key and nothing else |
| `CustomerForm.FormErrors` | src/pages/CustomerInfo.tsx:34-47 | each of the four keys is present exactly when its check fails, with that check's message; no other key can occur |
| `CustomerForm.ValidIffAllChecksPass` | src/pages/CustomerInfo.tsx:45-46 | the error map is empty exactly when all four checks pass |
| `CustomerForm.CustomerInfoPage.constructor` | src/pages/CustomerInfo.tsx:8-17 | the form starts empty, with no errors |
| `CustomerForm.CustomerInfoPage.ValidateForm` | src/pages/CustomerInfo.tsx:34-47 | the stored errors are the form's error map, and the result is true exactly when that map is empty |
| `CustomerForm.CustomerInfoPage.HandleAdd` | src/pages/CustomerInfo.tsx:49-50 | a request is produced exactly when validation leaves no errors, and it carries the form |
| `LoanCalculator.MonthlyRate` | src/pages/LoanCalculator.tsx:23 | the rate times 1200 is the annual percentage; positive for a positive percentage, zero for zero |
| `LoanCalculator.Pow` | src/pages/LoanCalculator.tsx:25-26 | `Math.pow` for a whole exponent; no contract of its own: PowAboveOne and PowOfOne state its properties |
| `LoanCalculator.PowAboveOne` | src/pages/LoanCalculator.tsx:25-26 | a base above 1 raised to a positive power stays above 1 |
| `LoanCalculator.PowOfOne` | src/pages/LoanCalculator.tsx:25-26 | 1 raised to any power is 1 |
| `LoanCalculator.Emi` | src/pages/LoanCalculator.tsx:24-26 | the instalment satisfies `emi · ((1+r)^n − 1) = P · r · (1+r)^n` |
| `LoanCalculator.PositiveRateDefined` | src/pages/LoanCalculator.tsx:24-26 | any positive rate gives a non-zero denominator |
| `LoanCalculator.ZeroRateUndefined` | src/pages/LoanCalculator.tsx:24-26 | a zero rate with at least one month makes the denominator zero: the code has no zero-rate branch |
| `LoanCalculator.EmiPositive` | src/pages/LoanCalculator.tsx:24-26 | a positive principal, a positive rate and at least one month give a positive instalment |
| `LoanCalculator.BalanceClosedForm` | src/pages/LoanCalculator.tsx:24-26 | the balance after k monthly payments has the annuity closed form |
| `LoanCalculator.EmiRepaysLoan` | src/pages/LoanCalculator.tsx:24-26 | paying the instalment every month for `duration` months leaves a balance of exactly zero |
| `LoanCalculator.Round2` | src/pages/LoanCalculator.tsx:30 | the result is a whole number of cents, within half a cent of the amount, with ties going away from zero (strictly above `x − 0.005` for `x ≥ 0`, strictly below `x + 0.005` for `x < 0`), which makes it the nearest cent; non-negative amounts stay non-negative, and amounts of at least half a cent give at least one cent |
| `LoanCalculator.CalculateEmi` | src/pages/LoanCalculator.tsx:22-33 | `duration` rows (none for a duration of 0 or less), numbered 1..duration in increasing order, all with the same amount in whole cents, within half a cent of the instalment |
| `LoanCalculator.ApproveVisibleIff` | src/pages/LoanCalculator.tsx:121 | (follows by unfolding) the approve button is shown exactly when the duration is at least one month |
| `LoanCalculator.ScheduleNonNegative` | src/pages/LoanCalculator.tsx:28-31 | with a positive principal and rate, every row's amount is non-negative |

## Left out

- Every network call is left out: `fetch`, `res.ok` handling, popups, `alert`, navigation and console logging (`PaymentPage.tsx:24-29, 114-141`, `CustomerInfo.tsx:22-28, 52-75, 86-92`, `LoanCalculator.tsx:14-18, 35-48`). The loaded loan is a parameter of `LoadLoan`. `HandlePay` and `HandleAdd` return the request body instead of posting it.
- The form reset after a successful customer POST (`CustomerInfo.tsx:63-72`) is left out. It depends on the server's response.
- The transaction id `"TXN" + Date.now()` is left out. It depends on the wall clock.
- `new Date(...)` parsing and time zones are left out. Due dates arrive as `(year, month)`. The date of birth arrives as empty, unparsable, or an instant in milliseconds. The current month and instant are parameters.
- IEEE double arithmetic is left out. Amounts and the EMI are exact reals, and `Math.pow` is exact for whole exponents. `JsText.ToNumber` does not overflow to Infinity or underflow to 0 the way a double does, so `"1e-400"` is positive here and 0 in JavaScript. `toFixed(2)` is rounding half away from zero on the exact value. `toFixed`'s exponential output for values of 10^21 or more is not modelled.
- `LoanCalculator.CalculateEmi`: a fractional or NaN `duration` is not modelled. The duration is a whole number, and a duration of 0 or less gives an empty schedule, as `Array.from` does.
- `LoanCalculator.CalculateEmi`: when the denominator `(1+r)^n − 1` is zero and the schedule is non-empty, the code fills the schedule with NaN or Infinity. The model requires a non-zero denominator instead.
- Late/on-time classification is not computed by any of these pages. It is left out.
- A loan record without `dues`, and a due without `_id`, are not modelled. Every loan carries a list of dues, and every due has an id.
- The last branch of `filteredDues` (`PaymentPage.tsx:168`) is not modelled. It is unreachable: `paymentOption` only ever holds the three values its radio buttons set.
- React's deferred state updates are not modelled. Each handler's updates take effect when it returns. The load effect re-runs whenever `paymentOption` changes, which is modelled by calling `LoadLoan` again with the option the fetch started under; fetches may complete in any order, and `StaleLoadAfterOptionChange` shows one that completes after the option has moved on.
- The checkbox visibility rule (`PaymentPage.tsx:228-236`) is not modelled. `ToggleDue` accepts any id.
- `handleChange`, the search box, `goToCalculator` and the customer table (`CustomerInfo.tsx:30-32, 78-92`) are not modelled. They are input plumbing and navigation.
- The other pages (`CustomerLoanList.tsx`, `LoanDueTable.tsx`, `PaymentDetailsPage.tsx`) only fetch and render. `AppContext.tsx` is context plumbing, and its `Due` interface is used only as the shape of `Loans.Due`. `Navbar.tsx`, `Popup.tsx` and `App.tsx` are not part of this model.
