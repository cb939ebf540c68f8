/**
 * The state of the payment page component (src/pages/PaymentPage.tsx): the
 * loaded loan, the selected due ids, the payment option, the discount and
 * the payment method, and the handlers that change them. The route's
 * `loanId` and the `dueId` query parameter are fixed for the page's life.
 */
module PaymentPageState {
  import opened Wrappers
  import opened Loans
  import opened PaymentRules

  class PaymentPage {
    const loanId: string
    const dueId: Option<string>
    var loan: Option<seq<Due>>
    var selectedDues: seq<string>
    var payMethod: PaymentMethod
    var paymentOption: PaymentOption
    var discount: real

    /** The page's initial state, before the loan has arrived. */
    constructor (loanId: string, dueId: Option<string>)
      ensures this.loanId == loanId && this.dueId == dueId
      ensures loan == None && selectedDues == []
      ensures payMethod == Cash && paymentOption == Single && discount == 0.0
    {
      this.loanId := loanId;
      this.dueId := dueId;
      loan := None;
      selectedDues := [];
      payMethod := Cash;
      paymentOption := Single;
      discount := 0.0;
    }

    /** The load effect's completion: store the fetched loan, then select the requested
        due if it exists, or, with no due requested, this month's unpaid due when the
        option the effect started under (`startedIn`, captured when the fetch was
        issued) was "single". The effect re-runs on every option change, so a fetch
        may complete after the option has moved on. */
    method LoadLoan(dues: seq<Due>, now: YearMonth, startedIn: PaymentOption)
      modifies this
      ensures loan == Some(dues)
      ensures HasDueId(dueId) && (exists d :: d in dues && d.id == dueId.value) ==>
                selectedDues == [dueId.value]
      ensures HasDueId(dueId) && !(exists d :: d in dues && d.id == dueId.value) ==>
                selectedDues == old(selectedDues)
      ensures !HasDueId(dueId) && startedIn == Single ==>
                selectedDues == ThisMonthSelection(dues, now)
      ensures !HasDueId(dueId) && startedIn != Single ==> selectedDues == old(selectedDues)
      ensures paymentOption == old(paymentOption) && discount == old(discount) && payMethod == old(payMethod)
    {
      loan := Some(dues);
      if HasDueId(dueId) {
        var found := FindIndex(dues, HasId(dueId.value));
        if found.Some? {
          selectedDues := [dues[found.value].id];
        }
      } else if startedIn == Single {
        selectedDues := ThisMonthSelection(dues, now);
      }
    }

    /** `handleOptionChange`: switch mode, reset the discount and re-derive the selection. */
    method HandleOptionChange(option: PaymentOption, now: YearMonth)
      modifies this
      ensures paymentOption == option && discount == 0.0
      ensures old(loan).None? ==> selectedDues == old(selectedDues)
      ensures old(loan).Some? && option == Single ==> selectedDues == ThisMonthSelection(old(loan).value, now)
      ensures old(loan).Some? && option == Settlement ==> selectedDues == PendingIds(old(loan).value)
      ensures old(loan).Some? && option == Multiple ==> selectedDues == []
      ensures loan == old(loan) && payMethod == old(payMethod)
    {
      paymentOption := option;
      discount := 0.0;
      if loan.None? {
        return;
      }
      if option == Single {
        selectedDues := ThisMonthSelection(loan.value, now);
      } else if option == Settlement {
        selectedDues := PendingIds(loan.value);
      } else {
        selectedDues := [];
      }
    }

    /** `toggleDue`: deselect the id if selected, otherwise select it last. */
    method ToggleDue(id: string)
      modifies this`selectedDues
      ensures selectedDues == Toggle(old(selectedDues), id)
    {
      if id in selectedDues {
        selectedDues := Without(selectedDues, id);
      } else {
        selectedDues := selectedDues + [id];
      }
    }

    /** The discount input's change handler. */
    method SetDiscount(value: real)
      modifies this`discount
      ensures discount == value
    {
      discount := value;
    }

    /** The payment-method drop-down's change handler. */
    method SetMethod(m: PaymentMethod)
      modifies this`payMethod
      ensures payMethod == m
    {
      payMethod := m;
    }

    /** `handlePay` up to the network call: refused with an empty selection,
        otherwise the request body built from the current state. */
    method HandlePay() returns (r: Result<Payment, PayError>)
      ensures r.Failure? <==> selectedDues == []
      ensures r == Checkout(loanId, payMethod, paymentOption, loan, selectedDues, discount)
    {
      if |selectedDues| == 0 {
        return Failure(NoSelection);
      }
      r := Checkout(loanId, payMethod, paymentOption, loan, selectedDues, discount);
    }
  }

  /** Switching from a manual "multiple" selection to "single" discards the manual
      selection and the discount, and selects by the current-month rule. */
  method SwitchToSingleAfterManualSelection(page: PaymentPage, dues: seq<Due>, now: YearMonth, id: string, d: real)
    requires page.loan == Some(dues) && page.paymentOption == Multiple
    modifies page
    ensures page.selectedDues == ThisMonthSelection(dues, now) && page.discount == 0.0
  {
    page.ToggleDue(id);
    page.SetDiscount(d);
    page.HandleOptionChange(Single, now);
  }

  /** A fetch issued in "single" mode that completes after the user has switched to
      "multiple" still applies the current-month rule: the page ends in "multiple"
      with this month's due selected. */
  method StaleLoadAfterOptionChange(page: PaymentPage, dues: seq<Due>, now: YearMonth)
    requires !HasDueId(page.dueId)
    modifies page
    ensures page.paymentOption == Multiple && page.selectedDues == ThisMonthSelection(dues, now)
  {
    page.HandleOptionChange(Multiple, now);
    page.LoadLoan(dues, now, Single);
  }
}
