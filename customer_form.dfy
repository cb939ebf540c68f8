/**
 * The customer intake form (src/pages/CustomerInfo.tsx): `validateForm`
 * builds a map from field name to message out of four checks and stores it
 * as the component's `errors`; `handleAdd` submits the form only when that
 * map is empty.
 */
module CustomerForm {
  import opened Wrappers
  import opened JsText

  /** The date-of-birth input after `new Date(...)`: left empty, unparsable
      (an Invalid Date, whose comparisons are all false), or an instant in
      milliseconds since the epoch. */
  datatype DateInput = NoDate | InvalidDate | Date(time: int)

  /** The form's fields; `contact` and `occupation` are never validated. */
  datatype Form = Form(
    name: string,
    phone: string,
    contact: string,
    occupation: string,
    income: string,
    dob: DateInput)

  /** The keys `validateForm` may set in its error object. */
  datatype Field = Name | Phone | Income | Dob

  const NameRequired: string := "Name is required"
  const PhoneRequired: string := "Phone is required"
  const PhoneDigits: string := "Phone must be 10 digits"
  const IncomePositive: string := "Income must be greater than 0"
  const DobInFuture: string := "Date of Birth cannot be in the future"

  /** `/^\d{10}$/.test(phone)`: exactly ten ASCII digits and nothing else. */
  predicate IsTenDigits(phone: string) {
    |phone| == 10 && forall i :: 0 <= i < |phone| ==> '0' <= phone[i] <= '9'
  }

  /** The `name` check: a name that is blank after `trim()` is missing. */
  function NameError(name: string): (r: Option<string>)
    ensures r.Some? <==> forall i :: 0 <= i < |name| ==> IsJsWhitespace(name[i])
    ensures r.Some? ==> r.value == NameRequired
  {
    TrimEmptyIff(name);
    if Trim(name) == [] then Some(NameRequired) else None
  }

  /** The `phone` check: a blank phone is missing; any other phone must be
      exactly ten digits as typed, untrimmed. */
  function PhoneError(phone: string): (r: Option<string>)
    ensures (forall i :: 0 <= i < |phone| ==> IsJsWhitespace(phone[i])) ==> r == Some(PhoneRequired)
    ensures r == Some(PhoneDigits) <==>
              (exists i :: 0 <= i < |phone| && !IsJsWhitespace(phone[i])) && !IsTenDigits(phone)
    ensures IsTenDigits(phone) ==> r == None
    ensures r.Some? ==> r.value == PhoneRequired || r.value == PhoneDigits
  {
    TrimEmptyIff(phone);
    if Trim(phone) == [] then Some(PhoneRequired)
    else if !IsTenDigits(phone) then Some(PhoneDigits)
    else None
  }

  /** `form.income && Number(form.income) <= 0`: a non-empty income that converts to zero or less. */
  predicate IncomeNotPositive(income: string) {
    income != "" && AtMostZero(ToNumber(income))
  }

  /** The `income` check: an empty income is allowed; any other is refused when it converts
      to zero, a negative number or negative infinity, and allowed when it converts to a
      positive number, positive infinity or NaN (a non-numeric income passes). */
  function IncomeError(income: string): (r: Option<string>)
    ensures income == "" ==> r == None
    ensures income != "" && ToNumber(income).Finite? && ToNumber(income).value <= 0.0 ==> r == Some(IncomePositive)
    ensures income != "" && ToNumber(income) == Infinite(true) ==> r == Some(IncomePositive)
    ensures ToNumber(income).Finite? && ToNumber(income).value > 0.0 ==> r == None
    ensures ToNumber(income) == Infinite(false) || ToNumber(income).NaN? ==> r == None
    ensures r.Some? ==> r.value == IncomePositive && income != ""
  {
    if IncomeNotPositive(income) then Some(IncomePositive) else None
  }

  /** A non-empty income of white space only is refused (it converts to 0), and a
      plain digit string is refused exactly when its value is 0. */
  lemma IncomeOfBlankOrDigits(income: string)
    requires income != ""
    ensures (forall i :: 0 <= i < |income| ==> IsJsWhitespace(income[i])) ==> IncomeError(income).Some?
    ensures AllDigits(income, 10) ==> (IncomeError(income).Some? <==> Positional(income, 10) == 0)
  {
    if AllDigits(income, 10) {
      DigitsToNumber(income);
    }
    if forall i :: 0 <= i < |income| ==> IsJsWhitespace(income[i]) {
      BlankIsZero(income);
    }
  }

  /** A minus sign before digits is always refused. */
  lemma NegativeIncomeRefused(digits: string)
    requires digits != [] && AllDigits(digits, 10)
    ensures IncomeError("-" + digits) == Some(IncomePositive)
  {
    NegatedDigitsToNumber(digits);
  }

  /** A decimal income `whole.fraction` is refused exactly when its value is 0. */
  lemma PointedIncomeError(whole: string, fraction: string)
    requires whole != [] && AllDigits(whole, 10) && AllDigits(fraction, 10)
    ensures IncomeError(whole + "." + fraction).Some? <==> PointedValue(whole, fraction) == 0.0
  {
    var u := whole + "." + fraction;
    var v := PointedValue(whole, fraction);
    PointedToNumber(whole, fraction);
    assert u != "";
    assert IncomeNotPositive(u) <==> v == 0.0;
  }

  /** The digits of a decimal income after a minus sign are always refused. */
  lemma NegativePointedIncomeRefused(whole: string, fraction: string)
    requires whole != [] && AllDigits(whole, 10) && AllDigits(fraction, 10)
    ensures IncomeError("-" + (whole + "." + fraction)) == Some(IncomePositive)
  {
    var u := whole + "." + fraction;
    var v := PointedValue(whole, fraction);
    PointedToNumber(whole, fraction);
    assert "-" + u != "";
    assert IncomeNotPositive("-" + u);
  }

  /** The `dob` check: an empty or unparsable date is allowed; a date after `now` is refused. */
  function DobError(dob: DateInput, now: int): (r: Option<string>)
    ensures r.Some? <==> dob.Date? && dob.time > now
    ensures r.Some? ==> r.value == DobInFuture
  {
    if dob.Date? && dob.time > now then Some(DobInFuture) else None
  }

  /** Records a check's message under its key, when the check fails. */
  function Put(m: map<Field, string>, key: Field, message: Option<string>): map<Field, string> {
    if message.Some? then m[key := message.value] else m
  }

  /** The name check's effect on the map, as `validateForm` writes it. */
  lemma NameStep(m: map<Field, string>, name: string)
    ensures Put(m, Name, NameError(name)) == (if Trim(name) == [] then m[Name := NameRequired] else m)
  {
  }

  /** The phone check's effect on the map, as `validateForm`'s if/else-if writes it. */
  lemma PhoneStep(m: map<Field, string>, phone: string)
    ensures Put(m, Phone, PhoneError(phone)) ==
      (if Trim(phone) == [] then m[Phone := PhoneRequired]
       else if !IsTenDigits(phone) then m[Phone := PhoneDigits] else m)
  {
  }

  /** The income check's effect on the map, as `validateForm` writes it. */
  lemma IncomeStep(m: map<Field, string>, income: string)
    ensures Put(m, Income, IncomeError(income)) ==
      (if IncomeNotPositive(income) then m[Income := IncomePositive] else m)
  {
  }

  /** The date-of-birth check's effect on the map, as `validateForm` writes it. */
  lemma DobStep(m: map<Field, string>, dob: DateInput, now: int)
    ensures Put(m, Dob, DobError(dob, now)) ==
      (if dob.Date? && dob.time > now then m[Dob := DobInFuture] else m)
  {
  }

  /** The map the four checks leave behind, in the order `validateForm` runs them:
      each failed check's message under its key, and nothing else. */
  function Collect(name: Option<string>, phone: Option<string>, income: Option<string>, dob: Option<string>)
    : (errors: map<Field, string>)
    ensures Name in errors <==> name.Some?
    ensures Phone in errors <==> phone.Some?
    ensures Income in errors <==> income.Some?
    ensures Dob in errors <==> dob.Some?
    ensures Name in errors ==> errors[Name] == name.value
    ensures Phone in errors ==> errors[Phone] == phone.value
    ensures Income in errors ==> errors[Income] == income.value
    ensures Dob in errors ==> errors[Dob] == dob.value
  {
    var withName := Put(map[], Name, name);
    var withPhone := Put(withName, Phone, phone);
    var withIncome := Put(withPhone, Income, income);
    Put(withIncome, Dob, dob)
  }

  /** The error map `validateForm` computes for a form at instant `now`. */
  function FormErrors(f: Form, now: int): (errors: map<Field, string>)
    ensures Name in errors <==> NameError(f.name).Some?
    ensures Phone in errors <==> PhoneError(f.phone).Some?
    ensures Income in errors <==> IncomeError(f.income).Some?
    ensures Dob in errors <==> DobError(f.dob, now).Some?
    ensures Name in errors ==> errors[Name] == NameRequired
    ensures Phone in errors ==> errors[Phone] == PhoneError(f.phone).value
    ensures Income in errors ==> errors[Income] == IncomePositive
    ensures Dob in errors ==> errors[Dob] == DobInFuture
  {
    Collect(NameError(f.name), PhoneError(f.phone), IncomeError(f.income), DobError(f.dob, now))
  }

  /** A form passes exactly when every one of the four checks passes. */
  lemma ValidIffAllChecksPass(f: Form, now: int)
    ensures FormErrors(f, now) == map[] <==>
              NameError(f.name).None? && PhoneError(f.phone).None?
              && IncomeError(f.income).None? && DobError(f.dob, now).None?
  {
    var e := FormErrors(f, now);
    if NameError(f.name).Some? { assert Name in e; }
    if PhoneError(f.phone).Some? { assert Phone in e; }
    if IncomeError(f.income).Some? { assert Income in e; }
    if DobError(f.dob, now).Some? { assert Dob in e; }
  }

  /** The component's form and error state. */
  class CustomerInfoPage {
    var form: Form
    var errors: map<Field, string>

    constructor ()
      ensures form == Form("", "", "", "", "", NoDate) && errors == map[]
    {
      form := Form("", "", "", "", "", NoDate);
      errors := map[];
    }

    /** `validateForm`: build the error map one check at a time, store it, and
        report whether it is empty. */
    method ValidateForm(now: int) returns (valid: bool)
      modifies this`errors
      ensures errors == FormErrors(form, now)
      ensures valid <==> errors == map[]
    {
      var f := form;
      var newErrors: map<Field, string> := map[];
      if Trim(f.name) == [] {
        newErrors := newErrors[Name := NameRequired];
      }
      assert newErrors == Put(map[], Name, NameError(f.name)) by {
        NameStep(map[], f.name);
      }
      ghost var withName := newErrors;
      if Trim(f.phone) == [] {
        newErrors := newErrors[Phone := PhoneRequired];
      } else if !IsTenDigits(f.phone) {
        newErrors := newErrors[Phone := PhoneDigits];
      }
      assert newErrors == Put(withName, Phone, PhoneError(f.phone)) by {
        PhoneStep(withName, f.phone);
      }
      ghost var withPhone := newErrors;
      if IncomeNotPositive(f.income) {
        newErrors := newErrors[Income := IncomePositive];
      }
      assert newErrors == Put(withPhone, Income, IncomeError(f.income)) by {
        IncomeStep(withPhone, f.income);
      }
      ghost var withIncome := newErrors;
      if f.dob.Date? && f.dob.time > now {
        newErrors := newErrors[Dob := DobInFuture];
      }
      assert newErrors == Put(withIncome, Dob, DobError(f.dob, now)) by {
        DobStep(withIncome, f.dob, now);
      }
      assert newErrors == FormErrors(f, now);
      errors := newErrors;
      valid := newErrors == map[];
    }

    /** `handleAdd` up to the network call: validate, and return the form to post
        only when it is valid. */
    method HandleAdd(now: int) returns (request: Option<Form>)
      modifies this`errors
      ensures errors == FormErrors(form, now)
      ensures request.Some? <==> errors == map[]
      ensures request.Some? ==> request.value == form
    {
      var valid := ValidateForm(now);
      if !valid {
        return None;
      }
      request := Some(form);
    }
  }
}
