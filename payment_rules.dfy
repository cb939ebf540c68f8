/**
 * The rules of the payment page (src/pages/PaymentPage.tsx) that are plain
 * expressions over the loan's dues: the `filter` and `find` callbacks, the
 * "this month" and "settlement" selections, `toggleDue`'s list update, the
 * derived `totalAmount` and `finalAmount`, the `filteredDues` display list,
 * and the request `handlePay` builds.
 */
module PaymentRules {
  import opened Wrappers
  import opened Loans

  /** The three values the page's radio buttons give `paymentOption`. */
  datatype PaymentOption = Single | Multiple | Settlement

  /** The options of the payment-method drop-down. */
  datatype PaymentMethod = Cash | Upi | Card | Bank

  /** The callbacks the page hands to `filter` and `find` over `loan.dues`. */
  datatype Criterion =
    | HasId(id: string)           // d._id === dueId
    | Pending                     // d.status === "Unpaid"
    | PendingIn(when: YearMonth)  // unpaid and due in the given month and year
    | IdIn(ids: seq<string>)      // selectedDues.includes(d._id)

  predicate Matches(c: Criterion, d: Due) {
    match c
    case HasId(id) => d.id == id
    case Pending => d.status == Unpaid
    case PendingIn(when) => d.status == Unpaid && d.dueDate == when
    case IdIn(ids) => d.id in ids
  }

  /** `Array.prototype.filter`: the dues the criterion accepts, in list order. */
  function Filter(dues: seq<Due>, c: Criterion): (r: seq<Due>)
    ensures |r| <= |dues|
    ensures forall d :: d in r <==> d in dues && Matches(c, d)
    ensures r == [] <==> forall d :: d in dues ==> !Matches(c, d)
  {
    if dues == [] then []
    else if Matches(c, dues[0]) then [dues[0]] + Filter(dues[1..], c)
    else Filter(dues[1..], c)
  }

  /** `Array.prototype.find`, as the index of the first accepted due. */
  function FindIndex(dues: seq<Due>, c: Criterion): (r: Option<nat>)
    ensures r.Some? ==> r.value < |dues| && Matches(c, dues[r.value])
    ensures r.Some? ==> forall j :: 0 <= j < r.value ==> !Matches(c, dues[j])
    ensures r.None? ==> forall j :: 0 <= j < |dues| ==> !Matches(c, dues[j])
  {
    if dues == [] then None
    else if Matches(c, dues[0]) then Some(0)
    else match FindIndex(dues[1..], c)
      case None => None
      case Some(k) => Some(k + 1)
  }

  /** A `dueId` query parameter is in force only when it is a non-empty string:
      a missing parameter (null) and an empty one are both falsy. */
  predicate HasDueId(dueId: Option<string>) {
    dueId.Some? && dueId.value != ""
  }

  /** The "single" selection: the id of the first unpaid due of the current month, if any. */
  function ThisMonthSelection(dues: seq<Due>, now: YearMonth): (r: seq<string>)
    ensures |r| <= 1
    ensures r == [] <==> forall d :: d in dues ==> !(d.status == Unpaid && d.dueDate == now)
    ensures r != [] ==> exists k :: 0 <= k < |dues| && r[0] == dues[k].id
                                 && dues[k].status == Unpaid && dues[k].dueDate == now
                                 && forall j :: 0 <= j < k ==> !Matches(PendingIn(now), dues[j])
  {
    match FindIndex(dues, PendingIn(now))
    case None => []
    case Some(k) => [dues[k].id]
  }

  /** The "settlement" selection: the ids of all unpaid dues, in list order. */
  function PendingIds(dues: seq<Due>): (r: seq<string>)
    ensures |r| <= |dues|
    ensures forall d :: d in dues && d.status == Unpaid ==> d.id in r
    ensures forall k :: 0 <= k < |r| ==> exists d :: d in dues && d.status == Unpaid && d.id == r[k]
  {
    var pending := Filter(dues, Pending);
    var r := Ids(pending);
    assert forall d :: d in pending ==> d.id in r by {
      forall d | d in pending ensures d.id in r {
        var i :| 0 <= i < |pending| && pending[i] == d;
        assert r[i] == d.id;
      }
    }
    assert forall k :: 0 <= k < |r| ==> pending[k] in pending;
    r
  }

  /** Filtering keeps the order of the list: it distributes over concatenation. */
  lemma {:induction false} FilterAppend(a: seq<Due>, b: seq<Due>, c: Criterion)
    ensures Filter(a + b, c) == Filter(a, c) + Filter(b, c)
  {
    if a == [] {
      assert a + b == b;
    } else {
      assert (a + b)[1..] == a[1..] + b;
      FilterAppend(a[1..], b, c);
    }
  }

  /** Two criteria that agree on every due of the list select the same dues. */
  lemma {:induction false} FilterCongruent(dues: seq<Due>, c1: Criterion, c2: Criterion)
    requires forall d :: d in dues ==> (Matches(c1, d) <==> Matches(c2, d))
    ensures Filter(dues, c1) == Filter(dues, c2)
  {
    if dues != [] {
      assert forall d :: d in dues[1..] ==> d in dues;
      FilterCongruent(dues[1..], c1, c2);
    }
  }

  /** `find` and `filter` with the same callback agree: `find` gives the first
      element of what `filter` keeps, and nothing exactly when `filter` keeps nothing. */
  lemma {:induction false} FindIsFirstOfFilter(dues: seq<Due>, c: Criterion)
    ensures FindIndex(dues, c).None? <==> Filter(dues, c) == []
    ensures FindIndex(dues, c).Some? ==> Filter(dues, c)[0] == dues[FindIndex(dues, c).value]
  {
    if dues != [] {
      if Matches(c, dues[0]) {
        assert Filter(dues, c) == [dues[0]] + Filter(dues[1..], c);
      } else {
        FindIsFirstOfFilter(dues[1..], c);
        assert Filter(dues, c) == Filter(dues[1..], c);
        match FindIndex(dues[1..], c)
        case None =>
        case Some(k) =>
          assert dues[1..][k] == dues[k + 1];
      }
    }
  }

  /** `prev.filter((id) => id !== dueId)`: every occurrence removed, the rest in order. */
  function Without(ids: seq<string>, id: string): (r: seq<string>)
    ensures |r| <= |ids|
    ensures id in ids ==> |r| < |ids|
    ensures id !in r
    ensures forall x :: x != id ==> (x in r <==> x in ids)
  {
    if ids == [] then []
    else if ids[0] == id then Without(ids[1..], id)
    else [ids[0]] + Without(ids[1..], id)
  }

  /** `toggleDue`'s update of the selection. */
  function Toggle(selected: seq<string>, id: string): (r: seq<string>)
    ensures id in r <==> id !in selected
    ensures forall x :: x != id ==> (x in r <==> x in selected)
    ensures id in selected ==> |r| < |selected|
    ensures id !in selected ==> |r| == |selected| + 1 && r[..|selected|] == selected && r[|selected|] == id
  {
    if id in selected then Without(selected, id) else selected + [id]
  }

  lemma {:induction false} WithoutAbsent(ids: seq<string>, id: string)
    requires id !in ids
    ensures Without(ids, id) == ids
  {
    if ids != [] {
      WithoutAbsent(ids[1..], id);
    }
  }

  lemma {:induction false} WithoutAppend(a: seq<string>, b: seq<string>, id: string)
    ensures Without(a + b, id) == Without(a, id) + Without(b, id)
  {
    if a == [] {
      assert a + b == b;
    } else {
      assert (a + b)[1..] == a[1..] + b;
      WithoutAppend(a[1..], b, id);
    }
  }

  /** In a selection without repeats, removing an id deletes exactly its one position. */
  lemma {:induction false} WithoutAt(ids: seq<string>, k: nat)
    requires k < |ids| && Distinct(ids)
    ensures Without(ids, ids[k]) == ids[..k] + ids[k + 1..]
  {
    assert ids == ids[..k] + [ids[k]] + ids[k + 1..];
    assert ids[k] !in ids[..k] && ids[k] !in ids[k + 1..];
    WithoutAppend(ids[..k] + [ids[k]], ids[k + 1..], ids[k]);
    WithoutAppend(ids[..k], [ids[k]], ids[k]);
    WithoutAbsent(ids[..k], ids[k]);
    WithoutAbsent(ids[k + 1..], ids[k]);
    assert Without([ids[k]], ids[k]) == [];
  }

  /** Toggling an id that is not selected, twice, gives back the original selection. */
  lemma ToggleTwiceRestores(selected: seq<string>, id: string)
    requires id !in selected
    ensures Toggle(Toggle(selected, id), id) == selected
  {
    WithoutAppend(selected, [id], id);
    WithoutAbsent(selected, id);
    assert Without([id], id) == [];
  }

  /** Toggling a selected id twice leaves it once, moved to the end. */
  lemma ToggleTwiceMovesToEnd(selected: seq<string>, id: string)
    requires id in selected
    ensures Toggle(Toggle(selected, id), id) == Without(selected, id) + [id]
  {
  }

  lemma {:induction false} WithoutKeepsDistinct(ids: seq<string>, id: string)
    requires Distinct(ids)
    ensures Distinct(Without(ids, id))
  {
    if ids != [] {
      var rest := ids[1..];
      assert Distinct(rest) by {
        forall i, j | 0 <= i < j < |rest| ensures rest[i] != rest[j] {
          assert rest[i] == ids[i + 1] && rest[j] == ids[j + 1];
        }
      }
      WithoutKeepsDistinct(rest, id);
      if ids[0] != id {
        var w := Without(rest, id);
        assert ids[0] !in rest by {
          forall j | 0 <= j < |rest| ensures rest[j] != ids[0] {
            assert rest[j] == ids[j + 1];
          }
        }
        assert ids[0] !in w;
        var r := [ids[0]] + w;
        forall i, j | 0 <= i < j < |r| ensures r[i] != r[j] {
          if i == 0 {
            assert r[j] == w[j - 1];
          } else {
            assert r[i] == w[i - 1] && r[j] == w[j - 1];
          }
        }
      }
    }
  }

  /** A selection without repeats stays without repeats under `toggleDue`. */
  lemma ToggleKeepsDistinct(selected: seq<string>, id: string)
    requires Distinct(selected)
    ensures Distinct(Toggle(selected, id))
  {
    if id in selected {
      WithoutKeepsDistinct(selected, id);
    } else {
      var r := selected + [id];
      forall i, j | 0 <= i < j < |r| ensures r[i] != r[j] {
        if j == |selected| {
          assert r[i] == selected[i];
        } else {
          assert r[i] == selected[i] && r[j] == selected[j];
        }
      }
    }
  }

  /** `totalAmount`: the sum of `dueAmount` over the loan's dues whose id is selected. */
  function TotalAmount(loanDues: Option<seq<Due>>, selected: seq<string>): (total: real)
    ensures loanDues.None? ==> total == 0.0
    ensures selected == [] ==> total == 0.0
  {
    match loanDues
    case None => 0.0
    case Some(dues) =>
      SumAmounts(Filter(dues, IdIn(selected)))
  }

  /** The total depends only on which ids are selected: repeating an id does not count its due twice. */
  lemma TotalIgnoresRepeats(loanDues: Option<seq<Due>>, s1: seq<string>, s2: seq<string>)
    requires forall x :: x in s1 <==> x in s2
    ensures TotalAmount(loanDues, s1) == TotalAmount(loanDues, s2)
  {
    if loanDues.Some? {
      FilterCongruent(loanDues.value, IdIn(s1), IdIn(s2));
    }
  }

  /** The first due of the list adds its amount to a filtered sum exactly when it is accepted. */
  lemma SumFilterStep(dues: seq<Due>, c: Criterion)
    requires dues != []
    ensures SumAmounts(Filter(dues, c))
              == (if Matches(c, dues[0]) then dues[0].dueAmount else 0.0) + SumAmounts(Filter(dues[1..], c))
  {
    if Matches(c, dues[0]) {
      SumCons(dues[0], Filter(dues[1..], c));
    }
  }

  /** When every due `a` accepts is accepted by exactly one of `b` and `c`, its sum splits in two. */
  lemma {:induction false} SumSplits(dues: seq<Due>, a: Criterion, b: Criterion, c: Criterion)
    requires forall d :: d in dues ==> (Matches(a, d) <==> Matches(b, d) || Matches(c, d))
    requires forall d :: d in dues ==> !(Matches(b, d) && Matches(c, d))
    ensures SumAmounts(Filter(dues, a)) == SumAmounts(Filter(dues, b)) + SumAmounts(Filter(dues, c))
  {
    if dues != [] {
      var d, rest := dues[0], dues[1..];
      assert forall e :: e in rest ==> e in dues;
      SumSplits(rest, a, b, c);
      assert d in dues;
      SumFilterStep(dues, a);
      SumFilterStep(dues, b);
      SumFilterStep(dues, c);
    }
  }

  /** Toggling an id changes the total by exactly the amounts of the dues carrying that id. */
  lemma TotalAfterToggle(dues: seq<Due>, selected: seq<string>, id: string)
    ensures id !in selected ==>
      TotalAmount(Some(dues), Toggle(selected, id))
        == TotalAmount(Some(dues), selected) + SumAmounts(Filter(dues, HasId(id)))
    ensures id in selected ==>
      TotalAmount(Some(dues), selected)
        == TotalAmount(Some(dues), Toggle(selected, id)) + SumAmounts(Filter(dues, HasId(id)))
  {
    var t := Toggle(selected, id);
    if id !in selected {
      SumSplits(dues, IdIn(t), IdIn(selected), HasId(id));
    } else {
      SumSplits(dues, IdIn(selected), IdIn(t), HasId(id));
    }
  }

  /** With unique ids, the settlement selection totals exactly the unpaid dues. */
  lemma SettlementTotal(dues: seq<Due>)
    requires UniqueIds(dues)
    ensures TotalAmount(Some(dues), PendingIds(dues)) == SumAmounts(Filter(dues, Pending))
  {
    var ids := PendingIds(dues);
    forall d | d in dues ensures Matches(IdIn(ids), d) <==> Matches(Pending, d) {
      if d.id in ids {
        var k :| 0 <= k < |ids| && ids[k] == d.id;
        var e :| e in dues && e.status == Unpaid && e.id == ids[k];
        var i :| 0 <= i < |dues| && dues[i] == d;
        var j :| 0 <= j < |dues| && dues[j] == e;
        assert i == j;
      }
    }
    FilterCongruent(dues, IdIn(ids), Pending);
  }

  /** `finalAmount`: in settlement the total less the discount, never below zero; otherwise the total. */
  function FinalAmount(option: PaymentOption, total: real, discount: real): (r: real)
    ensures option == Settlement ==> r >= 0.0
    ensures option == Settlement && discount <= total ==> r == total - discount
    ensures option == Settlement && discount >= total ==> r == 0.0
    ensures option == Settlement && discount >= 0.0 && total >= 0.0 ==> r <= total
    ensures option != Settlement ==> r == total
  {
    if option == Settlement then (if total - discount > 0.0 then total - discount else 0.0) else total
  }

  /** `filteredDues`: the dues the page lists. */
  function FilteredDues(dues: seq<Due>, dueId: Option<string>, option: PaymentOption, now: YearMonth): (r: seq<Due>)
    ensures |r| <= |dues|
    ensures HasDueId(dueId) ==> forall d :: d in r <==> d in dues && d.id == dueId.value
    ensures !HasDueId(dueId) && option == Single ==>
      forall d :: d in r <==> d in dues && d.status == Unpaid && d.dueDate == now
    ensures !HasDueId(dueId) && option != Single ==>
      forall d :: d in r <==> d in dues && d.status == Unpaid
  {
    if HasDueId(dueId) then Filter(dues, HasId(dueId.value))
    else if option == Single then Filter(dues, PendingIn(now))
    else Filter(dues, Pending)
  }

  /** In "single" mode the selection is the first listed due, though more may be listed. */
  lemma SingleSelectsFirstListed(dues: seq<Due>, dueId: Option<string>, now: YearMonth)
    requires !HasDueId(dueId)
    ensures var shown := FilteredDues(dues, dueId, Single, now);
            ThisMonthSelection(dues, now) == (if shown == [] then [] else [shown[0].id])
  {
    FindIsFirstOfFilter(dues, PendingIn(now));
  }

  /** In settlement mode the selection is exactly the listed dues, in the listed order. */
  lemma SettlementSelectsAllListed(dues: seq<Due>, dueId: Option<string>, now: YearMonth)
    requires !HasDueId(dueId)
    ensures PendingIds(dues) == Ids(FilteredDues(dues, dueId, Settlement, now))
  {
  }

  datatype PayError = NoSelection

  /** The JSON body `handlePay` posts; the "TXN" + timestamp transaction id is not modelled. */
  datatype Payment = Payment(
    loanId: string,
    payMethod: PaymentMethod,
    amount: real,
    kind: PaymentOption,
    count: nat,
    dues: seq<string>,
    discount: real)

  /** `handlePay` up to the request: refused with nothing selected, otherwise the request body. */
  function Checkout(loanId: string, payMethod: PaymentMethod, option: PaymentOption,
                    loanDues: Option<seq<Due>>, selected: seq<string>, discount: real): (r: Result<Payment, PayError>)
    ensures r.Failure? <==> selected == []
    ensures r.Success? ==> r.value.count == |selected| && r.value.dues == selected
    ensures r.Success? ==> r.value.loanId == loanId && r.value.payMethod == payMethod && r.value.kind == option
    ensures r.Success? ==> r.value.discount == (if option == Settlement then discount else 0.0)
    ensures r.Success? ==> r.value.amount == FinalAmount(option, TotalAmount(loanDues, selected), discount)
  {
    if selected == [] then Failure(NoSelection)
    else
      Success(Payment(
        loanId, payMethod,
        FinalAmount(option, TotalAmount(loanDues, selected), discount),
        option, |selected|, selected,
        if option == Settlement then discount else 0.0))
  }

  /** The posted amount can be recomputed from the posted discount: it is the
      selected total less that discount, clamped at zero, in every mode. */
  lemma PaymentAmountMatchesDiscount(loanId: string, payMethod: PaymentMethod, option: PaymentOption,
                                     dues: seq<Due>, selected: seq<string>, discount: real)
    requires forall d :: d in dues ==> d.dueAmount >= 0.0
    requires selected != []
    ensures var p := Checkout(loanId, payMethod, option, Some(dues), selected, discount).value;
            var total := TotalAmount(Some(dues), selected);
            p.amount == (if total - p.discount > 0.0 then total - p.discount else 0.0)
  {
    var chosen := Filter(dues, IdIn(selected));
    SumAmountsNonNegative(chosen);
  }

  /** A settlement of a loan with unique ids pays for every unpaid due once: the count is
      the number of unpaid dues and the amount their sum less the discount, clamped at zero. */
  lemma SettlementPayment(loanId: string, payMethod: PaymentMethod, dues: seq<Due>, discount: real)
    requires UniqueIds(dues)
    requires exists d :: d in dues && d.status == Unpaid
    ensures var r := Checkout(loanId, payMethod, Settlement, Some(dues), PendingIds(dues), discount);
            var owed := SumAmounts(Filter(dues, Pending));
            r.Success? && r.value.count == |Filter(dues, Pending)|
            && r.value.amount == (if owed - discount > 0.0 then owed - discount else 0.0)
  {
    var d :| d in dues && d.status == Unpaid;
    assert d.id in PendingIds(dues);
    SettlementTotal(dues);
  }
}
