/**
 * The records the loan pages receive from the REST API, after the date
 * strings have been parsed: a due is an instalment of a loan, with the
 * year and month it falls due, its amount and whether it has been paid.
 */
module Loans {

  datatype Status = Paid | Unpaid

  /** A calendar month; `new Date(...)` parsing is done before the model sees it. */
  datatype YearMonth = YearMonth(year: int, month: int)

  datatype Due = Due(id: string, loan: string, dueDate: YearMonth, dueAmount: real, status: Status)

  /** The `_id` of every due, in list order. */
  function Ids(dues: seq<Due>): (r: seq<string>)
    ensures |r| == |dues|
    ensures forall i :: 0 <= i < |dues| ==> r[i] == dues[i].id
  {
    seq(|dues|, i requires 0 <= i < |dues| => dues[i].id)
  }

  /** No two dues of the list share an `_id` (the database's primary key). */
  predicate UniqueIds(dues: seq<Due>) {
    forall i, j :: 0 <= i < j < |dues| ==> dues[i].id != dues[j].id
  }

  /** No id occurs twice in a selection. */
  predicate Distinct(ids: seq<string>) {
    forall i, j :: 0 <= i < j < |ids| ==> ids[i] != ids[j]
  }

  /** `reduce((sum, d) => sum + d.dueAmount, 0)` */
  function SumAmounts(dues: seq<Due>): real {
    if dues == [] then 0.0 else dues[0].dueAmount + SumAmounts(dues[1..])
  }

  /** The sum of a list with one due in front. */
  lemma SumCons(d: Due, dues: seq<Due>)
    ensures SumAmounts([d] + dues) == d.dueAmount + SumAmounts(dues)
  {
    assert ([d] + dues)[1..] == dues;
  }

  lemma {:induction false} SumAmountsNonNegative(dues: seq<Due>)
    requires forall d :: d in dues ==> d.dueAmount >= 0.0
    ensures SumAmounts(dues) >= 0.0
  {
    if dues != [] {
      SumAmountsNonNegative(dues[1..]);
    }
  }
}
