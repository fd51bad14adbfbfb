/** Payment proposals: choosing invoices and exporting them to the bank (modal.js). */
module LedgerPayments {
  import opened Prelude

  datatype Invoice = Invoice(id: string, amount: real, paid: bool)

  datatype Payment = Payment(invoice: string, amount: real)

  datatype Proposal = Proposal(invoiceIds: seq<string>, total: real, exported: bool)

  /** The amounts of the invoices whose id is checked. */
  function CheckedTotal(invoices: seq<Invoice>, ids: seq<string>): real {
    if invoices == [] then 0.0
    else
      var i := invoices[|invoices| - 1];
      CheckedTotal(invoices[..|invoices| - 1], ids) + if i.id in ids then i.amount else 0.0
  }

  /** submitPaymentProposal; nothing is created when nothing is checked. */
  function Submit(invoices: seq<Invoice>, ids: seq<string>): Option<Proposal> {
    if ids == [] then None else Some(Proposal(ids, CheckedTotal(invoices, ids), false))
  }

  function Find(invoices: seq<Invoice>, id: string): (i: nat)
    ensures i <= |invoices|
    ensures i < |invoices| ==> invoices[i].id == id
    ensures forall j | 0 <= j < i :: invoices[j].id != id
  {
    if invoices == [] || invoices[0].id == id then 0 else 1 + Find(invoices[1..], id)
  }

  function PaymentSum(ps: seq<Payment>): real {
    if ps == [] then 0.0 else PaymentSum(ps[..|ps| - 1]) + ps[|ps| - 1].amount
  }

  lemma {:induction false} PaymentSumConcat(a: seq<Payment>, b: seq<Payment>)
    ensures PaymentSum(a + b) == PaymentSum(a) + PaymentSum(b)
  {
    if b == [] {
      assert a + b == a;
    } else {
      assert (a + b)[..|a + b| - 1] == a + b[..|b| - 1];
      PaymentSumConcat(a, b[..|b| - 1]);
    }
  }

  /** One payment for each listed id that is found. */
  function PaymentsFor(invoices: seq<Invoice>, ids: seq<string>): seq<Payment> {
    if ids == [] then []
    else
      var id := ids[|ids| - 1];
      var i := Find(invoices, id);
      PaymentsFor(invoices, ids[..|ids| - 1]) + if i < |invoices| then [Payment(id, invoices[i].amount)] else []
  }

  predicate DistinctIds(ids: seq<string>) {
    forall i, j | 0 <= i < j < |ids| :: ids[i] != ids[j]
  }

  predicate DistinctInvoices(invoices: seq<Invoice>) {
    forall i, j | 0 <= i < j < |invoices| :: invoices[i].id != invoices[j].id
  }

  class Payments {
    var invoices: seq<Invoice>
    var payments: seq<Payment>

    constructor (invoices: seq<Invoice>)
      ensures this.invoices == invoices && payments == []
    {
      this.invoices, payments := invoices, [];
    }

    /** exportPaymentProposal: pay each listed invoice in turn. */
    method Export(p: Proposal) returns (done: Proposal)
      modifies this
      ensures done == p.(exported := true)
      ensures payments == old(payments) + PaymentsFor(old(invoices), p.invoiceIds)
      ensures invoices == MarkPaid(old(invoices), p.invoiceIds)
    {
      hide MarkPaid, PaymentsFor, Find;
      var ids := p.invoiceIds;
      ExportStart(invoices);
      for n := 0 to |ids|
        invariant payments == old(payments) + PaymentsFor(old(invoices), ids[..n])
        invariant invoices == MarkPaid(old(invoices), ids[..n])
      {
        ExportStep(old(invoices), ids, n);
        var at := Find(invoices, ids[n]);
        if at < |invoices| {
          invoices := invoices[at := invoices[at].(paid := true)];
          payments := payments + [Payment(ids[n], invoices[at].amount)];
        }
      }
      assert ids[..|ids|] == ids;
      done := p.(exported := true);
    }
  }

  lemma ExportStart(invoices: seq<Invoice>)
    ensures MarkPaid(invoices, []) == invoices && PaymentsFor(invoices, []) == []
  {
  }

  /** One more listed id: the invoice found among those already marked is marked and paid for. */
  lemma ExportStep(invoices: seq<Invoice>, ids: seq<string>, n: nat)
    requires n < |ids|
    ensures var now := MarkPaid(invoices, ids[..n]);
      var at := Find(now, ids[n]);
      && MarkPaid(invoices, ids[..n + 1]) == (if at < |now| then now[at := now[at].(paid := true)] else now)
      && PaymentsFor(invoices, ids[..n + 1])
        == PaymentsFor(invoices, ids[..n]) + if at < |now| then [Payment(ids[n], now[at].amount)] else []
  {
    assert ids[..n + 1][..n] == ids[..n];
    MarkPaidKeeps(invoices, ids[..n]);
    SameFind(invoices, MarkPaid(invoices, ids[..n]), ids[n]);
  }

  /** The invoices after those with the listed ids were set to paid. */
  function MarkPaid(invoices: seq<Invoice>, ids: seq<string>): seq<Invoice> {
    if ids == [] then invoices
    else
      var before := MarkPaid(invoices, ids[..|ids| - 1]);
      var i := Find(before, ids[|ids| - 1]);
      if i < |before| then before[i := before[i].(paid := true)] else before
  }

  lemma {:induction false} MarkPaidKeeps(invoices: seq<Invoice>, ids: seq<string>)
    ensures |MarkPaid(invoices, ids)| == |invoices|
    ensures forall i | 0 <= i < |invoices| ::
      MarkPaid(invoices, ids)[i].id == invoices[i].id && MarkPaid(invoices, ids)[i].amount == invoices[i].amount
  {
    if ids != [] { MarkPaidKeeps(invoices, ids[..|ids| - 1]); }
  }

  /** Exactly the listed invoices become paid, and nothing else about any invoice changes. */
  lemma {:induction false} PaidExactly(invoices: seq<Invoice>, ids: seq<string>, i: nat)
    requires DistinctInvoices(invoices) && i < |invoices|
    ensures |MarkPaid(invoices, ids)| == |invoices|
    ensures MarkPaid(invoices, ids)[i] == invoices[i].(paid := invoices[i].paid || invoices[i].id in ids)
  {
    hide Find, DistinctInvoices;
    if ids != [] {
      var (init, id) := (ids[..|ids| - 1], ids[|ids| - 1]);
      PaidExactly(invoices, init, i);
      MarkPaidKeeps(invoices, init);
      FindAt(MarkPaid(invoices, init), invoices, id, i);
      assert ids == init + [id];
    }
  }

  lemma FindAt(marked: seq<Invoice>, invoices: seq<Invoice>, id: string, i: nat)
    requires DistinctInvoices(invoices) && i < |invoices| == |marked|
    requires forall k | 0 <= k < |marked| :: marked[k].id == invoices[k].id
    ensures Find(marked, id) == i <==> invoices[i].id == id
  {
    SameFind(invoices, marked, id);
  }

  lemma {:induction false} SameFind(a: seq<Invoice>, b: seq<Invoice>, id: string)
    requires |a| == |b| && forall i | 0 <= i < |a| :: a[i].id == b[i].id
    ensures Find(a, id) == Find(b, id)
  {
    if a != [] { SameFind(a[1..], b[1..], id); }
  }

  lemma {:induction false} CheckedNone(invoices: seq<Invoice>)
    ensures CheckedTotal(invoices, []) == 0.0
  {
    if invoices != [] { CheckedNone(invoices[..|invoices| - 1]); }
  }

  /** Checking one more id adds that invoice's amount, if there is such an invoice. */
  lemma {:induction false} CheckedMore(invoices: seq<Invoice>, ids: seq<string>, id: string)
    requires DistinctInvoices(invoices) && id !in ids
    ensures CheckedTotal(invoices, ids + [id]) == CheckedTotal(invoices, ids)
      + if Find(invoices, id) < |invoices| then invoices[Find(invoices, id)].amount else 0.0
  {
    if invoices != [] {
      var (init, last) := (invoices[..|invoices| - 1], invoices[|invoices| - 1]);
      CheckedMore(init, ids, id);
      var (i, j) := (Find(invoices, id), Find(init, id));
      assert last.id in ids + [id] <==> last.id in ids || last.id == id;
      assert i < |init| ==> init[i] == invoices[i];
      assert j < |init| ==> invoices[j] == init[j];
      assert forall k | 0 <= k < |init| :: init[k].id != last.id;
    }
  }

  /** The payments an export adds sum to the total the proposal was stored with. */
  lemma {:induction false} ExportPaysTotal(invoices: seq<Invoice>, ids: seq<string>)
    requires DistinctInvoices(invoices) && DistinctIds(ids)
    ensures PaymentSum(PaymentsFor(invoices, ids)) == CheckedTotal(invoices, ids)
  {
    if ids == [] {
      CheckedNone(invoices);
    } else {
      var (init, id) := (ids[..|ids| - 1], ids[|ids| - 1]);
      ExportPaysTotal(invoices, init);
      CheckedMore(invoices, init, id);
      var i := Find(invoices, id);
      var one := if i < |invoices| then [Payment(id, invoices[i].amount)] else [];
      PaymentSumConcat(PaymentsFor(invoices, init), one);
      assert i < |invoices| ==> one[..0] == [];
      assert ids == init + [id];
    }
  }

  /** The same invoices, paid or not. */
  predicate SameBut(invoices: seq<Invoice>, later: seq<Invoice>) {
    && |later| == |invoices|
    && forall i | 0 <= i < |invoices| :: later[i].id == invoices[i].id && later[i].amount == invoices[i].amount
  }

  lemma {:induction false} TotalIgnoresPaid(invoices: seq<Invoice>, later: seq<Invoice>, ids: seq<string>)
    requires SameBut(invoices, later)
    ensures CheckedTotal(later, ids) == CheckedTotal(invoices, ids)
  {
    if invoices != [] {
      TotalIgnoresPaid(invoices[..|invoices| - 1], later[..|later| - 1], ids);
    }
  }

  /** A proposal is exported for its stored total even if other exports were made since it was submitted. */
  lemma ProposalPaid(invoices: seq<Invoice>, others: seq<string>, ids: seq<string>)
    requires DistinctInvoices(invoices) && DistinctIds(ids) && Submit(invoices, ids).Some?
    ensures var p := Submit(invoices, ids).value;
      PaymentSum(PaymentsFor(MarkPaid(invoices, others), p.invoiceIds)) == p.total
  {
    var later := MarkPaid(invoices, others);
    MarkPaidKeeps(invoices, others);
    TotalIgnoresPaid(invoices, later, ids);
    ExportPaysTotal(later, ids);
  }

  /** A proposal names what was checked, and there is one exactly when something was. */
  lemma SubmittedWhen(invoices: seq<Invoice>, ids: seq<string>)
    ensures var p := Submit(invoices, ids);
      && (p.Some? <==> ids != [])
      && (p.Some? ==> p.value.invoiceIds == ids && !p.value.exported)
  {
  }

  /** The payments are for exactly the listed invoices, each by its id and amount. */
  lemma {:induction false} PaymentsNamed(invoices: seq<Invoice>, ids: seq<string>, p: Payment)
    requires DistinctInvoices(invoices)
    ensures p in PaymentsFor(invoices, ids) <==>
      exists i :: 0 <= i < |invoices| && invoices[i].id in ids && p == Payment(invoices[i].id, invoices[i].amount)
  {
    hide Find, PaymentsFor;
    if ids == [] {
      ExportStart(invoices);
    } else {
      var (init, id) := (ids[..|ids| - 1], ids[|ids| - 1]);
      PaymentsNamed(invoices, init, p);
      LastPayment(invoices, ids);
      assert ids == init + [id];
      forall i | 0 <= i < |invoices| ensures invoices[i].id == id <==> Find(invoices, id) == i { FindAt(invoices, invoices, id, i); }
    }
  }

  lemma LastPayment(invoices: seq<Invoice>, ids: seq<string>)
    requires ids != []
    ensures var at := Find(invoices, ids[|ids| - 1]);
      PaymentsFor(invoices, ids) == PaymentsFor(invoices, ids[..|ids| - 1])
        + if at < |invoices| then [Payment(invoices[at].id, invoices[at].amount)] else []
  {
  }

  /** One payment for each listing of an invoice that exists. */
  lemma {:induction false} OnePaymentEach(invoices: seq<Invoice>, ids: seq<string>)
    requires forall id | id in ids :: Find(invoices, id) < |invoices|
    ensures |PaymentsFor(invoices, ids)| == |ids|
  {
    if ids != [] {
      var init := ids[..|ids| - 1];
      assert ids[|ids| - 1] in ids && forall id | id in init :: id in ids;
      OnePaymentEach(invoices, ids[..|ids| - 1]);
    }
  }
}
