/** Accruals generated from open purchase orders (data.js), and their approval steps as the screens offer them. */
module LedgerAccruals {
  import opened Prelude

  datatype Po = Po(id: string, amount: real, invoiced: real)

  datatype Status = Draft | UnderApproval | Approved | Posted

  datatype Accrual = Accrual(id: nat, poId: string, amount: real, status: Status, stage: nat)

  const APPROVALS := 2

  predicate OpenFor(a: Accrual, poId: string) {
    a.poId == poId && a.status != Posted
  }

  /** find(a => a.poId === po.id && a.status !== 'Posted'), or the length. */
  function FindOpen(acc: seq<Accrual>, poId: string): (i: nat)
    ensures i <= |acc|
    ensures i < |acc| ==> OpenFor(acc[i], poId)
    ensures forall j | 0 <= j < i :: !OpenFor(acc[j], poId)
  {
    if acc == [] || OpenFor(acc[0], poId) then 0 else 1 + FindOpen(acc[1..], poId)
  }

  function Remaining(po: Po): real {
    po.amount - po.invoiced
  }

  /** What one order does to the accruals; new ids are drawn from a counter. */
  function ForPo(acc: seq<Accrual>, po: Po, nextId: nat): (after: seq<Accrual>)
    ensures |acc| <= |after|
  {
    if Remaining(po) <= 0.0 then acc
    else
      var i := FindOpen(acc, po.id);
      if i < |acc| then acc[i := acc[i].(amount := Remaining(po))]
      else acc + [Accrual(nextId, po.id, Remaining(po), Draft, 0)]
  }

  function ForPos(acc: seq<Accrual>, pos: seq<Po>, nextId: nat): (after: seq<Accrual>)
    ensures |acc| <= |after|
  {
    if pos == [] then acc
    else
      var before := ForPos(acc, pos[..|pos| - 1], nextId);
      ForPo(before, pos[|pos| - 1], nextId + |before| - |acc|)
  }

  class Accruals {
    var accruals: seq<Accrual>
    var nextId: nat

    constructor ()
      ensures accruals == []
    {
      accruals, nextId := [], 1000;
    }

    /** generateAccrualsFromPOs: refresh the open accrual of each open order, or draft one. */
    method Generate(pos: seq<Po>) returns (created: nat)
      modifies this
      ensures accruals == Do(old(accruals), Op.Generate(pos, old(nextId)))
      ensures created == |accruals| - |old(accruals)| && nextId == old(nextId) + created
    {
      created := 0;
      for i := 0 to |pos|
        invariant accruals == ForPos(old(accruals), pos[..i], old(nextId))
        invariant created == |accruals| - |old(accruals)| && nextId == old(nextId) + created
      {
        assert pos[..i + 1][..i] == pos[..i];
        var remaining := pos[i].amount - pos[i].invoiced;
        if remaining <= 0.0 {
          continue;
        }
        var at := FindOpen(accruals, pos[i].id);
        if at < |accruals| {
          accruals := accruals[at := accruals[at].(amount := remaining)];
          continue;
        }
        accruals := accruals + [Accrual(nextId, pos[i].id, remaining, Draft, 0)];
        nextId := nextId + 1;
        created := created + 1;
      }
      assert pos[..|pos|] == pos;
    }

    /** sendAccrualForApproval, behind the button that is shown on drafts. */
    method Send(i: nat)
      modifies this`accruals
      ensures accruals == Do(old(accruals), Op.Send(i))
    {
      if i < |accruals| && accruals[i].status == Draft {
        accruals := accruals[i := accruals[i].(status := UnderApproval, stage := 1)];
      }
    }

    /** advanceAccrual, behind the button that is shown under approval. */
    method Advance(i: nat)
      modifies this`accruals
      ensures accruals == Do(old(accruals), Op.Advance(i))
    {
      if i < |accruals| && accruals[i].status == UnderApproval && accruals[i].stage <= APPROVALS {
        var stage := accruals[i].stage + 1;
        accruals := accruals[i := accruals[i].(stage := stage, status := if stage > APPROVALS then Approved else UnderApproval)];
      }
    }

    /** The amount field, shown until an accrual is posted. */
    method Edit(i: nat, amount: real)
      modifies this`accruals
      ensures accruals == Do(old(accruals), Op.Edit(i, amount))
    {
      if i < |accruals| && accruals[i].status != Posted {
        accruals := accruals[i := accruals[i].(amount := amount)];
      }
    }

    /** postAccrualToERP, behind the button that is shown once approved. */
    method Post(i: nat)
      modifies this`accruals
      ensures accruals == Do(old(accruals), Op.Post(i))
    {
      if i < |accruals| && accruals[i].status == Approved {
        accruals := accruals[i := accruals[i].(status := Posted)];
      }
    }
  }

  function Advanced(a: Accrual): Accrual {
    a.(stage := a.stage + 1, status := if a.stage + 1 > APPROVALS then Approved else UnderApproval)
  }

  // ----- at most one open accrual per order -----

  /** No order has two accruals that are not posted. */
  predicate OneOpen(acc: seq<Accrual>) {
    forall i, j | 0 <= i < j < |acc| && acc[i].status != Posted && acc[j].status != Posted :: acc[i].poId != acc[j].poId
  }

  lemma ForPoKeeps(acc: seq<Accrual>, po: Po, nextId: nat)
    requires OneOpen(acc)
    ensures OneOpen(ForPo(acc, po, nextId))
  {
  }

  /** Generating keeps at most one open accrual per order, whatever the orders. */
  lemma {:induction false} GenerateKeeps(acc: seq<Accrual>, pos: seq<Po>, nextId: nat)
    requires OneOpen(acc)
    ensures OneOpen(ForPos(acc, pos, nextId))
  {
    if pos != [] {
      GenerateKeeps(acc, pos[..|pos| - 1], nextId);
      var before := ForPos(acc, pos[..|pos| - 1], nextId);
      ForPoKeeps(before, pos[|pos| - 1], nextId + |before| - |acc|);
    }
  }

  /** The screens' steps. */
  datatype Op =
    | Generate(pos: seq<Po>, nextId: nat)
    | Send(i: nat) | Advance(i: nat) | Edit(i: nat, amount: real) | Post(i: nat)

  /** A step that no button offers does not happen. */
  function Do(acc: seq<Accrual>, op: Op): seq<Accrual> {
    match op
    case Generate(pos, nextId) => ForPos(acc, pos, nextId)
    case Send(i) => if i < |acc| && acc[i].status == Draft then acc[i := acc[i].(status := UnderApproval, stage := 1)] else acc
    case Advance(i) =>
      if i < |acc| && acc[i].status == UnderApproval && acc[i].stage <= APPROVALS then acc[i := Advanced(acc[i])] else acc
    case Edit(i, amount) => if i < |acc| && acc[i].status != Posted then acc[i := acc[i].(amount := amount)] else acc
    case Post(i) => if i < |acc| && acc[i].status == Approved then acc[i := acc[i].(status := Posted)] else acc
  }

  function Run(ops: seq<Op>): seq<Accrual> {
    if ops == [] then [] else Do(Run(ops[..|ops| - 1]), ops[|ops| - 1])
  }

  /** An accrual is posted only after two approvals. */
  predicate Approvals(acc: seq<Accrual>) {
    forall a | a in acc :: Stage(a)
  }

  lemma ForPoApprovals(acc: seq<Accrual>, po: Po, nextId: nat)
    requires Approvals(acc)
    ensures Approvals(ForPo(acc, po, nextId))
  {
    forall a | a in ForPo(acc, po, nextId)
      ensures a in acc || (exists b :: b in acc && a.status == b.status && a.stage == b.stage) || (a.status == Draft && a.stage == 0)
    {
      var i := FindOpen(acc, po.id);
      if i < |acc| { assert acc[i] in acc; }
    }
  }

  lemma {:induction false} ForPosApprovals(acc: seq<Accrual>, pos: seq<Po>, nextId: nat)
    requires Approvals(acc) && OneOpen(acc)
    ensures Approvals(ForPos(acc, pos, nextId))
  {
    if pos != [] {
      var before := ForPos(acc, pos[..|pos| - 1], nextId);
      ForPosApprovals(acc, pos[..|pos| - 1], nextId);
      GenerateKeeps(acc, pos[..|pos| - 1], nextId);
      ForPoApprovals(before, pos[|pos| - 1], nextId + |before| - |acc|);
    }
  }

  /** Every run: at most one open accrual per order, and nothing posted without two approvals. */
  lemma {:induction false} RunKeeps(ops: seq<Op>)
    ensures OneOpen(Run(ops)) && Approvals(Run(ops))
  {
    if ops != [] {
      var (acc, op) := (Run(ops[..|ops| - 1]), ops[|ops| - 1]);
      RunKeeps(ops[..|ops| - 1]);
      match op
      case Generate(pos, nextId) =>
        GenerateKeeps(acc, pos, nextId);
        ForPosApprovals(acc, pos, nextId);
      case Send(i) => StepKeepsApprovals(acc, Do(acc, op), i);
      case Advance(i) => StepKeepsApprovals(acc, Do(acc, op), i);
      case Edit(i, _) => StepKeepsApprovals(acc, Do(acc, op), i);
      case Post(i) => StepKeepsApprovals(acc, Do(acc, op), i);
    }
  }

  predicate Stage(a: Accrual) {
    match a.status
    case Draft => a.stage == 0
    case UnderApproval => 1 <= a.stage <= APPROVALS
    case _ => a.stage == APPROVALS + 1
  }

  lemma StepKeepsApprovals(acc: seq<Accrual>, after: seq<Accrual>, i: nat)
    requires Approvals(acc) && (after == acc || (i < |acc| && |after| == |acc| && after == acc[i := after[i]]))
    requires i < |acc| && Stage(acc[i]) ==> Stage(after[i])
    ensures Approvals(after)
  {
    if i < |acc| { assert acc[i] in acc; }
    forall a | a in after
      ensures Stage(a)
    {
      assert a in acc || (i < |acc| && a == after[i]);
    }
  }

  // ----- generating twice -----

  predicate DistinctPos(pos: seq<Po>) {
    forall i, j | 0 <= i < j < |pos| :: pos[i].id != pos[j].id
  }

  /** Every order with something left has an open accrual for exactly that amount. */
  predicate UpToDate(acc: seq<Accrual>, pos: seq<Po>) {
    forall po | po in pos && po.invoiced < po.amount ::
      exists i :: 0 <= i < |acc| && OpenFor(acc[i], po.id) && acc[i].amount == po.amount - po.invoiced
  }

  lemma ForPoUpToDate(acc: seq<Accrual>, pos: seq<Po>, po: Po, nextId: nat)
    requires OneOpen(acc) && UpToDate(acc, pos) && forall p | p in pos :: p.id != po.id
    ensures UpToDate(ForPo(acc, po, nextId), pos + [po])
  {
    var after := ForPo(acc, po, nextId);
    var at := FindOpen(acc, po.id);
    forall p | p in pos + [po] && 0.0 < Remaining(p)
      ensures exists i :: 0 <= i < |after| && OpenFor(after[i], p.id) && after[i].amount == Remaining(p)
    {
      if p == po {
        assert OpenFor(after[at], p.id) && after[at].amount == Remaining(p);
      } else {
        var i :| 0 <= i < |acc| && OpenFor(acc[i], p.id) && acc[i].amount == Remaining(p);
        assert after[i] == acc[i];
      }
    }
  }

  lemma NothingToDate(acc: seq<Accrual>)
    ensures UpToDate(acc, [])
  {
  }

  lemma {:induction false} GenerateUpToDate(acc: seq<Accrual>, pos: seq<Po>, nextId: nat)
    requires OneOpen(acc) && DistinctPos(pos)
    ensures UpToDate(ForPos(acc, pos, nextId), pos)
  {
    hide UpToDate, OneOpen, ForPo, DistinctPos;
    if pos == [] {
      NothingToDate(acc);
    } else {
      var (init, po) := (pos[..|pos| - 1], pos[|pos| - 1]);
      var before := ForPos(acc, init, nextId);
      LastIsNew(pos);
      GenerateKeeps(acc, init, nextId);
      GenerateUpToDate(acc, init, nextId);
      ForPoUpToDate(before, init, po, nextId + |before| - |acc|);
    }
  }

  lemma LastIsNew(pos: seq<Po>)
    requires DistinctPos(pos) && pos != []
    ensures var (init, po) := (pos[..|pos| - 1], pos[|pos| - 1]);
      DistinctPos(init) && pos == init + [po] && forall p | p in init :: p.id != po.id
  {
  }

  lemma UpToDateUnchanged(acc: seq<Accrual>, po: Po, nextId: nat)
    requires OneOpen(acc) && UpToDate(acc, [po])
    ensures ForPo(acc, po, nextId) == acc
  {
    if 0.0 < Remaining(po) {
      assert po in [po];
      var i :| 0 <= i < |acc| && OpenFor(acc[i], po.id) && acc[i].amount == Remaining(po);
      assert FindOpen(acc, po.id) == i;
    }
  }

  lemma {:induction false} UpToDateFixed(acc: seq<Accrual>, pos: seq<Po>, nextId: nat)
    requires OneOpen(acc) && UpToDate(acc, pos)
    ensures ForPos(acc, pos, nextId) == acc
  {
    if pos != [] {
      var (init, po) := (pos[..|pos| - 1], pos[|pos| - 1]);
      assert po in pos && forall p | p in init :: p in pos;
      UpToDateFixed(acc, init, nextId);
      UpToDateUnchanged(acc, po, nextId);
    }
  }

  /** Generating again from the same orders changes nothing and creates nothing. */
  lemma GenerateTwice(acc: seq<Accrual>, pos: seq<Po>, first: nat, second: nat)
    requires OneOpen(acc) && DistinctPos(pos)
    ensures var once := ForPos(acc, pos, first);
      ForPos(once, pos, second) == once && UpToDate(once, pos)
  {
    GenerateKeeps(acc, pos, first);
    GenerateUpToDate(acc, pos, first);
    UpToDateFixed(ForPos(acc, pos, first), pos, second);
  }

  // ----- what each step is for -----

  /** New accruals are drafts and take the numbers that follow; the others keep theirs. */
  lemma {:induction false} NewDrafts(acc: seq<Accrual>, pos: seq<Po>, nextId: nat)
    ensures var after := ForPos(acc, pos, nextId);
      && (forall i | 0 <= i < |acc| :: after[i] == acc[i].(amount := after[i].amount))
      && (forall i | |acc| <= i < |after| :: after[i].id == nextId + i - |acc| && after[i].status == Draft && after[i].stage == 0)
  {
    if pos != [] { NewDrafts(acc, pos[..|pos| - 1], nextId); }
  }

  /** The way of a draft: sent, approved twice, posted; its order, number and amount stay, and so do the others. */
  lemma ApprovalWay(acc: seq<Accrual>, i: nat)
    requires i < |acc| && acc[i].status == Draft
    ensures var a := acc[i];
      var sent := Do(acc, Op.Send(i));
      var once := Do(sent, Op.Advance(i));
      var twice := Do(once, Op.Advance(i));
      && sent == acc[i := Accrual(a.id, a.poId, a.amount, UnderApproval, 1)]
      && once == acc[i := Accrual(a.id, a.poId, a.amount, UnderApproval, 2)]
      && twice == acc[i := Accrual(a.id, a.poId, a.amount, Approved, 3)]
      && Do(twice, Op.Post(i)) == acc[i := Accrual(a.id, a.poId, a.amount, Posted, 3)]
  {
  }

  /** No step is taken out of turn, and an amount is edited exactly until it is posted. */
  lemma StepsInTurn(acc: seq<Accrual>, i: nat, amount: real)
    requires i < |acc|
    ensures acc[i].status != Draft ==> Do(acc, Op.Send(i)) == acc
    ensures acc[i].status != UnderApproval ==> Do(acc, Op.Advance(i)) == acc
    ensures acc[i].status != Approved ==> Do(acc, Op.Post(i)) == acc
    ensures var a := acc[i];
      Do(acc, Op.Edit(i, amount)) == if a.status == Posted then acc else acc[i := Accrual(a.id, a.poId, amount, a.status, a.stage)]
  {
  }
}
