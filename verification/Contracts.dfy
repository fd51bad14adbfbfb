/**
 * The contract lifecycle (contracts.service.ts): an approval counter, a three-signer envelope, and
 * a generic transition endpoint that goes past both.
 */
module Contracts {
  import opened Prelude

  datatype Status = Draft | InApproval | PendingSignature | Active | Expired | Cancelled

  datatype SignerStatus = Waiting | Asked | Signed

  datatype Signer = Signer(name: string, role: string, status: SignerStatus, signedAt: Option<int>)

  datatype EnvelopeStatus = NotStarted | Out | Completed

  datatype Envelope = Envelope(status: EnvelopeStatus, sentAt: Option<int>, signers: seq<Signer>)

  /** CONTRACT_APPROVAL_CHAIN has five stages. */
  const CHAIN := ["Budget Owner", "Legal", "Tax", "Compliance", "Finance"]

  datatype State = State(
    status: Status,
    approvalStage: int,
    envelope: Option<Envelope>,
    ownerName: string,
    vendorName: string,
    number: string,
    startDate: Option<int>,
    executed: seq<string>)

  /** The requests that can touch a contract. `now` is the clock they read; an edit is given by the
   * values its fields end with. */
  datatype Op =
    | Update(ownerName: string, vendorName: string, startDate: Option<int>)
    | Amend(amendedStart: Option<int>)
    | Transition(to: Status)
    | SendForApproval
    | AdvanceApproval
    | SendForSignature(now: int)
    | CheckSignature(now: int)
    | CompleteSignature(now: int, fileName: string)

  function EmptySignature(ownerName: string, vendorName: string): Envelope {
    Envelope(NotStarted, None, [
      Signer(Or(ownerName, "Budget Owner"), "Budget Owner", Waiting, None),
      Signer("CFO", "CFO", Waiting, None),
      Signer(Or(vendorName, "Vendor") + " Representative", "Vendor signatory", Waiting, None)])
  }

  function Allowed(from: Status): set<Status> {
    match from
    case Draft => {InApproval, Cancelled}
    case InApproval => {PendingSignature, Active, Draft, Cancelled}
    case PendingSignature => {Active, Cancelled}
    case Active => {Expired, Cancelled}
    case Expired => {}
    case Cancelled => {}
  }

  function AskWaiting(signers: seq<Signer>): (asked: seq<Signer>)
    ensures |asked| == |signers|
  {
    seq(|signers|, i requires 0 <= i < |signers| =>
      if signers[i].status.Waiting? then signers[i].(status := Asked) else signers[i])
  }

  /** findIndex(status !== 'Signed'), or the length if all have signed. */
  function FirstUnsigned(signers: seq<Signer>): (i: nat)
    ensures i <= |signers|
    ensures forall j | 0 <= j < i :: signers[j].status.Signed?
    ensures i < |signers| ==> !signers[i].status.Signed?
  {
    if signers == [] || !signers[0].status.Signed? then 0 else 1 + FirstUnsigned(signers[1..])
  }

  predicate AllSigned(signers: seq<Signer>) {
    forall s | s in signers :: s.status.Signed?
  }

  /** What a request does: the new row, or nothing when it is refused. */
  function Perform(s: State, op: Op): Option<State> {
    match op
    case Update(ownerName, vendorName, startDate) =>
      if s.status in {InApproval, PendingSignature} then None
      else Some(s.(ownerName := ownerName, vendorName := vendorName, startDate := startDate))
    case Amend(start) =>
      if s.status != Active then None else Some(s.(startDate := start))
    case Transition(to) =>
      if to !in Allowed(s.status) then None else Some(s.(status := to))
    case SendForApproval =>
      if s.status != Draft then None else Some(s.(status := InApproval, approvalStage := 1))
    case AdvanceApproval =>
      if s.status != InApproval then None
      else if s.approvalStage + 1 > |CHAIN| then
        Some(s.(status := PendingSignature, approvalStage := |CHAIN|, envelope := Some(EmptySignature(s.ownerName, s.vendorName))))
      else Some(s.(approvalStage := s.approvalStage + 1))
    case SendForSignature(now) =>
      if s.status != PendingSignature then None
      else
        var e := if s.envelope.Some? then s.envelope.value else EmptySignature(s.ownerName, s.vendorName);
        Some(s.(envelope := Some(Envelope(Out, Some(now), AskWaiting(e.signers)))))
    case CheckSignature(now) =>
      if s.status != PendingSignature || s.envelope.None? then None
      else
        var e := s.envelope.value;
        var i := FirstUnsigned(e.signers);
        if i == |e.signers| then Some(s)
        else Some(s.(envelope := Some(e.(signers := e.signers[i := e.signers[i].(status := Signed, signedAt := Some(now))]))))
    case CompleteSignature(now, fileName) =>
      if s.status != PendingSignature || s.envelope.None? || !AllSigned(s.envelope.value.signers) then None
      else Some(s.(
        status := Active,
        envelope := Some(s.envelope.value.(status := Completed)),
        startDate := if s.startDate.Some? then s.startDate else Some(now),
        executed := s.executed + [Or(Trim(fileName), "Executed-" + s.number + ".pdf")]))
  }

  /** The stored row, with one method per endpoint; `ok` is false where the service throws. */
  class Contract {
    var status: Status
    var approvalStage: int
    var envelope: Option<Envelope>
    var ownerName: string
    var vendorName: string
    const number: string
    var startDate: Option<int>
    var executed: seq<string>

    constructor (number: string, ownerName: string, vendorName: string, startDate: Option<int>)
      ensures Row() == Fresh(number, ownerName, vendorName, startDate)
    {
      this.number, this.ownerName, this.vendorName, this.startDate := number, ownerName, vendorName, startDate;
      status, approvalStage, envelope, executed := Draft, 0, None, [];
    }

    function Row(): State
      reads this
    {
      State(status, approvalStage, envelope, ownerName, vendorName, number, startDate, executed)
    }

    twostate predicate Does(op: Op, ok: bool)
      reads this
    {
      var after := Perform(old(Row()), op);
      ok == after.Some? && Row() == if after.Some? then after.value else old(Row())
    }

    method UpdateFields(ownerName: string, vendorName: string, startDate: Option<int>) returns (ok: bool)
      modifies this
      ensures Does(Update(ownerName, vendorName, startDate), ok)
    {
      if status == InApproval || status == PendingSignature {
        return false;
      }
      this.ownerName, this.vendorName, this.startDate := ownerName, vendorName, startDate;
      ok := true;
    }

    method AmendFields(start: Option<int>) returns (ok: bool)
      modifies this
      ensures Does(Amend(start), ok)
    {
      if status != Active {
        return false;
      }
      startDate := start;
      ok := true;
    }

    method MoveTo(to: Status) returns (ok: bool)
      modifies this
      ensures Does(Transition(to), ok)
    {
      if to !in Allowed(status) {
        return false;
      }
      status := to;
      ok := true;
    }

    method StartApproval() returns (ok: bool)
      modifies this
      ensures Does(SendForApproval, ok)
    {
      if status != Draft {
        return false;
      }
      status, approvalStage := InApproval, 1;
      ok := true;
    }

    method Advance() returns (ok: bool)
      modifies this
      ensures Does(AdvanceApproval, ok)
    {
      if status != InApproval {
        return false;
      }
      var nextStage := approvalStage + 1;
      if nextStage > |CHAIN| {
        status, approvalStage := PendingSignature, |CHAIN|;
        envelope := Some(EmptySignature(ownerName, vendorName));
      } else {
        approvalStage := nextStage;
      }
      ok := true;
    }

    method RequestSignatures(now: int) returns (ok: bool)
      modifies this
      ensures Does(SendForSignature(now), ok)
    {
      if status != PendingSignature {
        return false;
      }
      var signature := if envelope.Some? then envelope.value else EmptySignature(ownerName, vendorName);
      var signers := [];
      for i := 0 to |signature.signers|
        invariant |signers| == i
        invariant forall j | 0 <= j < i :: signers[j] == AskWaiting(signature.signers)[j]
      {
        var s := signature.signers[i];
        signers := signers + [if s.status.Waiting? then s.(status := Asked) else s];
      }
      assert signers == AskWaiting(signature.signers);
      envelope := Some(Envelope(Out, Some(now), signers));
      ok := true;
    }

    method CheckSignatures(now: int) returns (ok: bool)
      modifies this
      ensures Does(CheckSignature(now), ok)
    {
      if status != PendingSignature || envelope.None? {
        return false;
      }
      var signature := envelope.value;
      var idx := FirstUnsigned(signature.signers);
      if idx < |signature.signers| {
        var signed := signature.signers[idx].(status := Signed, signedAt := Some(now));
        envelope := Some(signature.(signers := signature.signers[idx := signed]));
      }
      ok := true;
    }

    method Complete(now: int, fileName: string) returns (ok: bool)
      modifies this
      ensures Does(CompleteSignature(now, fileName), ok)
    {
      if status != PendingSignature || envelope.None? || !AllSigned(envelope.value.signers) {
        return false;
      }
      executed := executed + [Or(Trim(fileName), "Executed-" + number + ".pdf")];
      status, envelope := Active, Some(envelope.value.(status := Completed));
      if startDate.None? {
        startDate := Some(now);
      }
      ok := true;
    }
  }

  // ----- runs -----

  function Fresh(number: string, ownerName: string, vendorName: string, startDate: Option<int>): State {
    State(Draft, 0, None, ownerName, vendorName, number, startDate, [])
  }

  predicate IsFresh(s: State) {
    s.status == Draft && s.approvalStage == 0 && s.envelope == None && s.executed == []
  }

  lemma FreshRows(number: string, ownerName: string, vendorName: string, startDate: Option<int>)
    ensures var s := Fresh(number, ownerName, vendorName, startDate);
      IsFresh(s) && s.number == number && s.ownerName == ownerName && s.vendorName == vendorName && s.startDate == startDate
  {
  }

  /** A refused request leaves the row alone. */
  function Next(s: State, op: Op): State {
    var after := Perform(s, op);
    if after.Some? then after.value else s
  }

  function Run(s: State, ops: seq<Op>): State {
    if ops == [] then s else Next(Run(s, ops[..|ops| - 1]), ops[|ops| - 1])
  }

  // ----- what every row satisfies -----

  /** The signed signers come first. */
  predicate SignedPrefix(signers: seq<Signer>) {
    forall i, j | 0 <= i < j < |signers| && signers[j].status.Signed? :: signers[i].status.Signed?
  }

  predicate EnvelopeOk(e: Envelope) {
    && |e.signers| == 3
    && SignedPrefix(e.signers)
    && (forall s | s in e.signers :: s.status.Signed? <==> s.signedAt.Some?)
    && (e.status.Completed? ==> AllSigned(e.signers))
    && (e.status.Out? ==> e.sentAt.Some? && forall s | s in e.signers :: !s.status.Waiting?)
  }

  predicate Invariant(s: State) {
    && 0 <= s.approvalStage <= |CHAIN|
    && (s.status in {Draft, InApproval} ==> s.envelope.None?)
    && (s.envelope.Some? ==> EnvelopeOk(s.envelope.value))
    && (s.envelope.Some? && s.envelope.value.status.Completed? ==> s.status in {Active, Expired, Cancelled})
    && (s.executed != [] <==> s.envelope.Some? && s.envelope.value.status.Completed?)
    && |s.executed| <= 1
  }

  lemma CheckKeepsPrefix(e: Envelope, now: int)
    requires EnvelopeOk(e) && !e.status.Completed? && FirstUnsigned(e.signers) < |e.signers|
    ensures var i := FirstUnsigned(e.signers);
      EnvelopeOk(e.(signers := e.signers[i := e.signers[i].(status := Signed, signedAt := Some(now))]))
  {
    var i := FirstUnsigned(e.signers);
    var after := e.signers[i := e.signers[i].(status := Signed, signedAt := Some(now))];
    assert forall s | s in after :: s in e.signers || s == after[i];
  }

  lemma AskingKeeps(e: Envelope, now: int)
    requires EnvelopeOk(e) && !e.status.Completed?
    ensures EnvelopeOk(Envelope(Out, Some(now), AskWaiting(e.signers)))
  {
    var asked := AskWaiting(e.signers);
    forall i | 0 <= i < 3
      ensures asked[i].status.Signed? <==> e.signers[i].status.Signed?
      ensures asked[i].signedAt == e.signers[i].signedAt && !asked[i].status.Waiting?
    {
      assert e.signers[i] in e.signers;
    }
  }

  lemma EmptyIsOk(ownerName: string, vendorName: string)
    ensures EnvelopeOk(EmptySignature(ownerName, vendorName)) && EmptySignature(ownerName, vendorName).status.NotStarted?
  {
  }

  lemma CompletedIsOk(e: Envelope)
    requires EnvelopeOk(e) && AllSigned(e.signers)
    ensures EnvelopeOk(e.(status := Completed))
  {
  }

  lemma NextKeeps(s: State, op: Op)
    requires Invariant(s)
    ensures Invariant(Next(s, op))
  {
    hide EnvelopeOk, EmptySignature, FirstUnsigned, AskWaiting, AllSigned, Or, Trim;
    EmptyIsOk(s.ownerName, s.vendorName);
    match op
    case CheckSignature(now) =>
      if s.status == PendingSignature && s.envelope.Some? && FirstUnsigned(s.envelope.value.signers) < |s.envelope.value.signers| {
        CheckKeepsPrefix(s.envelope.value, now);
      }
    case SendForSignature(now) =>
      if s.status == PendingSignature {
        AskingKeeps(if s.envelope.Some? then s.envelope.value else EmptySignature(s.ownerName, s.vendorName), now);
      }
    case CompleteSignature(_, _) =>
      if s.status == PendingSignature && s.envelope.Some? && AllSigned(s.envelope.value.signers) { CompletedIsOk(s.envelope.value); }
    case _ =>
  }

  /** The invariant of every run, transitions included. */
  lemma {:induction false} RunKeeps(s: State, ops: seq<Op>)
    requires IsFresh(s)
    ensures Invariant(Run(s, ops))
  {
    if ops != [] {
      RunKeeps(s, ops[..|ops| - 1]);
      NextKeeps(Run(s, ops[..|ops| - 1]), ops[|ops| - 1]);
    }
  }

  // ----- what each request is for -----

  /** An edit is taken outside approval and signature, and then the row has exactly the given fields. */
  lemma UpdateWhen(s: State, ownerName: string, vendorName: string, startDate: Option<int>)
    ensures var after := Perform(s, Update(ownerName, vendorName, startDate));
      && (after.Some? <==> s.status in {Draft, Active, Expired, Cancelled})
      && (after.Some? ==>
            after.value == State(s.status, s.approvalStage, s.envelope, ownerName, vendorName, s.number, startDate, s.executed))
  {
    match s.status
    case InApproval =>
    case PendingSignature =>
    case _ =>
  }

  /** An amendment is taken on active contracts only, and changes nothing else. */
  lemma AmendWhen(s: State, startDate: Option<int>)
    ensures var after := Perform(s, Amend(startDate));
      && (after.Some? <==> s.status == Active)
      && (after.Some? ==>
            after.value == State(s.status, s.approvalStage, s.envelope, s.ownerName, s.vendorName, s.number, startDate, s.executed))
  {
  }

  /** Who may be moved where: anything not ended can be cancelled, only an active contract expires. */
  lemma MoveWhen(s: State, to: Status)
    ensures var after := Perform(s, Transition(to));
      && (after.Some? <==>
            match to
            case Cancelled => s.status !in {Expired, Cancelled}
            case Expired => s.status == Active
            case Active => s.status in {InApproval, PendingSignature}
            case PendingSignature => s.status == InApproval
            case Draft => s.status == InApproval
            case InApproval => s.status == Draft)
      && (after.Some? ==>
            after.value == State(to, s.approvalStage, s.envelope, s.ownerName, s.vendorName, s.number, s.startDate, s.executed))
  {
  }

  /** A sending asks whoever waits and keeps who has signed; it stamps the envelope with its time. */
  lemma SendWhen(s: State, now: int)
    requires Invariant(s)
    ensures var after := Perform(s, SendForSignature(now));
      && (after.Some? <==> s.status == PendingSignature)
      && (after.Some? ==>
            && after.value == s.(envelope := after.value.envelope) && after.value.envelope.Some?
            && after.value.envelope.value.sentAt == Some(now) && |after.value.envelope.value.signers| == 3
            && forall i | 0 <= i < 3 ::
                 var x := after.value.envelope.value.signers[i];
                 if s.envelope.Some? && s.envelope.value.signers[i].status == Signed then x == s.envelope.value.signers[i]
                 else x.status == Asked && x.signedAt == None)
  {
    hide SignedPrefix;
    if s.envelope.Some? {
      var e := s.envelope.value;
      assert e.signers[0] in e.signers && e.signers[1] in e.signers && e.signers[2] in e.signers;
    }
  }

  /** A check signs one signer, with its time: the first who has not signed. */
  lemma CheckWhen(s: State, now: int, i: nat)
    requires s.envelope.Some? && i < |s.envelope.value.signers| && s.envelope.value.signers[i].status != Signed
    requires forall j | 0 <= j < i :: s.envelope.value.signers[j].status == Signed
    ensures var e := s.envelope.value;
      Perform(s, CheckSignature(now)) == if s.status == PendingSignature
        then Some(s.(envelope := Some(Envelope(e.status, e.sentAt,
               e.signers[i := Signer(e.signers[i].name, e.signers[i].role, Signed, Some(now))]))))
        else None
  {
  }

  /** A check of a fully signed envelope is taken and changes nothing; without an envelope there is nothing to check. */
  lemma CheckNothing(s: State, now: int)
    requires s.envelope.Some? ==> forall j | 0 <= j < |s.envelope.value.signers| :: s.envelope.value.signers[j].status == Signed
    ensures Perform(s, CheckSignature(now)) == if s.status == PendingSignature && s.envelope.Some? then Some(s) else None
  {
  }

  /** A completion needs a pending, fully signed envelope; it files the named document, or one named after the contract. */
  lemma CompleteWhen(s: State, now: int, fileName: string)
    ensures var after := Perform(s, CompleteSignature(now, fileName));
      && (after.Some? <==>
            && s.status == PendingSignature && s.envelope.Some?
            && forall i | 0 <= i < |s.envelope.value.signers| :: s.envelope.value.signers[i].status == Signed)
      && (after.Some? ==>
            after.value == State(Active, s.approvalStage, Some(s.envelope.value.(status := Completed)), s.ownerName, s.vendorName, s.number,
              if s.startDate == None then Some(now) else s.startDate,
              s.executed + [if Trim(fileName) != "" then Trim(fileName) else "Executed-" + s.number + ".pdf"]))
  {
  }

  // ----- what is signed is what was sent for approval -----

  /** The row was in approval or signature before every request of the run. */
  predicate StaysLocked(s: State, ops: seq<Op>) {
    forall i | 0 <= i < |ops| :: Run(s, ops[..i]).status in {InApproval, PendingSignature}
  }

  lemma StaysLockedInit(s: State, ops: seq<Op>)
    requires ops != [] && StaysLocked(s, ops)
    ensures StaysLocked(s, ops[..|ops| - 1]) && Run(s, ops[..|ops| - 1]).status in {InApproval, PendingSignature}
  {
    hide Run;
    var init := ops[..|ops| - 1];
    assert forall i | 0 <= i < |init| :: init[..i] == ops[..i];
  }

  /**
   * From entering approval until the row returns to draft or leaves signature, transitions included,
   * owner, vendor and start date stay, a completion that fills an absent start date apart.
   */
  lemma {:induction false} FrozenInApproval(s: State, ops: seq<Op>)
    requires StaysLocked(s, ops)
    ensures var after := Run(s, ops);
      && after.ownerName == s.ownerName && after.vendorName == s.vendorName && after.number == s.number
      && |s.executed| <= |after.executed|
      && after.startDate == (if s.startDate == None && |s.executed| < |after.executed| && ops[|ops| - 1].CompleteSignature?
                             then Some(ops[|ops| - 1].now) else s.startDate)
      && (after.status in {InApproval, PendingSignature} ==> after.executed == s.executed)
  {
    hide FirstUnsigned, AskWaiting, EmptySignature, AllSigned, Trim, Or, StaysLocked;
    if ops != [] {
      StaysLockedInit(s, ops);
      FrozenInApproval(s, ops[..|ops| - 1]);
    }
  }

  /** The parties of an envelope are those of a row. */
  predicate Parties(e: Envelope, ownerName: string, vendorName: string) {
    && |e.signers| == 3
    && e.signers[0].name == (if ownerName == "" then "Budget Owner" else ownerName) && e.signers[0].role == "Budget Owner"
    && e.signers[1].name == "CFO" && e.signers[1].role == "CFO"
    && e.signers[2].name == (if vendorName == "" then "Vendor" else vendorName) + " Representative" && e.signers[2].role == "Vendor signatory"
  }

  lemma PartiesStep(s: State, op: Op)
    requires s.envelope.Some? ==> Parties(s.envelope.value, s.ownerName, s.vendorName)
    requires Next(s, op).ownerName == s.ownerName && Next(s, op).vendorName == s.vendorName
    ensures Next(s, op).envelope.Some? ==> Parties(Next(s, op).envelope.value, s.ownerName, s.vendorName)
  {
  }

  /** Who is asked to sign, and has signed at the end, are the parties of the row that was sent for approval. */
  lemma {:induction false} SignedByParties(s: State, ops: seq<Op>)
    requires s.envelope == None && StaysLocked(s, ops)
    ensures Run(s, ops).envelope.Some? ==> Parties(Run(s, ops).envelope.value, s.ownerName, s.vendorName)
  {
    hide Next, Parties, StaysLocked;
    FrozenInApproval(s, ops);
    if ops != [] {
      StaysLockedInit(s, ops);
      FrozenInApproval(s, ops[..|ops| - 1]);
      SignedByParties(s, ops[..|ops| - 1]);
      PartiesStep(Run(s, ops[..|ops| - 1]), ops[|ops| - 1]);
    }
  }

  // ----- an envelope, once written, only progresses -----

  /** Same people, and whoever has signed keeps the signature and its time. */
  predicate Progresses(before: Envelope, after: Envelope) {
    && |before.signers| == |after.signers|
    && (forall i | 0 <= i < |before.signers| ::
          && after.signers[i].name == before.signers[i].name && after.signers[i].role == before.signers[i].role
          && (before.signers[i].status.Signed? ==> after.signers[i] == before.signers[i])
          && (before.signers[i].status.Asked? ==> !after.signers[i].status.Waiting?))
    && (before.status.Completed? ==> after == before)
    && (before.sentAt.Some? ==> after.sentAt.Some?)
  }

  lemma NextProgresses(s: State, op: Op)
    requires Invariant(s) && s.envelope.Some?
    ensures Next(s, op).envelope.Some? && Progresses(s.envelope.value, Next(s, op).envelope.value)
  {
  }

  /** Never reinitialised, never unsigned, final once completed: in every run. */
  lemma {:induction false} EnvelopeHistory(s: State, ops: seq<Op>)
    requires Invariant(s) && s.envelope.Some?
    ensures Invariant(Run(s, ops)) && Run(s, ops).envelope.Some? && Progresses(s.envelope.value, Run(s, ops).envelope.value)
  {
    if ops != [] {
      var before := Run(s, ops[..|ops| - 1]);
      EnvelopeHistory(s, ops[..|ops| - 1]);
      NextKeeps(before, ops[|ops| - 1]);
      NextProgresses(before, ops[|ops| - 1]);
    }
  }

  // ----- how often the status can still change -----

  function StatusChanges(s: State, ops: seq<Op>): nat {
    if ops == [] then 0
    else
      var before := Run(s, ops[..|ops| - 1]);
      StatusChanges(s, ops[..|ops| - 1]) + if Next(before, ops[|ops| - 1]).status != before.status then 1 else 0
  }

  function ChangesLeft(status: Status): nat {
    if status == PendingSignature then 2 else if status == Active then 1 else 0
  }

  /** After leaving draft and approval a contract never returns, and its status changes at most twice more. */
  lemma {:induction false} FewChangesLeft(s: State, ops: seq<Op>)
    requires s.status !in {Draft, InApproval}
    ensures Run(s, ops).status !in {Draft, InApproval}
    ensures StatusChanges(s, ops) + ChangesLeft(Run(s, ops).status) <= ChangesLeft(s.status)
  {
    if ops != [] {
      FewChangesLeft(s, ops[..|ops| - 1]);
    }
  }

  // ----- what it takes to become active -----

  /** A request counts when it is accepted and changes the row. */
  predicate Counts(s: State, op: Op) {
    Perform(s, op).Some? && Next(s, op) != s
  }

  datatype Tally = Tally(sends: nat, advances: nat, signs: nat, completions: nat, activations: nat)

  function Tick(t: Tally, op: Op): Tally {
    match op
    case SendForApproval => t.(sends := t.sends + 1)
    case AdvanceApproval => t.(advances := t.advances + 1)
    case CheckSignature(_) => t.(signs := t.signs + 1)
    case CompleteSignature(_, _) => t.(completions := t.completions + 1)
    case Transition(to) => if to == Active then t.(activations := t.activations + 1) else t
    case _ => t
  }

  /** How many requests of each kind counted in a run. */
  function Tallied(s: State, ops: seq<Op>): Tally {
    if ops == [] then Tally(0, 0, 0, 0, 0)
    else
      var (before, t) := (Run(s, ops[..|ops| - 1]), Tallied(s, ops[..|ops| - 1]));
      if Counts(before, ops[|ops| - 1]) then Tick(t, ops[|ops| - 1]) else t
  }

  predicate WithoutTransition(ops: seq<Op>) {
    forall op | op in ops :: !op.Transition?
  }

  /** In a run without transitions the row tells exactly what has been done. */
  predicate Tells(s: State, t: Tally) {
    match s.status
    case Draft => s.approvalStage == 0 && t == Tally(0, 0, 0, 0, 0)
    case InApproval => 1 <= s.approvalStage <= 5 && t == Tally(1, s.approvalStage - 1, 0, 0, 0)
    case PendingSignature =>
      s.approvalStage == 5 && s.envelope.Some? && t == Tally(1, 5, FirstUnsigned(s.envelope.value.signers), 0, 0)
    case Active => s.approvalStage == 5 && t == Tally(1, 5, 3, 1, 0)
    case _ => false
  }

  lemma SignedPrefixCount(signers: seq<Signer>)
    ensures AllSigned(signers) <==> FirstUnsigned(signers) == |signers|
  {
    var i := FirstUnsigned(signers);
    if i < |signers| { assert signers[i] in signers; }
  }

  lemma {:induction false} FirstUnsignedAfter(signers: seq<Signer>, after: seq<Signer>)
    requires |after| == |signers| && forall i | 0 <= i < |signers| :: after[i].status.Signed? <==> signers[i].status.Signed?
    ensures FirstUnsigned(after) == FirstUnsigned(signers)
  {
  }

  lemma FirstUnsignedSigns(signers: seq<Signer>, signed: Signer)
    requires SignedPrefix(signers) && signed.status.Signed? && FirstUnsigned(signers) < |signers|
    ensures FirstUnsigned(signers[FirstUnsigned(signers) := signed]) == FirstUnsigned(signers) + 1
  {
    var i := FirstUnsigned(signers);
    var after := signers[i := signed];
    var k := FirstUnsigned(after);
    assert k < |signers| && k != i ==> after[k] == signers[k];
    assert i + 1 < |signers| ==> after[i + 1] == signers[i + 1] && !signers[i + 1].status.Signed?;
  }

  lemma TellsStep(s: State, t: Tally, op: Op)
    requires Invariant(s) && Tells(s, t) && !op.Transition?
    ensures Tells(Next(s, op), if Counts(s, op) then Tick(t, op) else t)
  {
    if s.envelope.Some? {
      var e := s.envelope.value;
      SignedPrefixCount(e.signers);
      FirstUnsignedAfter(e.signers, AskWaiting(e.signers));
      var i := FirstUnsigned(e.signers);
      if op.CheckSignature? && i < |e.signers| {
        FirstUnsignedSigns(e.signers, e.signers[i].(status := Signed, signedAt := Some(op.now)));
      }
    }
  }

  /**
   * Without transitions a contract is active only after exactly one send for approval, five
   * approvals, three signatures and one completion, and never expires or is cancelled.
   */
  lemma {:induction false} ApprovalProgress(s: State, ops: seq<Op>)
    requires IsFresh(s) && WithoutTransition(ops)
    ensures Tells(Run(s, ops), Tallied(s, ops))
  {
    if ops != [] {
      var (init, op) := (ops[..|ops| - 1], ops[|ops| - 1]);
      assert op in ops && forall o | o in init :: o in ops;
      ApprovalProgress(s, init);
      RunKeeps(s, init);
      TellsStep(Run(s, init), Tallied(s, init), op);
    }
  }

  // ----- and with transitions -----

  /** Whether a row got past signature by completion or by transition, as its history tells. */
  predicate Entry(s: State, t: Tally) {
    && t.completions + t.activations <= 1
    && (t.completions == 1 <==> s.envelope.Some? && s.envelope.value.status.Completed?)
    && (s.status in {Draft, InApproval, PendingSignature} ==> t.completions == 0 && t.activations == 0)
    && (s.status in {Active, Expired} ==> t.completions + t.activations == 1)
  }

  lemma CompletedAllSigned(s: State)
    requires Invariant(s)
    ensures s.envelope.Some? && s.envelope.value.status.Completed? ==> AllSigned(s.envelope.value.signers)
  {
  }

  lemma EntryStep(s: State, t: Tally, op: Op)
    requires Invariant(s) && Entry(s, t)
    ensures Entry(Next(s, op), if Counts(s, op) then Tick(t, op) else t)
  {
    hide EnvelopeOk, AskWaiting, FirstUnsigned, AllSigned, Or, Trim;
  }

  /**
   * In every run: an active or expired contract carries a completed, fully signed envelope if and
   * only if no transition set it active.
   */
  lemma {:induction false} ActiveBySignature(s: State, ops: seq<Op>)
    requires IsFresh(s)
    ensures Entry(Run(s, ops), Tallied(s, ops))
    ensures Run(s, ops).status in {Active, Expired} ==>
      (Tallied(s, ops).activations == 0 <==>
        Run(s, ops).envelope.Some? && Run(s, ops).envelope.value.status.Completed? && AllSigned(Run(s, ops).envelope.value.signers))
  {
    hide Next, Perform, Tick, Counts, EnvelopeOk, AllSigned;
    RunKeeps(s, ops);
    CompletedAllSigned(Run(s, ops));
    if ops != [] {
      var (before, op) := (Run(s, ops[..|ops| - 1]), ops[|ops| - 1]);
      ActiveBySignature(s, ops[..|ops| - 1]);
      RunKeeps(s, ops[..|ops| - 1]);
      EntryStep(before, Tallied(s, ops[..|ops| - 1]), op);
    }
  }

  /** The bypass: two transitions make a draft active with no approval and no signature. */
  lemma TransitionBypasses(s: State)
    requires IsFresh(s)
    ensures var after := Run(s, [Transition(InApproval), Transition(Active)]);
      after.status == Active && after.approvalStage == 0 && after.envelope == None
  {
    var ops := [Transition(InApproval), Transition(Active)];
    var first := ops[..1];
    assert first[..0] == [] && first[0] == Transition(InApproval);
    assert Run(s, first) == s.(status := InApproval);
    assert ops[..|ops| - 1] == first;
  }

  // ----- whether an envelope was sent -----

  predicate WasSent(s: State) {
    s.envelope.Some? && s.envelope.value.sentAt.Some?
  }

  lemma NextSent(s: State, op: Op)
    requires Invariant(s)
    ensures WasSent(Next(s, op)) <==> WasSent(s) || (op.SendForSignature? && s.status == PendingSignature)
  {
    hide EnvelopeOk, AskWaiting, FirstUnsigned, AllSigned, Or, Trim;
  }

  /**
   * In every run: an envelope, completed or not, was sent exactly when a request to send it came
   * while signature was pending.
   */
  lemma {:induction false} SentWhenAsked(s: State, ops: seq<Op>)
    requires IsFresh(s)
    ensures WasSent(Run(s, ops)) <==>
      exists i :: 0 <= i < |ops| && ops[i].SendForSignature? && Run(s, ops[..i]).status == PendingSignature
  {
    hide Next, Invariant;
    if ops != [] {
      var last := |ops| - 1;
      var init := ops[..last];
      SentWhenAsked(s, init);
      RunKeeps(s, init);
      NextSent(Run(s, init), ops[last]);
      assert forall i | 0 <= i < last :: init[i] == ops[i] && init[..i] == ops[..i];
    }
  }

  lemma {:induction false} RunConcat(s: State, a: seq<Op>, b: seq<Op>)
    ensures Run(s, a + b) == Run(Run(s, a), b)
  {
    if b == [] {
      assert a + b == a;
    } else {
      assert (a + b)[..|a + b| - 1] == a + b[..|b| - 1];
      RunConcat(s, a, b[..|b| - 1]);
    }
  }

  function Advances(n: nat): seq<Op> {
    seq(n, _ => AdvanceApproval)
  }

  lemma {:induction false} RunAdvances(s: State, n: nat)
    requires s.status == InApproval && s.approvalStage == 1 && n <= 5
    ensures Run(s, Advances(n)) == if n < 5 then s.(approvalStage := 1 + n)
      else s.(status := PendingSignature, approvalStage := 5, envelope := Some(EmptySignature(s.ownerName, s.vendorName)))
  {
    if 0 < n {
      assert Advances(n)[..n - 1] == Advances(n - 1);
      RunAdvances(s, n - 1);
    }
  }

  lemma RunOne(s: State, op: Op)
    ensures Run(s, [op]) == Next(s, op)
  {
    assert [op][..0] == [];
  }

  /** Three checks sign a new envelope whether or not it was ever sent. */
  lemma ThreeChecks(s: State, now: int)
    requires s.status == PendingSignature && s.envelope == Some(EmptySignature(s.ownerName, s.vendorName))
    ensures var check := CheckSignature(now);
      var after := Next(Next(Next(s, check), check), check);
      && after.status == PendingSignature && after.envelope.Some? && after.envelope.value.sentAt == None
      && AllSigned(after.envelope.value.signers) && after.startDate == s.startDate
  {
    var check := CheckSignature(now);
    var (one, two) := (Next(s, check), Next(Next(s, check), check));
    assert FirstUnsigned(s.envelope.value.signers) == 0;
    FirstUnsignedSigns(s.envelope.value.signers, one.envelope.value.signers[0]);
    FirstUnsignedSigns(one.envelope.value.signers, two.envelope.value.signers[1]);
  }

  /** Completing what those three checks signed; the envelope still was not sent. */
  lemma CompletesSigned(s: State, now: int, fileName: string)
    requires s.status == PendingSignature && s.envelope == Some(EmptySignature(s.ownerName, s.vendorName))
    ensures var check := CheckSignature(now);
      var after := Next(Next(Next(Next(s, check), check), check), CompleteSignature(now, fileName));
      after.status == Active && after.envelope.Some? && after.envelope.value.status.Completed? && after.envelope.value.sentAt == None
  {
    hide FirstUnsigned, EmptySignature;
    ThreeChecks(s, now);
  }

  lemma ReachesPending(s: State)
    requires IsFresh(s)
    ensures var pending := Run(Next(s, SendForApproval), Advances(5));
      pending.status == PendingSignature && pending.envelope == Some(EmptySignature(pending.ownerName, pending.vendorName))
  {
    RunAdvances(Next(s, SendForApproval), 5);
  }

  /** Completion does not ask whether the envelope was sent: this run never sends it and is signed and active. */
  lemma CompletesUnsent(s: State, now: int, fileName: string)
    requires IsFresh(s)
    ensures var check := CheckSignature(now);
      var after := Run(s, [SendForApproval] + (Advances(5) + ([check] + ([check] + ([check] + [CompleteSignature(now, fileName)])))));
      after.status == Active && after.envelope.Some? && after.envelope.value.status.Completed? && after.envelope.value.sentAt == None
  {
    hide Next, Run, Advances, EmptySignature;
    var (check, complete) := (CheckSignature(now), CompleteSignature(now, fileName));
    var approving := Next(s, SendForApproval);
    var pending := Run(approving, Advances(5));
    ReachesPending(s);
    CompletesSigned(pending, now, fileName);
    RunConcat(s, [SendForApproval], Advances(5) + ([check] + ([check] + ([check] + [complete]))));
    RunOne(s, SendForApproval);
    RunConcat(approving, Advances(5), [check] + ([check] + ([check] + [complete])));
    RunConcat(pending, [check], [check] + ([check] + [complete]));
    RunOne(pending, check);
    RunConcat(Next(pending, check), [check], [check] + [complete]);
    RunOne(Next(pending, check), check);
    RunConcat(Next(Next(pending, check), check), [check], [complete]);
    RunOne(Next(Next(pending, check), check), check);
    RunOne(Next(Next(Next(pending, check), check), check), complete);
  }
}
