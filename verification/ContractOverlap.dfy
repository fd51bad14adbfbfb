/**
 * Contract requests that overlap (contracts.service.ts). Every endpoint reads the row, decides, and
 * then updates the columns it computed; between its read and its update other requests may update.
 */
module ContractOverlap {
  import opened Prelude
  import opened Contracts

  /** A request that has read the row; it updates at most once. */
  datatype Request = Request(op: Op, seen: State, done: bool)

  datatype World = World(row: State, requests: seq<Request>)

  /** A request reads the row, or an earlier one makes its update. */
  datatype Event = Read(op: Op) | Write(request: nat)

  /** The columns a request updates, computed from the row it read; the others keep what they have now. */
  function Patch(row: State, op: Op, seen: State): State {
    var after := Perform(seen, op);
    if after.None? then row
    else
      match op
      case Update(ownerName, vendorName, startDate) => row.(ownerName := ownerName, vendorName := vendorName, startDate := startDate)
      case Amend(start) => row.(startDate := start)
      case Transition(to) => row.(status := to)
      case SendForApproval => row.(status := InApproval, approvalStage := 1)
      case AdvanceApproval =>
        if seen.approvalStage + 1 > |CHAIN| then
          row.(status := PendingSignature, approvalStage := |CHAIN|, envelope := after.value.envelope)
        else row.(approvalStage := after.value.approvalStage)
      case SendForSignature(_) => row.(envelope := after.value.envelope)
      case CheckSignature(_) => if AllSigned(seen.envelope.value.signers) then row else row.(envelope := after.value.envelope)
      case CompleteSignature(_, fileName) => row.(
        status := Active, envelope := after.value.envelope, startDate := after.value.startDate,
        executed := row.executed + [Or(Trim(fileName), "Executed-" + seen.number + ".pdf")])
  }

  /** An update leaves the columns it did not compute as it finds them, not as it read them. */
  lemma OtherColumnsStay(row: State, op: Op, seen: State)
    ensures var after := Patch(row, op, seen);
      && after.number == row.number
      && (!op.Update? ==> after.ownerName == row.ownerName && after.vendorName == row.vendorName)
      && (op.Update? || op.Amend? || op.SendForSignature? || op.CheckSignature? ==>
            after.status == row.status && after.approvalStage == row.approvalStage)
      && (op.Transition? || op.CompleteSignature? ==> after.approvalStage == row.approvalStage)
      && (op.AdvanceApproval? && seen.approvalStage < |CHAIN| ==> after.status == row.status)
      && (op.Update? || op.Amend? || op.Transition? || op.SendForApproval? ==> after.envelope == row.envelope)
      && (op.AdvanceApproval? && seen.approvalStage < |CHAIN| ==> after.envelope == row.envelope)
      && (!op.Update? && !op.Amend? && !op.CompleteSignature? ==> after.startDate == row.startDate)
      && (if op.CompleteSignature? then row.executed <= after.executed else after.executed == row.executed)
  {
    hide FirstUnsigned, AskWaiting, EmptySignature, AllSigned, Trim, Or;
  }

  predicate Pending(w: World, e: Event) {
    e.Write? && e.request < |w.requests| && !w.requests[e.request].done
  }

  function Next(w: World, e: Event): World {
    match e
    case Read(op) => w.(requests := w.requests + [Request(op, w.row, false)])
    case Write(r) =>
      if !Pending(w, e) then w
      else World(Patch(w.row, w.requests[r].op, w.requests[r].seen), w.requests[r := w.requests[r].(done := true)])
  }

  function Run(s: State, es: seq<Event>): World {
    if es == [] then World(s, []) else Next(Run(s, es[..|es| - 1]), es[|es| - 1])
  }

  // ----- what survives every interleaving -----

  /** The stage is in range and an envelope, if any, is well formed: three signers, the signed first, completed only when all signed. */
  predicate Sound(s: State) {
    0 <= s.approvalStage <= |CHAIN| && (s.envelope.Some? ==> EnvelopeOk(s.envelope.value))
  }

  predicate AllSound(w: World) {
    Sound(w.row) && forall r | 0 <= r < |w.requests| :: Sound(w.requests[r].seen)
  }

  lemma AskedOk(e: Envelope, now: int)
    requires EnvelopeOk(e)
    ensures EnvelopeOk(Envelope(Out, Some(now), AskWaiting(e.signers)))
  {
    AskingKeeps(e.(status := NotStarted), now);
  }

  lemma CheckedOk(e: Envelope, now: int)
    requires EnvelopeOk(e) && FirstUnsigned(e.signers) < |e.signers|
    ensures var i := FirstUnsigned(e.signers);
      EnvelopeOk(e.(signers := e.signers[i := e.signers[i].(status := Signed, signedAt := Some(now))]))
  {
    SignedPrefixCount(e.signers);
    CheckKeepsPrefix(e, now);
  }

  lemma PatchSound(row: State, op: Op, seen: State)
    requires Sound(row) && Sound(seen)
    ensures Sound(Patch(row, op, seen))
  {
    hide EnvelopeOk, EmptySignature, FirstUnsigned, AskWaiting, AllSigned, Or, Trim;
    EmptyIsOk(seen.ownerName, seen.vendorName);
    var e := if seen.envelope.Some? then seen.envelope.value else EmptySignature(seen.ownerName, seen.vendorName);
    match op
    case SendForSignature(now) => AskedOk(e, now);
    case CheckSignature(now) => if FirstUnsigned(e.signers) < |e.signers| { CheckedOk(e, now); }
    case CompleteSignature(_, _) => if AllSigned(e.signers) { CompletedIsOk(e); }
    case _ =>
  }

  /** In every interleaving of reads and updates: the stage stays in range and the envelope well formed. */
  lemma {:induction false} RunSound(s: State, es: seq<Event>)
    requires Sound(s)
    ensures AllSound(Run(s, es))
  {
    hide Sound, Patch;
    if es != [] {
      var (w, e) := (Run(s, es[..|es| - 1]), es[|es| - 1]);
      RunSound(s, es[..|es| - 1]);
      if Pending(w, e) { PatchSound(w.row, w.requests[e.request].op, w.requests[e.request].seen); }
    }
  }

  // ----- executed documents -----

  /** The update of a completion that was decided on a fully signed envelope. */
  predicate Completes(w: World, e: Event) {
    Pending(w, e) && w.requests[e.request].op.CompleteSignature? && Perform(w.requests[e.request].seen, w.requests[e.request].op).Some?
  }

  function Completions(s: State, es: seq<Event>): nat {
    if es == [] then 0
    else Completions(s, es[..|es| - 1]) + if Completes(Run(s, es[..|es| - 1]), es[|es| - 1]) then 1 else 0
  }

  /**
   * Every completion's update files a document. So there is at most one exactly when at most one
   * completion updates.
   */
  lemma {:induction false} ExecutedCounts(s: State, es: seq<Event>)
    ensures |Run(s, es).row.executed| == |s.executed| + Completions(s, es)
  {
    if es != [] { ExecutedCounts(s, es[..|es| - 1]); }
  }

  // ----- when all of the sequential invariant holds -----

  /** Every update finds the row its request read. */
  predicate Undisturbed(s: State, es: seq<Event>) {
    es == [] || (
      && Undisturbed(s, es[..|es| - 1])
      && var (w, e) := (Run(s, es[..|es| - 1]), es[|es| - 1]);
         Pending(w, e) ==> w.requests[e.request].seen == w.row)
  }

  /** The requests in the order of their updates. */
  function Serial(s: State, es: seq<Event>): seq<Op> {
    if es == [] then []
    else
      var (w, e) := (Run(s, es[..|es| - 1]), es[|es| - 1]);
      Serial(s, es[..|es| - 1]) + if Pending(w, e) then [w.requests[e.request].op] else []
  }

  /** An update of the row that was read is the whole request at once. */
  lemma PatchOfSeen(s: State, op: Op)
    ensures Patch(s, op, s) == Contracts.Next(s, op)
  {
    hide AskWaiting, EmptySignature, Or, Trim;
    if op.CheckSignature? && s.envelope.Some? { SignedPrefixCount(s.envelope.value.signers); }
  }

  /** Such a run is a sequential one, so everything proved of sequential runs holds of it. */
  lemma {:induction false} SerialRun(s: State, es: seq<Event>)
    requires Undisturbed(s, es)
    ensures Run(s, es).row == Contracts.Run(s, Serial(s, es))
  {
    hide Patch, Contracts.Next;
    if es != [] {
      var (init, e) := (es[..|es| - 1], es[|es| - 1]);
      var w := Run(s, init);
      SerialRun(s, init);
      if Pending(w, e) {
        PatchOfSeen(w.row, w.requests[e.request].op);
        SerialNext(s, Serial(s, init), w.requests[e.request].op);
      } else {
        assert Serial(s, es) == Serial(s, init);
      }
    }
  }

  lemma SerialNext(s: State, ops: seq<Op>, op: Op)
    ensures Contracts.Run(s, ops + [op]) == Contracts.Next(Contracts.Run(s, ops), op)
  {
    assert (ops + [op])[..|ops|] == ops;
  }

  lemma SerialKeeps(s: State, es: seq<Event>)
    requires IsFresh(s) && Undisturbed(s, es)
    ensures Invariant(Run(s, es).row)
  {
    hide Run, Undisturbed, Serial, Contracts.Run, Invariant;
    SerialRun(s, es);
    RunKeeps(s, Serial(s, es));
  }

  // ----- what two overlapping requests break -----

  /** Two requests that read the same row and then both update. */
  function Both(p: Op, q: Op): seq<Event> {
    [Read(p), Read(q), Write(0), Write(1)]
  }

  lemma BothRun(s: State, p: Op, q: Op)
    ensures Run(s, Both(p, q)).row == Patch(Patch(s, p, s), q, s)
  {
    hide Patch;
    var es := Both(p, q);
    assert es[..3][..2] == es[..2] && es[..2][..1] == es[..1] && es[..1][..0] == [];
    assert Run(s, es[..1]) == World(s, [Request(p, s, false)]);
    assert Run(s, es[..2]) == World(s, [Request(p, s, false), Request(q, s, false)]);
    assert Run(s, es[..3]) == World(Patch(s, p, s), [Request(p, s, true), Request(q, s, false)]);
  }

  /** Two completions of one signed envelope both go through and file two documents. */
  lemma CompletedTwice(s: State, p: Op, q: Op)
    requires p.CompleteSignature? && q.CompleteSignature?
    requires Perform(s, p).Some?
    ensures |Run(s, Both(p, q)).row.executed| == |s.executed| + 2
  {
    BothRun(s, p, q);
  }

  /** Two checks that both read the first unsigned signer add one signature, not two. */
  lemma SignedOnce(s: State, p: Op, q: Op)
    requires p.CheckSignature? && q.CheckSignature? && s.status == PendingSignature && s.envelope.Some?
    ensures Run(s, Both(p, q)).row == Contracts.Next(s, q)
  {
    BothRun(s, p, q);
    PatchOfSeen(s, p);
    PatchOfSeen(s, q);
    SignedPrefixCount(s.envelope.value.signers);
  }

  /** The last approval overtaken by a move back to draft leaves a draft with an envelope. */
  lemma DraftWithEnvelope(s: State)
    requires s.status == InApproval && s.approvalStage == |CHAIN|
    ensures var after := Run(s, Both(AdvanceApproval, Transition(Draft))).row;
      after.status == Draft && after.envelope.Some?
  {
    BothRun(s, AdvanceApproval, Transition(Draft));
  }

  /** A completion overtaken by a sending of the envelope leaves an active contract whose envelope is not completed. */
  lemma CompletedUndone(s: State, now: int, fileName: string)
    requires s.status == PendingSignature && s.envelope.Some? && AllSigned(s.envelope.value.signers)
    ensures var after := Run(s, Both(CompleteSignature(now, fileName), SendForSignature(now))).row;
      after.status == Active && after.executed != [] && after.envelope.Some? && !after.envelope.value.status.Completed?
  {
    BothRun(s, CompleteSignature(now, fileName), SendForSignature(now));
  }
}
