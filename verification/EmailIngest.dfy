/**
 * Email ingest under concurrent calls (capture.service.ts, ingestEmail). Each call runs its own
 * sequence of database operations; operations of different calls interleave in any order and any
 * of them may fail. Rows are unique in tenant and message id (schema.prisma, model EmailIngest).
 */
module EmailIngest {
  import opened Prelude

  datatype Key = Key(tenant: string, messageId: string)

  datatype Status = Processing | Done | Failed

  datatype Row = Row(key: Key, status: Status, invoice: Option<nat>)

  /** A started upload; its position in the log is the invoice it creates. */
  datatype Upload = Upload(row: nat, call: nat)

  datatype Answer = Duplicate(row: nat, status: Status, invoice: Option<nat>) | Ingested(ingestedRow: nat, upload: nat) | Threw

  /** Where a call stands: before its lookup, its insert, its upload, ..., or returned. */
  datatype Point =
    | Looking
    | Inserting
    | Uploading(row: nat)
    | Awaiting(row: nat, upload: nat)
    | Storing(row: nat, upload: nat)
    | Auditing(row: nat, upload: nat)
    | Failing(row: nat)
    | Returned(answer: Answer)

  datatype Call = Call(key: Key, at: Point)

  datatype World = World(rows: seq<Row>, uploads: seq<Upload>, calls: seq<Call>)

  /** A request arrives, or one call makes its next move; `fault` makes that operation fail. */
  datatype Event = Arrive(key: Key) | Move(call: nat, fault: bool)

  predicate HasRow(rows: seq<Row>, key: Key) {
    exists r :: 0 <= r < |rows| && rows[r].key == key
  }

  /** findUnique on tenant and message id. */
  function FindRow(rows: seq<Row>, key: Key): (r: nat)
    ensures r <= |rows|
    ensures r < |rows| ==> rows[r].key == key
    ensures r == |rows| ==> !HasRow(rows, key)
  {
    if rows == [] then 0
    else if rows[0].key == key then 0
    else
      var r := FindRow(rows[1..], key);
      assert r == |rows[1..]| ==> forall i | 1 <= i < |rows| :: rows[i] == rows[1..][i - 1];
      assert r == |rows[1..]| ==> forall i | 0 <= i < |rows[1..]| :: rows[1..][i].key != key;
      1 + r
  }

  /** One move of call c. */
  function Moved(w: World, c: nat, fault: bool): World
    requires c < |w.calls|
  {
    var call := w.calls[c];
    var to := (p: Point) => w.calls[c := call.(at := p)];
    match call.at
    case Looking =>
      if fault then w.(calls := to(Returned(Threw)))
      else
        var r := FindRow(w.rows, call.key);
        if r < |w.rows| then w.(calls := to(Returned(Duplicate(r, w.rows[r].status, w.rows[r].invoice))))
        else w.(calls := to(Inserting))
    case Inserting =>
      // outside the try: a unique violation is thrown to the caller
      if fault || FindRow(w.rows, call.key) < |w.rows| then w.(calls := to(Returned(Threw)))
      else World(w.rows + [Row(call.key, Processing, None)], w.uploads, to(Uploading(|w.rows|)))
    case Uploading(row) =>
      World(w.rows, w.uploads + [Upload(row, c)], to(Awaiting(row, |w.uploads|)))
    case Awaiting(row, upload) =>
      w.(calls := to(if fault then Failing(row) else Storing(row, upload)))
    case Storing(row, upload) =>
      if fault || row >= |w.rows| then w.(calls := to(Failing(row)))
      else World(w.rows[row := w.rows[row].(status := Done, invoice := Some(upload))], w.uploads, to(Auditing(row, upload)))
    case Auditing(row, upload) =>
      w.(calls := to(if fault then Failing(row) else Returned(Ingested(row, upload))))
    case Failing(row) =>
      if fault || row >= |w.rows| then w.(calls := to(Returned(Threw)))
      else World(w.rows[row := w.rows[row].(status := Failed)], w.uploads, to(Returned(Threw)))
    case Returned(_) => w
  }

  function Step(w: World, e: Event): World {
    match e
    case Arrive(key) => w.(calls := w.calls + [Call(key, Looking)])
    case Move(c, fault) => if c < |w.calls| then Moved(w, c, fault) else w
  }

  const Start := World([], [], [])

  function Run(w: World, es: seq<Event>): World {
    if es == [] then w else Step(Run(w, es[..|es| - 1]), es[|es| - 1])
  }

  // ----- the invariant -----

  /** The row a call is working on. */
  function Held(p: Point): Option<nat> {
    match p
    case Uploading(row) => Some(row)
    case Awaiting(row, _) => Some(row)
    case Storing(row, _) => Some(row)
    case Auditing(row, _) => Some(row)
    case Failing(row) => Some(row)
    case _ => None
  }

  function UploadOf(p: Point): Option<nat> {
    match p
    case Awaiting(_, u) => Some(u)
    case Storing(_, u) => Some(u)
    case Auditing(_, u) => Some(u)
    case _ => None
  }

  predicate DistinctRows(w: World) {
    forall r, s | 0 <= r < s < |w.rows| :: w.rows[r].key != w.rows[s].key
  }

  /** No two calls work on one row, and the row is for the call's message. */
  predicate HoldersApart(w: World) {
    && (forall c | 0 <= c < |w.calls| && Held(w.calls[c].at).Some? ::
          Held(w.calls[c].at).value < |w.rows| && w.rows[Held(w.calls[c].at).value].key == w.calls[c].key)
    && (forall c, d | 0 <= c < d < |w.calls| && Held(w.calls[c].at).Some? :: Held(w.calls[c].at) != Held(w.calls[d].at))
  }

  /** No two uploads are for one row, and a call about to upload has not uploaded. */
  predicate UploadsApart(w: World) {
    && (forall u | 0 <= u < |w.uploads| :: w.uploads[u].row < |w.rows|)
    && (forall u, v | 0 <= u < v < |w.uploads| :: w.uploads[u].row != w.uploads[v].row)
    && (forall c, u | 0 <= c < |w.calls| && 0 <= u < |w.uploads| && w.calls[c].at.Uploading? :: w.uploads[u].row != w.calls[c].at.row)
    && (forall c | 0 <= c < |w.calls| && UploadOf(w.calls[c].at).Some? ::
          UploadOf(w.calls[c].at).value < |w.uploads| && w.uploads[UploadOf(w.calls[c].at).value] == Upload(Held(w.calls[c].at).value, c))
  }

  /** A row carries only its own upload's invoice, and a completed row carries one. */
  predicate InvoicesOwn(w: World) {
    forall r | 0 <= r < |w.rows| ::
      && (w.rows[r].invoice.Some? ==> w.rows[r].invoice.value < |w.uploads| && w.uploads[w.rows[r].invoice.value].row == r)
      && (w.rows[r].status.Done? ==> w.rows[r].invoice.Some?)
  }

  predicate Invariant(w: World) {
    DistinctRows(w) && HoldersApart(w) && UploadsApart(w) && InvoicesOwn(w)
  }

  /** What a move leaves alone: the other calls, the keys of rows, and earlier uploads. */
  lemma MovedFrame(w: World, c: nat, fault: bool)
    requires c < |w.calls|
    ensures var v := Moved(w, c, fault);
      && |v.calls| == |w.calls| && v.calls[c].key == w.calls[c].key
      && (forall d | 0 <= d < |w.calls| && d != c :: v.calls[d] == w.calls[d])
      && |w.rows| <= |v.rows| && (forall r | 0 <= r < |w.rows| :: v.rows[r].key == w.rows[r].key)
      && |w.uploads| <= |v.uploads| && (forall u | 0 <= u < |w.uploads| :: v.uploads[u] == w.uploads[u])
      && (forall r | 0 <= r < |w.rows| && Held(w.calls[c].at) != Some(r) :: v.rows[r] == w.rows[r])
  {
  }

  lemma MovedRows(w: World, c: nat, fault: bool)
    requires Invariant(w) && c < |w.calls|
    ensures DistinctRows(Moved(w, c, fault))
  {
    MovedFrame(w, c, fault);
  }

  lemma MovedHolders(w: World, c: nat, fault: bool)
    requires Invariant(w) && c < |w.calls|
    ensures HoldersApart(Moved(w, c, fault))
  {
    hide DistinctRows, UploadsApart, InvoicesOwn;
    MovedFrame(w, c, fault);
  }

  /** How a move changes the uploads and the moving call's own upload. */
  lemma MovedCall(w: World, c: nat, fault: bool)
    requires c < |w.calls|
    ensures var (p, v) := (w.calls[c].at, Moved(w, c, fault)); var q := v.calls[c].at;
      && v.uploads == w.uploads + (if p.Uploading? then [Upload(p.row, c)] else [])
      && (q.Uploading? ==> p.Inserting? && q.row == |w.rows|)
      && (UploadOf(q).Some? ==>
            if p.Uploading? then q == Awaiting(p.row, |w.uploads|) else UploadOf(p) == UploadOf(q) && Held(p) == Held(q))
  {
  }

  lemma MovedUploads(w: World, c: nat, fault: bool)
    requires Invariant(w) && c < |w.calls|
    ensures UploadsApart(Moved(w, c, fault))
  {
    hide Moved, DistinctRows, InvoicesOwn;
    MovedFrame(w, c, fault);
    MovedCall(w, c, fault);
  }

  lemma MovedInvoices(w: World, c: nat, fault: bool)
    requires Invariant(w) && c < |w.calls|
    ensures InvoicesOwn(Moved(w, c, fault))
  {
    hide DistinctRows;
    MovedFrame(w, c, fault);
  }

  lemma MovedKeeps(w: World, c: nat, fault: bool)
    requires Invariant(w) && c < |w.calls|
    ensures Invariant(Moved(w, c, fault))
  {
    hide Moved, DistinctRows, HoldersApart, UploadsApart, InvoicesOwn;
    MovedRows(w, c, fault);
    MovedHolders(w, c, fault);
    MovedUploads(w, c, fault);
    MovedInvoices(w, c, fault);
  }

  lemma {:induction false} RunKeeps(es: seq<Event>)
    ensures Invariant(Run(Start, es))
  {
    if es != [] {
      RunKeeps(es[..|es| - 1]);
      var (w, e) := (Run(Start, es[..|es| - 1]), es[|es| - 1]);
      if e.Move? && e.call < |w.calls| { MovedKeeps(w, e.call, e.fault); } else { ArriveKeeps(w, e); }
    }
  }

  /** How many uploads were started for a message. */
  function UploadCount(w: World, key: Key, n: nat): nat
    requires n <= |w.uploads|
  {
    if n == 0 then 0
    else
      var u := w.uploads[n - 1];
      UploadCount(w, key, n - 1) + if u.row < |w.rows| && w.rows[u.row].key == key then 1 else 0
  }

  lemma {:induction false} OneUpload(w: World, key: Key, n: nat)
    requires Invariant(w) && n <= |w.uploads|
    ensures UploadCount(w, key, n) <= 1
    ensures UploadCount(w, key, n) == 1 ==> exists u :: 0 <= u < n && w.rows[w.uploads[u].row].key == key
  {
    if 0 < n { OneUpload(w, key, n - 1); }
  }

  /**
   * At most once, in every interleaving: a message has at most one row and starts at most one
   * upload; a completed row, and an answer to its caller, name the invoice of that upload.
   */
  lemma AtMostOnce(es: seq<Event>, key: Key)
    ensures var w := Run(Start, es);
      && (forall r, s | 0 <= r < |w.rows| && 0 <= s < |w.rows| && w.rows[r].key == key && w.rows[s].key == key :: r == s)
      && UploadCount(w, key, |w.uploads|) <= 1
      && (forall r | 0 <= r < |w.rows| && w.rows[r].status.Done? ::
            w.rows[r].invoice.Some? && w.rows[r].invoice.value < |w.uploads| && w.uploads[w.rows[r].invoice.value].row == r)
  {
    RunKeeps(es);
    OneUpload(Run(Start, es), key, |Run(Start, es).uploads|);
  }

  // ----- settled rows -----

  /** The row exists and no call works on it any more. */
  predicate Settled(w: World, r: nat) {
    r < |w.rows| && forall c | 0 <= c < |w.calls| :: Held(w.calls[c].at) != Some(r)
  }

  /**
   * A settled row is final, and no further upload is started for it. In particular a failed ingest
   * is never retried.
   */
  lemma {:induction false} SettledFinal(w: World, es: seq<Event>, r: nat)
    requires Invariant(w) && Settled(w, r)
    ensures var v := Run(w, es);
      && Invariant(v) && Settled(v, r) && v.rows[r] == w.rows[r]
      && |w.uploads| <= |v.uploads| && v.uploads[..|w.uploads|] == w.uploads
      && forall u | |w.uploads| <= u < |v.uploads| :: v.uploads[u].row != r
  {
    if es != [] {
      SettledFinal(w, es[..|es| - 1], r);
      SettledStep(Run(w, es[..|es| - 1]), es[|es| - 1], r);
    }
  }

  lemma SettledStep(w: World, e: Event, r: nat)
    requires Invariant(w) && Settled(w, r)
    ensures var v := Step(w, e);
      && Invariant(v) && Settled(v, r) && v.rows[r] == w.rows[r]
      && |w.uploads| <= |v.uploads| && v.uploads[..|w.uploads|] == w.uploads
      && forall u | |w.uploads| <= u < |v.uploads| :: v.uploads[u].row != r
  {
    hide Invariant;
    if e.Move? && e.call < |w.calls| {
      MovedKeeps(w, e.call, e.fault);
      MovedFrame(w, e.call, e.fault);
      assert Held(w.calls[e.call].at) != Some(r);
    } else {
      ArriveKeeps(w, e);
    }
  }

  lemma ArriveKeeps(w: World, e: Event)
    requires Invariant(w) && (e.Move? ==> |w.calls| <= e.call)
    ensures Invariant(Step(w, e))
  {
  }

  /** The answer a fresh call gets for a message whose row is settled. */
  lemma LateCallIsDuplicate(w: World, key: Key, r: nat)
    requires Invariant(w) && Settled(w, r) && w.rows[r].key == key
    ensures var v := Step(Step(w, Arrive(key)), Move(|w.calls|, false));
      v.calls[|w.calls|].at == Returned(Duplicate(r, w.rows[r].status, w.rows[r].invoice)) && v.uploads == w.uploads
  {
    var found := FindRow(w.rows, key);
    assert HasRow(w.rows, key);
  }

  // ----- who uploads -----

  /** A call is about to upload or has uploaded. */
  predicate Began(w: World, c: nat)
    requires c < |w.calls|
  {
    w.calls[c].at.Uploading? || exists u :: 0 <= u < |w.uploads| && w.uploads[u].call == c
  }

  /** The event is call c's insert, and there is no row for its message yet. */
  predicate Inserts(w: World, e: Event, c: nat) {
    e == Move(c, false) && c < |w.calls| && w.calls[c].at.Inserting? && !HasRow(w.rows, w.calls[c].key)
  }

  lemma StepBegan(w: World, e: Event, c: nat)
    requires Invariant(w) && UploadersKnown(w) && c < |Step(w, e).calls|
    ensures Began(Step(w, e), c) <==> (c < |w.calls| && Began(w, c)) || Inserts(w, e, c)
  {
    hide DistinctRows, HoldersApart, InvoicesOwn;
    if e.Move? && e.call < |w.calls| {
      var (p, q) := (w.calls[e.call].at, Moved(w, e.call, e.fault).calls[e.call].at);
      MovedFrame(w, e.call, e.fault);
      MovedCall(w, e.call, e.fault);
      InsertMoves(w, e.call, e.fault);
      assert p.Uploading? ==> Step(w, e).uploads[|w.uploads|] == Upload(p.row, e.call);
    }
  }

  lemma InsertMoves(w: World, c: nat, fault: bool)
    requires c < |w.calls|
    ensures Moved(w, c, fault).calls[c].at.Uploading? <==> Inserts(w, Move(c, fault), c)
  {
  }

  predicate UploadersKnown(w: World) {
    forall u | 0 <= u < |w.uploads| :: w.uploads[u].call < |w.calls|
  }

  /** Calls and rows are only added, and rows keep their messages. */
  predicate Extends(w: World, v: World) {
    && |w.calls| <= |v.calls| && |w.rows| <= |v.rows|
    && forall r | 0 <= r < |w.rows| :: v.rows[r].key == w.rows[r].key
  }

  lemma StepExtends(w: World, e: Event)
    requires Invariant(w) && UploadersKnown(w)
    ensures Invariant(Step(w, e)) && UploadersKnown(Step(w, e)) && Extends(w, Step(w, e))
  {
    hide Moved, Invariant;
    if e.Move? && e.call < |w.calls| {
      MovedKeeps(w, e.call, e.fault);
      MovedFrame(w, e.call, e.fault);
      MovedCall(w, e.call, e.fault);
    } else {
      ArriveKeeps(w, e);
    }
  }

  lemma {:induction false} RunExtends(w: World, es: seq<Event>)
    requires Invariant(w) && UploadersKnown(w)
    ensures Invariant(Run(w, es)) && UploadersKnown(Run(w, es)) && Extends(w, Run(w, es))
  {
    hide Step, Invariant;
    if es != [] {
      RunExtends(w, es[..|es| - 1]);
      StepExtends(Run(w, es[..|es| - 1]), es[|es| - 1]);
    }
  }

  lemma {:induction false} CallsGrow(es: seq<Event>, i: nat)
    requires i <= |es|
    ensures |Run(Start, es[..i]).calls| <= |Run(Start, es).calls|
  {
    hide Step, Invariant;
    if i < |es| {
      var init := es[..|es| - 1];
      CallsGrow(init, i);
      assert init[..i] == es[..i];
      StartSound();
      RunExtends(Start, init);
      StepExtends(Run(Start, init), es[|es| - 1]);
    } else {
      assert es[..i] == es;
    }
  }

  lemma StartSound()
    ensures Invariant(Start) && UploadersKnown(Start)
  {
  }

  /** A call that has not arrived has not inserted. */
  lemma NotYetInserted(es: seq<Event>, c: nat)
    requires |Run(Start, es).calls| <= c
    ensures forall i | 0 <= i < |es| :: !Inserts(Run(Start, es[..i]), es[i], c)
  {
    hide Run;
    forall i | 0 <= i < |es|
      ensures !Inserts(Run(Start, es[..i]), es[i], c)
    {
      CallsGrow(es, i);
    }
  }

  /** Some event so far was the call's insert. */
  predicate Inserted(es: seq<Event>, c: nat) {
    exists i :: 0 <= i < |es| && Inserts(Run(Start, es[..i]), es[i], c)
  }

  lemma InsertedNext(es: seq<Event>, e: Event, c: nat)
    ensures Inserted(es + [e], c) <==> Inserted(es, c) || Inserts(Run(Start, es), e, c)
  {
    hide Run, Inserts;
    var all := es + [e];
    assert all[..|es|] == es && all[|es|] == e;
    assert forall i | 0 <= i < |es| :: all[i] == es[i] && all[..i] == es[..i];
  }

  /**
   * Who uploads, in every interleaving: a call goes on to its upload exactly when no row for its
   * message existed at its insert.
   */
  lemma {:induction false} UploadsWhenFirst(es: seq<Event>, c: nat)
    requires c < |Run(Start, es).calls|
    ensures Began(Run(Start, es), c) <==> exists i :: 0 <= i < |es| && Inserts(Run(Start, es[..i]), es[i], c)
  {
    hide Step, Inserts, Began, Invariant, UploadersKnown;
    var (init, e) := (es[..|es| - 1], es[|es| - 1]);
    var w := Run(Start, init);
    assert es == init + [e];
    StartSound();
    RunExtends(Start, init);
    StepBegan(w, e, c);
    InsertedNext(init, e, c);
    if c < |w.calls| { UploadsWhenFirst(init, c); } else { NotYetInserted(init, c); }
  }

  // ----- calls that come too late -----

  /** The call is still to look, or was refused, or was told of row r; it has not uploaded. */
  predicate Late(w: World, v: World, r: nat, c: nat)
    requires r < |w.rows| && c < |v.calls|
  {
    && (forall u | 0 <= u < |v.uploads| :: v.uploads[u].call != c)
    && match v.calls[c].at
       case Looking => true
       case Returned(Threw) => true
       case Returned(Duplicate(row, status, invoice)) =>
         row == r && (Settled(w, r) ==> status == w.rows[r].status && invoice == w.rows[r].invoice)
       case _ => false
  }

  /**
   * In every interleaving a call that arrives when its message has a row starts no upload and, if it
   * is answered, is a duplicate of that row, however late it looks; of a settled row it is told the
   * final status and invoice.
   */
  lemma {:induction false} LateCalls(w: World, es: seq<Event>, r: nat, c: nat)
    requires Invariant(w) && UploadersKnown(w) && r < |w.rows|
    requires |w.calls| <= c < |Run(w, es).calls| && Run(w, es).calls[c].key == w.rows[r].key
    ensures Late(w, Run(w, es), r, c)
  {
    hide Step, Invariant, Late, Settled;
    if es != [] {
      var (init, e) := (es[..|es| - 1], es[|es| - 1]);
      var v := Run(w, init);
      RunExtends(w, init);
      if c < |v.calls| {
        KeysStay(v, e, c);
        LateCalls(w, init, r, c);
        if Settled(w, r) { SettledFinal(w, init, r); }
        LateStep(w, v, e, r, c);
      } else {
        LateArrives(w, v, e, r, c);
      }
    }
  }

  lemma KeysStay(v: World, e: Event, c: nat)
    requires c < |v.calls|
    ensures c < |Step(v, e).calls| && Step(v, e).calls[c].key == v.calls[c].key
  {
    hide Moved;
    if e.Move? && e.call < |v.calls| { MovedFrame(v, e.call, e.fault); }
  }

  lemma LateArrives(w: World, v: World, e: Event, r: nat, c: nat)
    requires r < |w.rows| && UploadersKnown(v) && |v.calls| <= c < |Step(v, e).calls|
    ensures Late(w, Step(v, e), r, c)
  {
    hide Moved;
    if e.Move? && e.call < |v.calls| { MovedFrame(v, e.call, e.fault); }
  }

  lemma LateStep(w: World, v: World, e: Event, r: nat, c: nat)
    requires Invariant(v) && Extends(w, v) && r < |w.rows| && c < |v.calls| && v.calls[c].key == w.rows[r].key
    requires Late(w, v, r, c) && (Settled(w, r) ==> v.rows[r] == w.rows[r])
    ensures c < |Step(v, e).calls| && Late(w, Step(v, e), r, c)
  {
    hide HoldersApart, UploadsApart, InvoicesOwn, Settled;
    if e.Move? && e.call < |v.calls| {
      MovedCall(v, e.call, e.fault);
      MovedFrame(v, e.call, e.fault);
      assert HasRow(v.rows, v.calls[c].key);
    }
  }

  // ----- who is answered with an invoice -----

  /** A call told of an invoice was for that row's message, and the invoice is the one it uploaded. */
  predicate AnswersOwn(w: World) {
    forall c | 0 <= c < |w.calls| && w.calls[c].at.Returned? && w.calls[c].at.answer.Ingested? ::
      var a := w.calls[c].at.answer;
      && a.ingestedRow < |w.rows| && a.upload < |w.uploads|
      && w.rows[a.ingestedRow].key == w.calls[c].key && w.uploads[a.upload] == Upload(a.ingestedRow, c)
  }

  lemma MovedAnswers(w: World, c: nat, fault: bool)
    requires Invariant(w) && AnswersOwn(w) && c < |w.calls|
    ensures AnswersOwn(Moved(w, c, fault))
  {
    hide DistinctRows, InvoicesOwn;
    MovedFrame(w, c, fault);
  }

  lemma {:induction false} IngestedAnswers(es: seq<Event>)
    ensures AnswersOwn(Run(Start, es))
  {
    hide Invariant, Moved;
    if es != [] {
      IngestedAnswers(es[..|es| - 1]);
      RunKeeps(es[..|es| - 1]);
      var (w, e) := (Run(Start, es[..|es| - 1]), es[|es| - 1]);
      if e.Move? && e.call < |w.calls| { MovedAnswers(w, e.call, e.fault); }
    }
  }

  // ----- when an ingest succeeds -----

  /** One of the call's operations after its upload was started fails: the upload, the row's update or the audit. */
  predicate Fails(w: World, e: Event, c: nat) {
    e == Move(c, true) && c < |w.calls| && (w.calls[c].at.Awaiting? || w.calls[c].at.Storing? || w.calls[c].at.Auditing?)
  }

  /** The update that marks the call's row as failed goes through. */
  predicate Marks(w: World, e: Event, c: nat) {
    e == Move(c, false) && c < |w.calls| && w.calls[c].at.Failing?
  }

  predicate HasFailed(es: seq<Event>, c: nat) {
    es != [] && (HasFailed(es[..|es| - 1], c) || Fails(Run(Start, es[..|es| - 1]), es[|es| - 1], c))
  }

  predicate WasMarked(es: seq<Event>, c: nat) {
    es != [] && (WasMarked(es[..|es| - 1], c) || Marks(Run(Start, es[..|es| - 1]), es[|es| - 1], c))
  }

  /** The call has started an upload for the row. */
  predicate Sent(w: World, c: nat, row: nat) {
    exists u :: 0 <= u < |w.uploads| && w.uploads[u] == Upload(row, c)
  }

  predicate SentNothing(w: World, c: nat) {
    forall u | 0 <= u < |w.uploads| :: w.uploads[u].call != c
  }

  /** Where a call stands tells whether something failed and what its row says. */
  predicate Told(w: World, c: nat, failed: bool, marked: bool)
    requires c < |w.calls|
  {
    var key := w.calls[c].key;
    match w.calls[c].at
    case Looking => !failed && !marked && SentNothing(w, c)
    case Inserting => !failed && !marked && SentNothing(w, c)
    case Uploading(row) => !failed && !marked && SentNothing(w, c) && row < |w.rows| && w.rows[row] == Row(key, Processing, None)
    case Awaiting(row, u) => !failed && !marked && row < |w.rows| && w.rows[row] == Row(key, Processing, None) && Sent(w, c, row)
    case Storing(row, u) => !failed && !marked && row < |w.rows| && w.rows[row] == Row(key, Processing, None) && Sent(w, c, row)
    case Auditing(row, u) => !failed && !marked && row < |w.rows| && w.rows[row] == Row(key, Done, Some(u)) && Sent(w, c, row)
    case Failing(row) => failed && !marked && row < |w.rows| && w.rows[row].status != Failed && Sent(w, c, row)
    case Returned(Duplicate(_, _, _)) => !failed && !marked && SentNothing(w, c)
    case Returned(Ingested(row, u)) => !failed && !marked && row < |w.rows| && w.rows[row] == Row(key, Done, Some(u)) && Sent(w, c, row)
    case Returned(Threw) =>
      if failed then exists row: nat :: row < |w.rows| && Sent(w, c, row) && (w.rows[row].status == Failed <==> marked)
      else !marked && SentNothing(w, c)
  }

  /** A call that is marking its row has uploaded for it. */
  predicate FailingSent(w: World) {
    forall d | 0 <= d < |w.calls| && w.calls[d].at.Failing? :: Sent(w, d, w.calls[d].at.row)
  }

  lemma SentGrows(w: World, v: World, c: nat, row: nat)
    requires Sent(w, c, row) && w.uploads <= v.uploads
    ensures Sent(v, c, row)
  {
    var u :| 0 <= u < |w.uploads| && w.uploads[u] == Upload(row, c);
    assert v.uploads[u] == w.uploads[u];
  }

  /** Other calls leave the row a call holds or has uploaded for alone. */
  lemma RowStays(w: World, d: nat, fault: bool, c: nat, row: nat)
    requires Invariant(w) && FailingSent(w) && c < |w.calls| && d < |w.calls| && c != d && row < |w.rows|
    requires Held(w.calls[c].at) == Some(row) || Sent(w, c, row)
    ensures row < |Moved(w, d, fault).rows| && Moved(w, d, fault).rows[row] == w.rows[row]
  {
    hide Moved;
    MovedFrame(w, d, fault);
    if Sent(w, c, row) { NotHeldBy(w, c, row, d); }
  }

  lemma NotHeldBy(w: World, c: nat, row: nat, d: nat)
    requires Invariant(w) && FailingSent(w) && c < |w.calls| && d < |w.calls| && c != d && Sent(w, c, row)
    ensures Held(w.calls[d].at) != Some(row)
  {
    hide DistinctRows, InvoicesOwn;
    SentOnce(w, c, d, row);
    var u :| 0 <= u < |w.uploads| && w.uploads[u] == Upload(row, c);
  }

  lemma SentOnce(w: World, c: nat, d: nat, row: nat)
    requires UploadsApart(w)
    ensures Sent(w, c, row) && Sent(w, d, row) ==> c == d
  {
  }

  lemma OtherTold(w: World, d: nat, fault: bool, c: nat, failed: bool, marked: bool)
    requires Invariant(w) && FailingSent(w) && c < |w.calls| && d < |w.calls| && c != d && Told(w, c, failed, marked)
    ensures c < |Moved(w, d, fault).calls| && Told(Moved(w, d, fault), c, failed, marked)
  {
    hide Moved, Invariant, Sent, FailingSent;
    var v := Moved(w, d, fault);
    MovedFrame(w, d, fault);
    MovedCall(w, d, fault);
    forall row: nat | row < |w.rows| && Held(w.calls[c].at) == Some(row)
      ensures row < |v.rows| && v.rows[row] == w.rows[row] { RowStays(w, d, fault, c, row); }
    forall row: nat | row < |w.rows| && Sent(w, c, row)
      ensures row < |v.rows| && v.rows[row] == w.rows[row] && Sent(v, c, row)
    {
      RowStays(w, d, fault, c, row);
      SentGrows(w, v, c, row);
    }
  }

  lemma MoverTold(w: World, c: nat, fault: bool, failed: bool, marked: bool)
    requires Invariant(w) && FailingSent(w) && c < |w.calls| && Told(w, c, failed, marked)
    ensures var (v, e) := (Moved(w, c, fault), Move(c, fault));
      && c < |v.calls| && Told(v, c, failed || Fails(w, e, c), marked || Marks(w, e, c)) && w.uploads <= v.uploads
  {
    hide Sent, FailingSent, DistinctRows, InvoicesOwn, HoldersApart;
    var (p, v) := (w.calls[c].at, Moved(w, c, fault));
    MovedCall(w, c, fault);
    if Held(p).Some? && Sent(w, c, Held(p).value) { SentGrows(w, v, c, Held(p).value); }
    if p.Uploading? { SentNow(v, |w.uploads|); }
  }

  lemma SentNow(w: World, u: nat)
    requires u < |w.uploads|
    ensures Sent(w, w.uploads[u].call, w.uploads[u].row)
  {
  }

  predicate AllTold(es: seq<Event>, w: World) {
    forall c | 0 <= c < |w.calls| :: Told(w, c, HasFailed(es, c), WasMarked(es, c))
  }

  lemma ToldMeansSent(es: seq<Event>, w: World)
    requires AllTold(es, w)
    ensures FailingSent(w)
  {
    forall d | 0 <= d < |w.calls| && w.calls[d].at.Failing? ensures Sent(w, d, w.calls[d].at.row) {
      assert Told(w, d, HasFailed(es, d), WasMarked(es, d));
    }
  }

  lemma {:induction false} NothingYet(es: seq<Event>, c: nat)
    requires |Run(Start, es).calls| <= c
    ensures !HasFailed(es, c) && !WasMarked(es, c)
  {
    hide Step;
    if es != [] {
      CallsGrow(es, |es| - 1);
      NothingYet(es[..|es| - 1], c);
    }
  }

  lemma {:induction false} RunTold(es: seq<Event>)
    ensures AllTold(es, Run(Start, es))
  {
    hide Moved, Told, Invariant, FailingSent;
    if es != [] {
      var (init, e) := (es[..|es| - 1], es[|es| - 1]);
      var w := Run(Start, init);
      RunTold(init);
      StartSound();
      RunExtends(Start, init);
      ToldMeansSent(init, w);
      forall c | 0 <= c < |Run(Start, es).calls|
        ensures Told(Run(Start, es), c, HasFailed(es, c), WasMarked(es, c))
      {
        if e.Move? && e.call < |w.calls| {
          MovedFrame(w, e.call, e.fault);
          if c == e.call {
            MoverTold(w, c, e.fault, HasFailed(init, c), WasMarked(init, c));
          } else {
            OtherTold(w, e.call, e.fault, c, HasFailed(init, c), WasMarked(init, c));
          }
        } else if c < |w.calls| {
          ArrivalTold(w, e, c, HasFailed(init, c), WasMarked(init, c));
        } else {
          NothingYet(init, c);
          NewTold(w, e, c);
        }
      }
    }
  }

  lemma ArrivalTold(w: World, e: Event, c: nat, failed: bool, marked: bool)
    requires c < |w.calls| && Told(w, c, failed, marked) && (e.Move? ==> |w.calls| <= e.call)
    ensures Told(Step(w, e), c, failed, marked)
  {
    var v := Step(w, e);
    assert v.rows == w.rows && v.uploads == w.uploads && v.calls[c] == w.calls[c];
  }

  lemma NewTold(w: World, e: Event, c: nat)
    requires UploadersKnown(w) && |w.calls| <= c < |Step(w, e).calls| && (e.Move? ==> |w.calls| <= e.call)
    ensures Told(Step(w, e), c, false, false)
  {
  }

  /**
   * When an ingest succeeds, in every interleaving: a call that went on to upload and has returned was
   * answered with its invoice exactly when none of its operations after that failed, and then its row
   * is completed with that invoice. When one failed the call threw, and the row is failed exactly when
   * the update that marks it went through.
   */
  lemma IngestSucceedsWhen(es: seq<Event>, c: nat)
    requires c < |Run(Start, es).calls| && Run(Start, es).calls[c].at.Returned? && Began(Run(Start, es), c)
    ensures var w := Run(Start, es);
      var answer := w.calls[c].at.answer;
      && (answer.Ingested? <==> !HasFailed(es, c))
      && (answer.Ingested? ==>
            && answer.ingestedRow < |w.rows| && answer.upload < |w.uploads| && w.uploads[answer.upload] == Upload(answer.ingestedRow, c)
            && w.rows[answer.ingestedRow] == Row(w.calls[c].key, Done, Some(answer.upload)))
      && (HasFailed(es, c) ==>
            && answer == Threw
            && forall u | 0 <= u < |w.uploads| && w.uploads[u].call == c ::
                 w.uploads[u].row < |w.rows| && (w.rows[w.uploads[u].row].status == Failed <==> WasMarked(es, c)))
  {
    hide Run, HasFailed, WasMarked;
    var w := Run(Start, es);
    RunTold(es);
    assert Told(w, c, HasFailed(es, c), WasMarked(es, c));
    IngestedAnswers(es);
    RunKeeps(es);
    OneRowEach(w, es, c);
  }

  lemma OneRowEach(w: World, es: seq<Event>, c: nat)
    requires w == Run(Start, es)
    ensures forall u, row: nat | 0 <= u < |w.uploads| && w.uploads[u].call == c && Sent(w, c, row) :: w.uploads[u].row == row
  {
    hide Run, Moved;
    OneUploadEach(es, c);
  }

  /** A call starts at most one upload. */
  lemma {:induction false} OneUploadEach(es: seq<Event>, c: nat)
    ensures var w := Run(Start, es);
      forall u, v | 0 <= u < |w.uploads| && 0 <= v < |w.uploads| && w.uploads[u].call == c && w.uploads[v].call == c :: u == v
  {
    hide Moved, HasFailed, WasMarked, Sent;
    if es != [] {
      var (init, e) := (es[..|es| - 1], es[|es| - 1]);
      var w := Run(Start, init);
      OneUploadEach(init, c);
      RunTold(init);
      if e.Move? && e.call < |w.calls| {
        assert Told(w, e.call, HasFailed(init, e.call), WasMarked(init, e.call));
        MovedCall(w, e.call, e.fault);
      }
    }
  }

  // ----- every call returns -----

  /** The most moves a call still has. */
  function Rank(p: Point): nat {
    match p
    case Looking => 7
    case Inserting => 6
    case Uploading(_) => 5
    case Awaiting(_, _) => 4
    case Storing(_, _) => 3
    case Auditing(_, _) => 2
    case Failing(_) => 1
    case Returned(_) => 0
  }

  /** Every move of a call that has not returned brings it nearer its answer. */
  lemma MovesReturn(w: World, c: nat, fault: bool)
    requires c < |w.calls| && !w.calls[c].at.Returned?
    ensures Rank(Moved(w, c, fault).calls[c].at) < Rank(w.calls[c].at)
  {
  }

  function Moves(w: World, c: nat, n: nat): World {
    if n == 0 then w else Step(Moves(w, c, n - 1), Move(c, false))
  }

  /** Undisturbed, a message without a row is ingested in six moves: its row, its upload, its invoice. */
  lemma AloneSucceeds(w: World, key: Key)
    requires !HasRow(w.rows, key)
    ensures var c := |w.calls|;
      Moves(Step(w, Arrive(key)), c, 6) == World(
        w.rows + [Row(key, Done, Some(|w.uploads|))], w.uploads + [Upload(|w.rows|, c)],
        w.calls + [Call(key, Returned(Ingested(|w.rows|, |w.uploads|)))])
  {
    var (c, r, u) := (|w.calls|, |w.rows|, |w.uploads|);
    var v := Step(w, Arrive(key));
    var (rows, uploads) := (w.rows + [Row(key, Processing, None)], w.uploads + [Upload(r, c)]);
    assert FindRow(w.rows, key) == |w.rows|;
    assert Moves(v, c, 1) == World(w.rows, w.uploads, w.calls + [Call(key, Inserting)]);
    assert Moves(v, c, 2) == World(rows, w.uploads, w.calls + [Call(key, Uploading(r))]);
    assert Moves(v, c, 3) == World(rows, uploads, w.calls + [Call(key, Awaiting(r, u))]);
    assert Moves(v, c, 4) == World(rows, uploads, w.calls + [Call(key, Storing(r, u))]);
    assert Moves(v, c, 5) == World(w.rows + [Row(key, Done, Some(u))], uploads, w.calls + [Call(key, Auditing(r, u))]);
  }
}
