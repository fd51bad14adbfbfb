/**
 * Document extraction under concurrent calls (document-extraction.service.ts, extractDocument). The
 * lookup, the new asset, the provider's answer, the stored payload and the usage count are separate
 * operations; operations of different calls interleave in any order and any of them may fail.
 */
module ExtractionOverlap {
  import opened Prelude
  import opened ExtractionCache

  /** Where a call stands; `Creating` knows what the lookup found, the later points their own asset. */
  datatype Point =
    | Looking
    | Creating(found: Option<Extraction>, at: Option<int>)
    | Copying(asset: nat, copied: Extraction, at: Option<int>)
    | Asking(asset: nat)
    | Saving(asset: nat)
    | Counting
    | Returned(answer: Option<(Extraction, Source)>)

  datatype Call = Call(u: Upload, at: Point)

  /** `saves` lists the calls that stored what the provider read, `counts` those that counted its pages. */
  datatype World = World(assets: seq<Asset>, meter: map<MeterKey, nat>, saves: seq<nat>, counts: seq<nat>, calls: seq<Call>)

  /** An upload that passes the checks on the file arrives, or one call makes its next move. */
  datatype Event = Arrive(u: Upload) | Move(call: nat, fault: bool)

  /** What the provider answers a call; it is asked for the call's own document type. */
  function Reading(u: Upload): Extraction
    requires u.ocr.Some?
  {
    Extraction(u.docType, u.ocr.value.0, u.ocr.value.1)
  }

  function MoveCall(w: World, c: nat, p: Point): World
    requires c < |w.calls|
  {
    w.(calls := w.calls[c := w.calls[c].(at := p)])
  }

  /** One move of call c. */
  function Moved(w: World, c: nat, fault: bool): World
    requires c < |w.calls|
  {
    var u := w.calls[c].u;
    if fault && !w.calls[c].at.Returned? then MoveCall(w, c, Returned(None))
    else
      match w.calls[c].at
      case Looking =>
        var r := FindCached(w.assets, u.tenant, u.file.hash);
        MoveCall(w, c, if r.Some? then Creating(w.assets[r.value].payload, w.assets[r.value].extractedAt) else Creating(None, None))
      case Creating(found, at) =>
        MoveCall(w.(assets := w.assets + [Asset(u.tenant, u.file.hash, Pages(u.file.bytes), None, None)]), c,
                 if found.Some? then Copying(|w.assets|, found.value, at) else Asking(|w.assets|))
      case Copying(asset, e, at) =>
        MoveCall(Put(w, asset, e, if at.Some? then at else Some(u.now)), c, Returned(Some((e, FromCache))))
      case Asking(asset) => MoveCall(w, c, if u.ocr.Some? then Saving(asset) else Returned(None))
      case Saving(asset) =>
        if u.ocr.None? then w
        else MoveCall(Put(w, asset, Reading(u), Some(u.now)).(saves := w.saves + [c]), c, Counting)
      case Counting =>
        var k := MeterKey(u.tenant, u.month);
        if u.ocr.None? then w
        else
          MoveCall(w.(meter := w.meter[k := Metered(w.meter, k) + Pages(u.file.bytes)], counts := w.counts + [c]), c,
                   Returned(Some((Reading(u), FromProvider))))
      case Returned(_) => w
  }

  /** The update that stores a payload with an asset. */
  function Put(w: World, asset: nat, e: Extraction, at: Option<int>): World {
    if asset < |w.assets| then w.(assets := w.assets[asset := w.assets[asset].(payload := Some(e), extractedAt := at)]) else w
  }

  function Step(w: World, e: Event): World {
    match e
    case Arrive(u) => w.(calls := w.calls + [Call(u, Looking)])
    case Move(c, fault) => if c < |w.calls| then Moved(w, c, fault) else w
  }

  const Start := World([], map[], [], [], [])

  function Run(es: seq<Event>): World {
    if es == [] then Start else Step(Run(es[..|es| - 1]), es[|es| - 1])
  }

  /** A call's own asset: created bare for its content, then given what was found or what was read. */
  lemma MovedStores(w: World, c: nat)
    requires c < |w.calls|
    ensures var (u, at, v) := (w.calls[c].u, w.calls[c].at, Moved(w, c, false));
      && (at.Creating? ==> v.assets == w.assets + [Asset(u.tenant, u.file.hash, Pages(u.file.bytes), None, None)])
      && (at.Copying? && at.asset < |w.assets| ==> v.assets == w.assets[at.asset := Asset(
            w.assets[at.asset].tenant, w.assets[at.asset].hash, w.assets[at.asset].pageCount, Some(at.copied),
            if at.at == None then Some(u.now) else at.at)])
      && (at.Saving? && u.ocr.Some? && at.asset < |w.assets| ==> v.assets == w.assets[at.asset := Asset(
            w.assets[at.asset].tenant, w.assets[at.asset].hash, w.assets[at.asset].pageCount,
            Some(Extraction(u.docType, u.ocr.value.0, u.ocr.value.1)), Some(u.now))])
      && (at.Looking? || at.Asking? || at.Counting? || at.Returned? ==> v.assets == w.assets)
  {
  }

  // ----- what every interleaving keeps -----

  /** The call stored what the provider read. */
  predicate Saved(w: World, c: nat) {
    c in w.saves
  }

  /** Some call of this content stored this reading. */
  ghost predicate Read(w: World, tenant: string, hash: string, e: Extraction) {
    exists c: nat :: Saved(w, c) && c < |w.calls| && w.calls[c].u.tenant == tenant && w.calls[c].u.file.hash == hash
      && w.calls[c].u.ocr.Some? && Reading(w.calls[c].u) == e
  }

  ghost predicate PointOk(w: World, c: nat)
    requires c < |w.calls|
  {
    var u := w.calls[c].u;
    match w.calls[c].at
    case Looking => !Saved(w, c)
    case Creating(found, _) => !Saved(w, c) && (found.Some? ==> Read(w, u.tenant, u.file.hash, found.value))
    case Copying(asset, e, _) => !Saved(w, c) && Own(w, c, asset) && Read(w, u.tenant, u.file.hash, e)
    case Asking(asset) => !Saved(w, c) && Own(w, c, asset)
    case Saving(asset) => !Saved(w, c) && Own(w, c, asset) && u.ocr.Some?
    case Counting => Saved(w, c)
    case Returned(answer) =>
      answer.Some? ==>
        && Read(w, u.tenant, u.file.hash, answer.value.0)
        && (answer.value.1.FromProvider? <==> Saved(w, c))
        && (answer.value.1.FromProvider? ==> u.ocr.Some? && answer.value.0 == Reading(u))
  }

  /** The asset is for the call's content. */
  predicate Own(w: World, c: nat, asset: nat)
    requires c < |w.calls|
  {
    asset < |w.assets| && w.assets[asset].tenant == w.calls[c].u.tenant && w.assets[asset].hash == w.calls[c].u.file.hash
  }

  /** Some asset of the content carries this payload. */
  predicate HasPayload(w: World, tenant: string, hash: string, e: Extraction) {
    exists i :: 0 <= i < |w.assets| && Hit(w.assets[i], tenant, hash) && w.assets[i].payload.value == e
  }

  ghost predicate PointsOk(w: World) {
    forall c | 0 <= c < |w.calls| :: PointOk(w, c)
  }

  /** Every stored payload was read by the provider for its content. */
  ghost predicate PayloadsRead(w: World) {
    forall i | 0 <= i < |w.assets| && w.assets[i].payload.Some? ::
      Read(w, w.assets[i].tenant, w.assets[i].hash, w.assets[i].payload.value)
  }

  /** The payload the call saved is there. */
  predicate Kept(w: World, c: nat) {
    && c < |w.calls| && w.calls[c].u.ocr.Some?
    && HasPayload(w, w.calls[c].u.tenant, w.calls[c].u.file.hash, Reading(w.calls[c].u))
  }

  ghost predicate SavesKept(w: World) {
    forall c: nat | Saved(w, c) :: Kept(w, c)
  }

  /** The asset a call is working on. */
  function Held(p: Point): Option<nat> {
    match p
    case Copying(asset, _, _) => Some(asset)
    case Asking(asset) => Some(asset)
    case Saving(asset) => Some(asset)
    case _ => None
  }

  /** No two calls work on one asset, and its payload is still to come. */
  predicate HeldFresh(w: World) {
    && (forall c | 0 <= c < |w.calls| && Held(w.calls[c].at).Some? ::
          Held(w.calls[c].at).value < |w.assets| && w.assets[Held(w.calls[c].at).value].payload.None?)
    && (forall c, d | 0 <= c < d < |w.calls| && Held(w.calls[c].at).Some? :: Held(w.calls[c].at) != Held(w.calls[d].at))
  }

  ghost predicate Invariant(w: World) {
    PointsOk(w) && PayloadsRead(w) && SavesKept(w) && HeldFresh(w)
  }

  /** A move adds assets, payloads and saves and changes none; uploads stay as they came. */
  ghost predicate Grows(w: World, v: World) {
    && |w.calls| <= |v.calls| && (forall c | 0 <= c < |w.calls| :: v.calls[c].u == w.calls[c].u)
    && (forall c: nat | Saved(w, c) :: Saved(v, c))
    && |w.assets| <= |v.assets|
    && (forall i | 0 <= i < |w.assets| ::
          && v.assets[i].tenant == w.assets[i].tenant && v.assets[i].hash == w.assets[i].hash
          && (w.assets[i].payload.Some? ==> v.assets[i].payload == w.assets[i].payload))
  }

  lemma StepGrows(w: World, e: Event)
    requires HeldFresh(w)
    ensures Grows(w, Step(w, e))
  {
  }

  lemma ReadGrows(w: World, v: World, tenant: string, hash: string, e: Extraction)
    requires Grows(w, v) && Read(w, tenant, hash, e)
    ensures Read(v, tenant, hash, e)
  {
    var c: nat :| Saved(w, c) && c < |w.calls| && w.calls[c].u.tenant == tenant && w.calls[c].u.file.hash == hash
      && w.calls[c].u.ocr.Some? && Reading(w.calls[c].u) == e;
    assert Saved(v, c) && v.calls[c].u == w.calls[c].u;
  }

  lemma KeptGrows(w: World, v: World, c: nat)
    requires Grows(w, v) && Kept(w, c)
    ensures Kept(v, c)
  {
    var u := w.calls[c].u;
    var i :| 0 <= i < |w.assets| && Hit(w.assets[i], u.tenant, u.file.hash) && w.assets[i].payload.value == Reading(u);
    assert Hit(v.assets[i], u.tenant, u.file.hash) && v.assets[i].payload.value == Reading(u);
  }

  /** Other calls' points stay good: what they rely on only grows. */
  lemma OtherPoint(w: World, v: World, c: nat)
    requires Grows(w, v) && c < |w.calls| && v.calls[c] == w.calls[c] && PointOk(w, c) && (Saved(v, c) ==> Saved(w, c))
    ensures PointOk(v, c)
  {
    hide Read, Grows;
    GrownUploads(w, v);
    var u := w.calls[c].u;
    match w.calls[c].at
    case Creating(found, _) => if found.Some? { ReadGrows(w, v, u.tenant, u.file.hash, found.value); }
    case Copying(_, e, _) => ReadGrows(w, v, u.tenant, u.file.hash, e);
    case Returned(answer) => if answer.Some? { ReadGrows(w, v, u.tenant, u.file.hash, answer.value.0); }
    case _ =>
  }

  lemma GrownUploads(w: World, v: World)
    requires Grows(w, v)
    ensures |w.calls| <= |v.calls| && (forall c | 0 <= c < |w.calls| :: v.calls[c].u == w.calls[c].u)
    ensures forall c: nat | Saved(w, c) :: Saved(v, c)
    ensures |w.assets| <= |v.assets|
    ensures forall i | 0 <= i < |w.assets| :: v.assets[i].tenant == w.assets[i].tenant && v.assets[i].hash == w.assets[i].hash
  {
  }

  lemma MovedPoint(w: World, c: nat, fault: bool)
    requires Invariant(w) && c < |w.calls|
    ensures PointOk(Moved(w, c, fault), c)
  {
    hide SavesKept, Read;
    var (u, v) := (w.calls[c].u, Moved(w, c, fault));
    StepGrows(w, Move(c, fault));
    assert PointOk(w, c);
    match w.calls[c].at
    case Looking =>
      var r := FindCached(w.assets, u.tenant, u.file.hash);
      if r.Some? { ReadGrows(w, v, u.tenant, u.file.hash, w.assets[r.value].payload.value); }
    case Creating(found, _) => if found.Some? { ReadGrows(w, v, u.tenant, u.file.hash, found.value); }
    case Copying(_, e, _) => ReadGrows(w, v, u.tenant, u.file.hash, e);
    case Counting => if u.ocr.Some? { assert Saved(v, c); SavedReads(v, c); }
    case Returned(_) =>
    case _ =>
  }

  lemma SavedReads(w: World, c: nat)
    requires Saved(w, c) && c < |w.calls| && w.calls[c].u.ocr.Some?
    ensures Read(w, w.calls[c].u.tenant, w.calls[c].u.file.hash, Reading(w.calls[c].u))
  {
  }

  lemma MovedPayloads(w: World, c: nat, fault: bool)
    requires Invariant(w) && c < |w.calls|
    ensures PayloadsRead(Moved(w, c, fault))
  {
    hide SavesKept, Read, Grows;
    var (u, v) := (w.calls[c].u, Moved(w, c, fault));
    StepGrows(w, Move(c, fault));
    assert PointOk(w, c);
    forall i | 0 <= i < |v.assets| && v.assets[i].payload.Some?
      ensures Read(v, v.assets[i].tenant, v.assets[i].hash, v.assets[i].payload.value)
    {
      if i < |w.assets| && v.assets[i] == w.assets[i] {
        ReadGrows(w, v, v.assets[i].tenant, v.assets[i].hash, v.assets[i].payload.value);
      } else if w.calls[c].at.Copying? {
        ReadGrows(w, v, u.tenant, u.file.hash, w.calls[c].at.copied);
      } else {
        SavedReads(v, c);
      }
    }
  }

  lemma MovedSaves(w: World, c: nat, fault: bool)
    requires Invariant(w) && c < |w.calls|
    ensures SavesKept(Moved(w, c, fault))
  {
    hide PayloadsRead, Read, Kept, Grows;
    var v := Moved(w, c, fault);
    StepGrows(w, Move(c, fault));
    assert PointOk(w, c);
    forall d: nat | Saved(v, d)
      ensures Kept(v, d)
    {
      if Saved(w, d) {
        KeptGrows(w, v, d);
      } else {
        KeptAt(v, w.calls[c].at.asset, c);
      }
    }
  }

  lemma KeptAt(w: World, i: nat, c: nat)
    requires c < |w.calls| && w.calls[c].u.ocr.Some?
    requires i < |w.assets| && Hit(w.assets[i], w.calls[c].u.tenant, w.calls[c].u.file.hash) && w.assets[i].payload.value == Reading(w.calls[c].u)
    ensures Kept(w, c)
  {
  }

  lemma MovedHeld(w: World, c: nat, fault: bool)
    requires HeldFresh(w) && c < |w.calls|
    ensures HeldFresh(Moved(w, c, fault))
  {
    hide Moved;
    HeldSteps(w, c, fault);
    MovedFrame(w, c, fault);
  }

  /** The moving call keeps its asset, takes a new one without a payload, or lets go. */
  lemma HeldSteps(w: World, c: nat, fault: bool)
    requires HeldFresh(w) && c < |w.calls|
    ensures var (h, v) := (Held(w.calls[c].at), Moved(w, c, fault));
      var after := Held(v.calls[c].at);
      && |w.assets| <= |v.assets|
      && (after.Some? ==> after.value < |v.assets| && v.assets[after.value].payload.None? && (after == h || after.value == |w.assets|))
      && (forall i | 0 <= i < |w.assets| && Some(i) != h :: v.assets[i] == w.assets[i])
  {
  }

  lemma StepKeeps(w: World, e: Event)
    requires Invariant(w)
    ensures Invariant(Step(w, e))
  {
    hide Read, Kept, Grows, Moved, HeldFresh;
    var v := Step(w, e);
    StepGrows(w, e);
    if e.Move? && e.call < |w.calls| {
      MovedPoint(w, e.call, e.fault);
      MovedPayloads(w, e.call, e.fault);
      MovedSaves(w, e.call, e.fault);
      MovedHeld(w, e.call, e.fault);
      MovedFrame(w, e.call, e.fault);
      forall c | 0 <= c < |v.calls| && c != e.call ensures PointOk(v, c) { OtherPoint(w, v, c); }
    } else {
      ArriveKeeps(w, e);
    }
  }

  lemma MovedFrame(w: World, c: nat, fault: bool)
    requires c < |w.calls|
    ensures var v := Moved(w, c, fault);
      && |v.calls| == |w.calls| && (forall d | 0 <= d < |w.calls| && d != c :: v.calls[d] == w.calls[d])
      && (forall d: nat | Saved(v, d) && d != c :: Saved(w, d))
      && (Saved(v, c) && !Saved(w, c) ==> w.calls[c].at.Saving?)
  {
  }

  lemma ArriveKeeps(w: World, e: Event)
    requires Invariant(w) && (e.Move? ==> |w.calls| <= e.call)
    ensures Invariant(Step(w, e))
  {
    hide Read, Kept, Grows;
    var v := Step(w, e);
    StepGrows(w, e);
    SaversArrived(w);
    assert !Saved(w, |w.calls|);
    forall c | 0 <= c < |w.calls| ensures PointOk(v, c) { OtherPoint(w, v, c); }
    forall i | 0 <= i < |w.assets| && w.assets[i].payload.Some?
      ensures Read(v, w.assets[i].tenant, w.assets[i].hash, w.assets[i].payload.value)
    {
      ReadGrows(w, v, w.assets[i].tenant, w.assets[i].hash, w.assets[i].payload.value);
    }
    forall c: nat | Saved(w, c) ensures Kept(v, c) { KeptGrows(w, v, c); }
  }

  lemma SaversArrived(w: World)
    requires SavesKept(w)
    ensures forall c: nat | Saved(w, c) :: c < |w.calls|
  {
    forall c: nat | Saved(w, c) ensures c < |w.calls| { assert Kept(w, c); }
  }

  /**
   * In every interleaving: each stored payload and each answer, from the cache or not, is what the
   * provider read for some call of the same content.
   */
  lemma {:induction false} RunKeeps(es: seq<Event>)
    ensures Invariant(Run(es))
  {
    hide Step, PointsOk, PayloadsRead, SavesKept, HeldFresh;
    if es != [] {
      RunKeeps(es[..|es| - 1]);
      StepKeeps(Run(es[..|es| - 1]), es[|es| - 1]);
    } else {
      StartKeeps();
    }
  }

  lemma StartKeeps()
    ensures Invariant(Start)
  {
  }

  // ----- when all answers for a content agree -----

  predicate Of(u: Upload, tenant: string, hash: string) {
    u.tenant == tenant && u.file.hash == hash
  }

  /** All calls of the content that saved a reading read the same. */
  ghost predicate ReadingsAgree(w: World, tenant: string, hash: string) {
    forall e, f | Read(w, tenant, hash, e) && Read(w, tenant, hash, f) :: e == f
  }

  /** All stored payloads of the content are equal. */
  predicate PayloadsAgree(w: World, tenant: string, hash: string) {
    forall i, j | 0 <= i < |w.assets| && 0 <= j < |w.assets| && Hit(w.assets[i], tenant, hash) && Hit(w.assets[j], tenant, hash) ::
      w.assets[i].payload == w.assets[j].payload
  }

  function AnswerOf(call: Call): Option<Extraction> {
    if call.at.Returned? && call.at.answer.Some? then Some(call.at.answer.value.0) else None
  }

  /** All calls of the content that were answered got the same extraction. */
  predicate AnswersAgree(w: World, tenant: string, hash: string) {
    forall c, d | 0 <= c < |w.calls| && 0 <= d < |w.calls| && Of(w.calls[c].u, tenant, hash) && Of(w.calls[d].u, tenant, hash)
      && AnswerOf(w.calls[c]).Some? && AnswerOf(w.calls[d]).Some? :: AnswerOf(w.calls[c]) == AnswerOf(w.calls[d])
  }

  /**
   * In every interleaving the stored payloads of a content agree exactly when everything the provider
   * read for it does, and then all answers agree too.
   */
  lemma AgreeWhenReadingsDo(es: seq<Event>, tenant: string, hash: string)
    ensures PayloadsAgree(Run(es), tenant, hash) <==> ReadingsAgree(Run(es), tenant, hash)
    ensures ReadingsAgree(Run(es), tenant, hash) ==> AnswersAgree(Run(es), tenant, hash)
  {
    hide Run, Read;
    var w := Run(es);
    RunKeeps(es);
    forall e | Read(w, tenant, hash, e) ensures HasPayload(w, tenant, hash, e) { ReadIsStored(w, tenant, hash, e); }
    forall c | 0 <= c < |w.calls| && AnswerOf(w.calls[c]).Some?
      ensures Read(w, w.calls[c].u.tenant, w.calls[c].u.file.hash, AnswerOf(w.calls[c]).value)
    {
      assert PointOk(w, c);
    }
  }

  lemma ReadIsStored(w: World, tenant: string, hash: string, e: Extraction)
    requires SavesKept(w) && Read(w, tenant, hash, e)
    ensures HasPayload(w, tenant, hash, e)
  {
    hide HasPayload;
    var c: nat :| Saved(w, c) && c < |w.calls| && w.calls[c].u.tenant == tenant && w.calls[c].u.file.hash == hash
      && w.calls[c].u.ocr.Some? && Reading(w.calls[c].u) == e;
    assert Kept(w, c);
  }

  // ----- when a content is read once -----

  /** The lookup found nothing, and nothing has been stored for it yet. */
  predicate Missing(p: Point) {
    (p.Creating? && p.found.None?) || p.Asking? || p.Saving?
  }

  /** The event is d's lookup, while c's has found nothing and c has stored nothing yet. */
  predicate LooksDuring(w: World, e: Event, c: nat, d: nat) {
    e == Move(d, false) && d < |w.calls| && w.calls[d].at.Looking? && c < |w.calls| && Missing(w.calls[c].at)
  }

  /** Somewhere in the run d looked while c was missing. */
  predicate Overlaps(es: seq<Event>, c: nat, d: nat) {
    exists i :: 0 <= i < |es| && LooksDuring(Run(es[..i]), es[i], c, d)
  }

  lemma OverlapsNext(es: seq<Event>, e: Event, c: nat, d: nat)
    ensures Overlaps(es + [e], c, d) <==> Overlaps(es, c, d) || LooksDuring(Run(es), e, c, d)
  {
    hide Run, LooksDuring;
    var all := es + [e];
    assert all[..|es|] == es && all[|es|] == e;
    assert forall i | 0 <= i < |es| :: all[i] == es[i] && all[..i] == es[..i];
  }

  /** The call takes the provider's path: it is missing or has saved. */
  predicate Bound(w: World, c: nat)
    requires c < |w.calls|
  {
    Missing(w.calls[c].at) || Saved(w, c)
  }

  /** A call gets bound only by a lookup that finds nothing, and then no call of its content has saved. */
  lemma BoundByMiss(w: World, e: Event, c: nat)
    requires Invariant(w) && c < |Step(w, e).calls| && Bound(Step(w, e), c)
    ensures c < |w.calls|
    ensures Bound(w, c) || (e == Move(c, false) && w.calls[c].at.Looking? && NoneSaved(w, w.calls[c].u.tenant, w.calls[c].u.file.hash))
  {
    hide PointsOk, PayloadsRead, HeldFresh;
    SaversArrived(w);
    assert !Saved(w, |w.calls|);
    if e.Move? && e.call < |w.calls| {
      MovedFrame(w, e.call, e.fault);
      if c == e.call && w.calls[c].at.Looking? && !e.fault { MissMeansNone(w, w.calls[c].u.tenant, w.calls[c].u.file.hash); }
    }
  }

  ghost predicate NoneSaved(w: World, tenant: string, hash: string) {
    forall d: nat | d < |w.calls| && Of(w.calls[d].u, tenant, hash) :: !Saved(w, d)
  }

  lemma MissMeansNone(w: World, tenant: string, hash: string)
    requires SavesKept(w)
    ensures FindCached(w.assets, tenant, hash).None? ==> NoneSaved(w, tenant, hash)
  {
    hide FindCached;
    forall d: nat | d < |w.calls| && Of(w.calls[d].u, tenant, hash) && Saved(w, d)
      ensures FindCached(w.assets, tenant, hash).Some?
    {
      assert Kept(w, d);
    }
  }

  /** Two calls of one content that both take the provider's path have overlapped. */
  lemma {:induction false} BoundOverlap(es: seq<Event>, c: nat, d: nat)
    requires c < |Run(es).calls| && d < |Run(es).calls| && c != d
    requires Bound(Run(es), c) && Bound(Run(es), d)
    requires SameContent(Run(es).calls[c].u, Run(es).calls[d].u)
    ensures Overlaps(es, c, d) || Overlaps(es, d, c)
  {
    hide Step, Invariant, Bound, Overlaps;
    if es != [] {
      var (init, e) := (es[..|es| - 1], es[|es| - 1]);
      var w := Run(init);
      assert es == init + [e];
      RunKeeps(init);
      BoundByMiss(w, e, c);
      BoundByMiss(w, e, d);
      OverlapsNext(init, e, c, d);
      OverlapsNext(init, e, d, c);
      UploadsStay(w, e);
      if Bound(w, c) && Bound(w, d) {
        BoundOverlap(init, c, d);
      } else {
        OneLooks(w, e, c, d);
      }
    }
  }

  lemma UploadsStay(w: World, e: Event)
    requires Invariant(w)
    ensures |w.calls| <= |Step(w, e).calls| && forall c | 0 <= c < |w.calls| :: Step(w, e).calls[c].u == w.calls[c].u
  {
    hide Step;
    StepGrows(w, e);
  }

  lemma OneLooks(w: World, e: Event, c: nat, d: nat)
    requires c < |w.calls| && d < |w.calls| && c != d && SameContent(w.calls[c].u, w.calls[d].u)
    requires Bound(w, c) || (e == Move(c, false) && w.calls[c].at.Looking? && NoneSaved(w, w.calls[c].u.tenant, w.calls[c].u.file.hash))
    requires Bound(w, d) || (e == Move(d, false) && w.calls[d].at.Looking? && NoneSaved(w, w.calls[d].u.tenant, w.calls[d].u.file.hash))
    requires !(Bound(w, c) && Bound(w, d))
    ensures LooksDuring(w, e, c, d) || LooksDuring(w, e, d, c)
  {
  }

  /** At most one call of the content stored what the provider read. */
  ghost predicate ReadOnce(w: World, tenant: string, hash: string) {
    forall c: nat, d: nat | c < |w.calls| && d < |w.calls| && Of(w.calls[c].u, tenant, hash) && Of(w.calls[d].u, tenant, hash)
      && Saved(w, c) && Saved(w, d) :: c == d
  }

  /**
   * In every interleaving a content is read at most once exactly when no two of its calls that saved
   * overlapped: none of them looked while another had found nothing and not yet saved.
   */
  lemma ReadOnceWhen(es: seq<Event>, tenant: string, hash: string)
    ensures var w := Run(es);
      ReadOnce(w, tenant, hash) <==>
        !exists c: nat, d: nat :: c < |w.calls| && d < |w.calls| && c != d
          && Of(w.calls[c].u, tenant, hash) && Of(w.calls[d].u, tenant, hash) && Saved(w, c) && Saved(w, d) && Overlaps(es, c, d)
  {
    hide Run, Overlaps;
    var w := Run(es);
    forall c: nat, d: nat | c < |w.calls| && d < |w.calls| && c != d && Of(w.calls[c].u, tenant, hash) && Of(w.calls[d].u, tenant, hash)
      && Saved(w, c) && Saved(w, d)
      ensures Overlaps(es, c, d) || Overlaps(es, d, c)
    {
      BoundOverlap(es, c, d);
    }
  }

  /** And then all its answers agree. */
  lemma ReadOnceAgrees(es: seq<Event>, tenant: string, hash: string)
    requires ReadOnce(Run(es), tenant, hash)
    ensures PayloadsAgree(Run(es), tenant, hash) && AnswersAgree(Run(es), tenant, hash)
  {
    hide Run, PayloadsAgree, AnswersAgree;
    AgreeWhenReadingsDo(es, tenant, hash);
  }

  // ----- the page meter -----

  /** The pages of the calls that counted for a tenant and month. */
  function PagesCounted(w: World, n: nat, k: MeterKey): nat
    requires n <= |w.counts|
  {
    if n == 0 then 0
    else
      var c := w.counts[n - 1];
      PagesCounted(w, n - 1, k)
      + if c < |w.calls| && MeterKey(w.calls[c].u.tenant, w.calls[c].u.month) == k then Pages(w.calls[c].u.file.bytes) else 0
  }

  predicate Provided(call: Call) {
    call.at.Returned? && call.at.answer.Some? && call.at.answer.value.1.FromProvider?
  }

  /** The calls that counted are those answered by the provider, each counted once; they have saved. */
  predicate CountsOk(w: World) {
    && (forall i | 0 <= i < |w.counts| :: w.counts[i] < |w.calls| && Saved(w, w.counts[i]) && Provided(w.calls[w.counts[i]]))
    && (forall c | 0 <= c < |w.calls| && Provided(w.calls[c]) :: c in w.counts)
    && (forall i, j | 0 <= i < j < |w.counts| :: w.counts[i] != w.counts[j])
  }

  lemma {:induction false} PagesStay(w: World, v: World, n: nat, k: MeterKey)
    requires n <= |w.counts| <= |v.counts| && CountsOk(w) && |w.calls| <= |v.calls|
    requires forall i | 0 <= i < n :: v.counts[i] == w.counts[i]
    requires forall c | 0 <= c < |w.calls| :: v.calls[c].u == w.calls[c].u
    ensures PagesCounted(v, n, k) == PagesCounted(w, n, k)
  {
    if 0 < n { PagesStay(w, v, n - 1, k); }
  }

  lemma MovedMeter(w: World, c: nat, fault: bool)
    requires c < |w.calls|
    ensures var (u, v) := (w.calls[c].u, Moved(w, c, fault)); var k := MeterKey(u.tenant, u.month);
      && (w.calls[c].at.Returned? ==> v == w)
      && if w.calls[c].at.Counting? && !fault && u.ocr.Some? then
           v.counts == w.counts + [c] && v.meter == w.meter[k := Metered(w.meter, k) + Pages(u.file.bytes)] && Provided(v.calls[c])
         else v.counts == w.counts && v.meter == w.meter && (Provided(v.calls[c]) ==> v == w)
  {
  }

  lemma CountsStep(w: World, e: Event)
    requires Invariant(w) && CountsOk(w)
    ensures CountsOk(Step(w, e))
  {
    hide PayloadsRead, SavesKept, HeldFresh, Moved, Grows, PagesCounted, Read;
    var v := Step(w, e);
    StepGrows(w, e);
    UploadsStay(w, e);
    SavesStay(w, v);
    if e.Move? && e.call < |w.calls| {
      assert PointOk(w, e.call);
      MovedMeter(w, e.call, e.fault);
      MovedFrame(w, e.call, e.fault);
    }
  }

  lemma MeterStep(w: World, e: Event, k: MeterKey)
    requires Invariant(w) && CountsOk(w) && Metered(w.meter, k) == PagesCounted(w, |w.counts|, k)
    ensures var v := Step(w, e); Metered(v.meter, k) == PagesCounted(v, |v.counts|, k)
  {
    hide Invariant, Moved, CountsOk;
    var v := Step(w, e);
    UploadsStay(w, e);
    if e.Move? && e.call < |w.calls| { MovedMeter(w, e.call, e.fault); }
    PagesStay(w, v, |w.counts|, k);
  }

  /**
   * In every interleaving the meter of a tenant and month is the pages of the calls that counted: exactly
   * those answered by the provider, each once. So a content read once is metered at most once.
   */
  lemma {:induction false} MeterCountsSaves(es: seq<Event>, k: MeterKey)
    ensures CountsOk(Run(es)) && Metered(Run(es).meter, k) == PagesCounted(Run(es), |Run(es).counts|, k)
  {
    hide Step, Invariant, CountsOk;
    if es != [] {
      RunKeeps(es[..|es| - 1]);
      MeterCountsSaves(es[..|es| - 1], k);
      CountsStep(Run(es[..|es| - 1]), es[|es| - 1]);
      MeterStep(Run(es[..|es| - 1]), es[|es| - 1], k);
    } else {
      StartCounts();
    }
  }

  lemma SavesStay(w: World, v: World)
    requires Grows(w, v)
    ensures forall c: nat | Saved(w, c) :: Saved(v, c)
  {
  }

  lemma StartCounts()
    ensures CountsOk(Start)
  {
  }

  // ----- when a call is answered -----

  /** One of the call's operations fails, or the provider cannot read the document. */
  predicate Fails(w: World, e: Event, c: nat) {
    && e.Move? && e.call == c && c < |w.calls| && !w.calls[c].at.Returned?
    && (e.fault || (w.calls[c].at.Asking? && w.calls[c].u.ocr.None?))
  }

  predicate HasFailed(es: seq<Event>, c: nat) {
    es != [] && (HasFailed(es[..|es| - 1], c) || Fails(Run(es[..|es| - 1]), es[|es| - 1], c))
  }

  lemma FailStep(w: World, e: Event, c: nat)
    requires Invariant(w) && c < |Step(w, e).calls|
    ensures Step(w, e).calls[c].at == Returned(None) <==> (c < |w.calls| && w.calls[c].at == Returned(None)) || Fails(w, e, c)
  {
    hide PayloadsRead, HeldFresh, Read, HasPayload;
    if e.Move? && e.call < |w.calls| {
      assert PointOk(w, e.call);
      if Saved(w, e.call) { assert Kept(w, e.call); }
    }
  }

  lemma {:induction false} NothingFailed(es: seq<Event>, c: nat)
    requires |Run(es).calls| <= c
    ensures !HasFailed(es, c)
  {
    hide Step;
    if es != [] {
      var init := es[..|es| - 1];
      RunKeeps(init);
      UploadsStay(Run(init), es[|es| - 1]);
      NothingFailed(init, c);
    }
  }

  /**
   * When a call is answered, in every interleaving: a call that has returned was answered exactly when
   * none of its operations failed and the provider, if asked, could read the document. It was the
   * provider's answer exactly when the call saved what was read.
   */
  lemma {:induction false} AnsweredUnlessFailed(es: seq<Event>, c: nat)
    requires c < |Run(es).calls|
    ensures var at := Run(es).calls[c].at;
      && (at == Returned(None) <==> HasFailed(es, c))
      && (at.Returned? && at.answer.Some? ==> (at.answer.value.1.FromProvider? <==> Saved(Run(es), c)))
  {
    hide Step, PayloadsRead, SavesKept, HeldFresh, Fails;
    var (init, e) := (es[..|es| - 1], es[|es| - 1]);
    RunKeeps(es);
    assert PointOk(Run(es), c);
    RunKeeps(init);
    FailStep(Run(init), e, c);
    if c < |Run(init).calls| { AnsweredUnlessFailed(init, c); } else { NothingFailed(init, c); }
  }

  /** The most moves a call still has. */
  function Rank(p: Point): nat {
    match p
    case Looking => 5
    case Creating(_, _) => 4
    case Copying(_, _, _) => 1
    case Asking(_) => 3
    case Saving(_) => 2
    case Counting => 1
    case Returned(_) => 0
  }

  /** Every move of a call that has not returned brings it nearer its return. */
  lemma MovesReturn(w: World, c: nat, fault: bool)
    requires Invariant(w) && c < |w.calls| && !w.calls[c].at.Returned?
    ensures Rank(Moved(w, c, fault).calls[c].at) < Rank(w.calls[c].at)
  {
    assert PointOk(w, c);
    if Saved(w, c) { assert Kept(w, c); }
  }

  // ----- an overlap that is read twice -----

  ghost predicate Reachable(w: World) {
    exists es :: Run(es) == w
  }

  lemma ReachStep(w: World, e: Event)
    requires Reachable(w)
    ensures Reachable(Step(w, e))
  {
    var es :| Run(es) == w;
    assert (es + [e])[..|es|] == es;
    assert Run(es + [e]) == Step(w, e);
  }

  lemma StartReachable()
    ensures Reachable(Start)
  {
    assert Run([]) == Start;
  }

  /** Two uploads of one content move in turn: both find nothing, both are read, and each gets its own reading. */
  lemma ReadTwice(u: Upload, v: Upload) returns (w: World)
    requires SameContent(u, v) && u.ocr.Some? && v.ocr.Some?
    ensures Reachable(w) && |w.calls| == 2 && w.calls[0].u == u && w.calls[1].u == v && |w.counts| == 2
    ensures AnswerOf(w.calls[0]) == Some(Reading(u)) && AnswerOf(w.calls[1]) == Some(Reading(v))
  {
    hide Reachable, Pages, Metered;
    w := Start;
    StartReachable();
    w := Arrived(w, u);
    w := Arrived(w, v);
    w := BothMove(w);
    assert w.calls == [Call(u, Creating(None, None)), Call(v, Creating(None, None))];
    w := BothMove(w);
    assert w.calls == [Call(u, Asking(0)), Call(v, Asking(1))];
    w := BothMove(w);
    assert w.calls == [Call(u, Saving(0)), Call(v, Saving(1))];
    w := BothMove(w);
    assert w.calls == [Call(u, Counting), Call(v, Counting)];
    w := BothMove(w);
  }

  lemma Arrived(w: World, u: Upload) returns (after: World)
    requires Reachable(w)
    ensures Reachable(after) && after == w.(calls := w.calls + [Call(u, Looking)])
  {
    ReachStep(w, Arrive(u));
    after := Step(w, Arrive(u));
  }

  lemma BothMove(w: World) returns (after: World)
    requires Reachable(w) && |w.calls| == 2
    ensures Reachable(after) && |Moved(w, 0, false).calls| == 2 && after == Moved(Moved(w, 0, false), 1, false)
  {
    hide Reachable;
    ReachStep(w, Move(0, false));
    MovedFrame(w, 0, false);
    ReachStep(Moved(w, 0, false), Move(1, false));
    after := Moved(Moved(w, 0, false), 1, false);
  }
}
