/**
 * Document extraction with its content-hash cache (document-extraction.service.ts). The lookup
 * asks for tenant and hash only, never for the document type. Calls run one after another.
 */
module ExtractionCache {
  import opened Prelude

  datatype DocType = Invoice | Contract

  /** What is stored for a document: the type it was read as, and what the provider read. */
  datatype Extraction = Extraction(docType: DocType, provider: string, content: string)

  datatype Asset = Asset(tenant: string, hash: string, pageCount: nat, payload: Option<Extraction>, extractedAt: Option<int>)

  datatype File = File(bytes: nat, supported: bool, hash: string)

  /** An upload: what arrives, what the provider would answer (nothing if it throws), and the clock. */
  datatype Upload = Upload(tenant: string, file: File, docType: DocType, ocr: Option<(string, string)>, now: int, month: string)

  datatype Source = FromCache | FromProvider

  datatype Outcome =
    | Extracted(extraction: Extraction, source: Source, pageCount: nat)
    | FileRequired
    | Unsupported
    | OcrFailed

  datatype MeterKey = MeterKey(tenant: string, month: string)

  datatype Store = Store(assets: seq<Asset>, meter: map<MeterKey, nat>)

  const PAGE_BYTES := 50000

  /** max(1, ceil(size / 50000)). */
  function Pages(bytes: nat): nat {
    Max(1, (bytes + PAGE_BYTES - 1) / PAGE_BYTES)
  }

  /** A file counts one page for every started 50,000 bytes, and at least one. */
  lemma PagesStarted(bytes: nat)
    ensures 1 <= Pages(bytes)
    ensures bytes <= 50000 * Pages(bytes)
    ensures Pages(bytes) == 1 || 50000 * (Pages(bytes) - 1) < bytes
  {
  }

  predicate Hit(a: Asset, tenant: string, hash: string) {
    a.tenant == tenant && a.hash == hash && a.payload.Some?
  }

  function Stamp(a: Asset): int {
    if a.extractedAt.Some? then a.extractedAt.value else 0
  }

  /** findCachedExtraction: an asset with a payload for the tenant and hash, latest extraction first. */
  function FindCached(assets: seq<Asset>, tenant: string, hash: string): (r: Option<nat>)
    ensures r.Some? ==> r.value < |assets| && Hit(assets[r.value], tenant, hash)
    ensures r.Some? ==> forall i | 0 <= i < |assets| && Hit(assets[i], tenant, hash) :: Stamp(assets[i]) <= Stamp(assets[r.value])
    ensures r.None? ==> forall i | 0 <= i < |assets| :: !Hit(assets[i], tenant, hash)
  {
    if assets == [] then None
    else
      var last := |assets| - 1;
      var r := FindCached(assets[..last], tenant, hash);
      if Hit(assets[last], tenant, hash) && (r.None? || Stamp(assets[r.value]) < Stamp(assets[last])) then Some(last) else r
  }

  function Metered(meter: map<MeterKey, nat>, k: MeterKey): nat {
    if k in meter then meter[k] else 0
  }

  /** extractDocument: check, look up, store the file, then answer from the cache or ask the provider. */
  function Extract(s: Store, u: Upload): (Store, Outcome) {
    if u.file.bytes == 0 then (s, FileRequired)
    else if !u.file.supported then (s, Unsupported)
    else
      var cached := FindCached(s.assets, u.tenant, u.file.hash);
      var pages := Pages(u.file.bytes);
      var bare := Asset(u.tenant, u.file.hash, pages, None, None);
      if cached.Some? then
        var from := s.assets[cached.value];
        var at := if from.extractedAt.Some? then from.extractedAt else Some(u.now);
        (s.(assets := s.assets + [bare.(payload := from.payload, extractedAt := at)]),
         Extracted(from.payload.value, FromCache, pages))
      else if u.ocr.None? then (s.(assets := s.assets + [bare]), OcrFailed)
      else
        var e := Extraction(u.docType, u.ocr.value.0, u.ocr.value.1);
        var k := MeterKey(u.tenant, u.month);
        (Store(s.assets + [bare.(payload := Some(e), extractedAt := Some(u.now))], s.meter[k := Metered(s.meter, k) + pages]),
         Extracted(e, FromProvider, pages))
  }

  /** The service over its stored assets and page meter. */
  class DocumentExtraction {
    var assets: seq<Asset>
    var meter: map<MeterKey, nat>

    constructor ()
      ensures Snapshot() == Store([], map[])
    {
      assets, meter := [], map[];
    }

    function Snapshot(): Store
      reads this
    {
      Store(assets, meter)
    }

    method ExtractDocument(u: Upload) returns (outcome: Outcome)
      modifies this
      ensures (Snapshot(), outcome) == Extract(old(Snapshot()), u)
    {
      if u.file.bytes == 0 {
        return FileRequired;
      }
      if !u.file.supported {
        return Unsupported;
      }
      var cached := FindCached(assets, u.tenant, u.file.hash);
      var pageCount := Pages(u.file.bytes);
      var id := |assets|;
      assets := assets + [Asset(u.tenant, u.file.hash, pageCount, None, None)];
      if cached.Some? {
        var from := assets[cached.value];
        var at := if from.extractedAt.Some? then from.extractedAt else Some(u.now);
        assets := assets[id := assets[id].(payload := from.payload, extractedAt := at)];
        assert Snapshot() == Extract(old(Snapshot()), u).0;
        return Extracted(from.payload.value, FromCache, pageCount);
      }
      if u.ocr.None? {
        return OcrFailed;
      }
      var extraction := Extraction(u.docType, u.ocr.value.0, u.ocr.value.1);
      assets := assets[id := assets[id].(payload := Some(extraction), extractedAt := Some(u.now))];
      var k := MeterKey(u.tenant, u.month);
      meter := meter[k := Metered(meter, k) + pageCount];
      outcome := Extracted(extraction, FromProvider, pageCount);
      assert Snapshot() == Extract(old(Snapshot()), u).0;
    }
  }

  // ----- runs -----

  function Run(us: seq<Upload>): Store {
    if us == [] then Store([], map[]) else Extract(Run(us[..|us| - 1]), us[|us| - 1]).0
  }

  /** What the i-th upload of a run is answered. */
  function Answer(us: seq<Upload>, i: nat): Outcome
    requires i < |us|
  {
    Extract(Run(us[..i]), us[i]).1
  }

  predicate SameContent(u: Upload, v: Upload) {
    u.tenant == v.tenant && u.file.hash == v.file.hash
  }

  lemma AnswerPrefix(us: seq<Upload>, n: nat, i: nat)
    requires i < n <= |us|
    ensures Answer(us[..n], i) == Answer(us, i)
  {
    assert us[..n][..i] == us[..i];
  }

  /** The i-th upload was of the asset's content and was answered with its payload. */
  predicate Answered(us: seq<Upload>, i: nat, a: Asset)
    requires i < |us| && a.payload.Some?
  {
    us[i].tenant == a.tenant && us[i].file.hash == a.hash
    && Answer(us, i).Extracted? && Answer(us, i).extraction == a.payload.value
  }

  /** Every stored payload is an earlier answer for its content. */
  predicate PayloadsAnswered(us: seq<Upload>, s: Store) {
    forall a | a in s.assets && a.payload.Some? :: exists i :: 0 <= i < |us| && Answered(us, i, a)
  }

  /** Every answer is stored. */
  predicate AnswersStored(us: seq<Upload>, s: Store) {
    forall i | 0 <= i < |us| && Answer(us, i).Extracted? :: exists a :: a in s.assets && Hit(a, us[i].tenant, us[i].file.hash)
  }

  /** What one upload stores. */
  lemma ExtractStores(s: Store, u: Upload)
    ensures var (after, answer) := Extract(s, u);
      && (forall a | a in s.assets :: a in after.assets)
      && (forall a | a in after.assets && a !in s.assets && a.payload.Some? ::
            a.tenant == u.tenant && a.hash == u.file.hash && answer.Extracted? && answer.extraction == a.payload.value)
      && (answer.Extracted? ==> exists a :: a in after.assets && Hit(a, u.tenant, u.file.hash))
  {
    var after := Extract(s, u).0;
    if |s.assets| < |after.assets| { assert after.assets[|s.assets|] in after.assets; }
  }

  lemma {:induction false} RunPayloads(us: seq<Upload>)
    ensures PayloadsAnswered(us, Run(us)) && AnswersStored(us, Run(us))
  {
    hide Extract, Hit;
    if us != [] {
      var last := |us| - 1;
      var init := us[..last];
      RunPayloads(init);
      ExtractStores(Run(init), us[last]);
      forall i | 0 <= i < last ensures Answer(init, i) == Answer(us, i) && init[i] == us[i] { AnswerPrefix(us, last, i); }
      forall a | a in Run(us).assets && a.payload.Some?
        ensures exists i :: 0 <= i < |us| && Answered(us, i, a)
      {
        if a in Run(init).assets {
          var i :| 0 <= i < |init| && Answered(init, i, a);
          assert Answered(us, i, a);
        } else {
          assert Answered(us, last, a);
        }
      }
    }
  }

  /** How many of the first n uploads were taken: with bytes, of a supported type. */
  function Taken(us: seq<Upload>, n: nat): nat
    requires n <= |us|
  {
    if n == 0 then 0 else Taken(us, n - 1) + if 0 < us[n - 1].file.bytes && us[n - 1].file.supported then 1 else 0
  }

  lemma ExtractAdds(s: Store, u: Upload)
    ensures var (after, answer) := Extract(s, u);
      if 0 < u.file.bytes && u.file.supported then
        && |after.assets| == |s.assets| + 1 && after.assets[..|s.assets|] == s.assets
        && var a := after.assets[|s.assets|];
           a.tenant == u.tenant && a.hash == u.file.hash && a.pageCount == Pages(u.file.bytes)
           && a.payload == if answer.Extracted? then Some(answer.extraction) else None
      else after == s
  {
  }

  /** Every upload that is taken has its own asset from then on: its content, its pages, and what it was answered. */
  lemma {:induction false} AssetOfUpload(us: seq<Upload>, n: nat, i: nat)
    requires i < n <= |us|
    ensures |Run(us[..n]).assets| == Taken(us, n) && Taken(us, i) <= Taken(us, n)
    ensures 0 < us[i].file.bytes && us[i].file.supported ==>
      && Taken(us, i) < Taken(us, n)
      && var a := Run(us[..n]).assets[Taken(us, i)];
         a.tenant == us[i].tenant && a.hash == us[i].file.hash && a.pageCount == Pages(us[i].file.bytes)
         && a.payload == if Answer(us, i).Extracted? then Some(Answer(us, i).extraction) else None
  {
    hide Extract, Pages;
    assert us[..n][..n - 1] == us[..n - 1];
    ExtractAdds(Run(us[..n - 1]), us[n - 1]);
    if i < n - 1 {
      AssetOfUpload(us, n - 1, i);
    } else if 0 < i {
      AssetOfUpload(us, i, 0);
    } else {
      assert us[..0] == [];
    }
  }

  /** All payloads of a content carry the time the provider read it, copies from the cache too. */
  predicate StampsAgree(s: Store) {
    forall i, j | 0 <= i < |s.assets| && 0 <= j < |s.assets| && s.assets[i].payload.Some?
      && Hit(s.assets[j], s.assets[i].tenant, s.assets[i].hash) ::
      s.assets[i].extractedAt.Some? && s.assets[i].extractedAt == s.assets[j].extractedAt
  }

  lemma {:induction false} RunStamps(us: seq<Upload>)
    ensures StampsAgree(Run(us))
  {
    hide FindCached, Pages, Metered;
    if us != [] { RunStamps(us[..|us| - 1]); }
  }

  /** An earlier upload of the same content that was answered. */
  predicate Earlier(us: seq<Upload>, k: nat, i: nat)
    requires k < |us| && i < |us|
  {
    k < i && SameContent(us[k], us[i]) && Answer(us, k).Extracted?
  }

  /** The i-th upload is the first of its content that was answered. */
  predicate First(us: seq<Upload>, i: nat)
    requires i < |us|
  {
    Answer(us, i).Extracted? && forall k | 0 <= k < i :: !Earlier(us, k, i)
  }

  /** An answer comes from the cache exactly when its content was answered before, and then it repeats such an answer. */
  lemma CachedIffEarlier(us: seq<Upload>, i: nat)
    requires i < |us| && Answer(us, i).Extracted?
    ensures Answer(us, i).source.FromCache? <==> exists k :: 0 <= k < i && Earlier(us, k, i)
    ensures Answer(us, i).source.FromCache? ==>
      exists k :: 0 <= k < i && Earlier(us, k, i) && Answer(us, k).extraction == Answer(us, i).extraction
  {
    var past := us[..i];
    RunPayloads(past);
    var assets := Run(past).assets;
    var cached := FindCached(assets, us[i].tenant, us[i].file.hash);
    assert Answer(us, i).source.FromCache? <==> cached.Some?;
    hide Answer, FindCached, Run;
    forall k | 0 <= k < i ensures Answer(past, k) == Answer(us, k) && past[k] == us[k] { AnswerPrefix(us, i, k); }
    if cached.Some? {
      CachedRepeats(us, i, cached.value);
    }
    forall k | 0 <= k < i && Earlier(us, k, i)
      ensures cached.Some?
    {
      var a :| a in assets && Hit(a, past[k].tenant, past[k].file.hash);
    }
  }

  lemma CachedRepeats(us: seq<Upload>, i: nat, at: nat)
    requires i < |us| && Answer(us, i).Extracted?
    requires FindCached(Run(us[..i]).assets, us[i].tenant, us[i].file.hash) == Some(at)
    ensures exists k :: 0 <= k < i && Earlier(us, k, i) && Answer(us, k).extraction == Answer(us, i).extraction
  {
    hide Extract, FindCached, Run, Answer, AnswersStored;
    var past := us[..i];
    RunPayloads(past);
    CachedAnswer(us, i, at);
    var from := Run(past).assets[at];
    assert from in Run(past).assets;
    var k :| 0 <= k < |past| && Answered(past, k, from);
    AnswerPrefix(us, i, k);
    assert Earlier(us, k, i);
  }

  lemma CachedAnswer(us: seq<Upload>, i: nat, at: nat)
    requires i < |us| && Answer(us, i).Extracted?
    requires FindCached(Run(us[..i]).assets, us[i].tenant, us[i].file.hash) == Some(at)
    ensures Answer(us, i).extraction == Run(us[..i]).assets[at].payload.value
  {
  }

  /**
   * All answers for one content agree: the first is the provider's, every later one is from the
   * cache and returns the same extraction.
   */
  lemma {:induction false} AnswersAgree(us: seq<Upload>, i: nat, j: nat)
    requires i < |us| && j < |us| && Earlier(us, i, j) && Answer(us, j).Extracted?
    ensures Answer(us, j).source.FromCache? && Answer(us, j).extraction == Answer(us, i).extraction
    decreases j
  {
    hide Answer;
    CachedIffEarlier(us, j);
    var k :| 0 <= k < j && Earlier(us, k, j) && Answer(us, k).extraction == Answer(us, j).extraction;
    if i < k { AnswersAgree(us, i, k); }
    if k < i { AnswersAgree(us, k, i); }
  }

  /** A provider answers a content at most once: the first successful upload, and only that one. */
  lemma ProviderIffFirst(us: seq<Upload>, i: nat)
    requires i < |us| && Answer(us, i).Extracted?
    ensures Answer(us, i).source.FromProvider? <==> First(us, i)
  {
    hide Answer;
    CachedIffEarlier(us, i);
  }

  /**
   * When an upload is answered: it has bytes and a supported type, and either its content was answered
   * before or the provider reads it. What the provider reads is stored as it is, under the asked type.
   */
  lemma AnsweredWhen(us: seq<Upload>, i: nat)
    requires i < |us|
    ensures var (u, a) := (us[i], Answer(us, i));
      && (u.file.bytes == 0 <==> a == FileRequired)
      && (0 < u.file.bytes && !u.file.supported <==> a == Unsupported)
      && (a.Extracted? <==> 0 < u.file.bytes && u.file.supported && ((exists k :: 0 <= k < i && Earlier(us, k, i)) || u.ocr.Some?))
      && (a.Extracted? ==> a.pageCount == Pages(u.file.bytes))
      && (a.Extracted? && a.source.FromProvider? ==>
            u.ocr.Some? && a.extraction == Extraction(u.docType, u.ocr.value.0, u.ocr.value.1))
  {
    hide FindCached, Pages;
    if 0 < us[i].file.bytes && us[i].file.supported { HitWhenEarlier(us, i); }
  }

  /** The lookup finds something exactly when an earlier upload of the content was answered. */
  lemma HitWhenEarlier(us: seq<Upload>, i: nat)
    requires i < |us|
    ensures FindCached(Run(us[..i]).assets, us[i].tenant, us[i].file.hash).Some? <==> exists k :: 0 <= k < i && Earlier(us, k, i)
  {
    hide Extract, FindCached, Answer, Run;
    var found := FindCached(Run(us[..i]).assets, us[i].tenant, us[i].file.hash);
    if found.Some? { FoundEarlier(us, i, found.value); }
    if k :| 0 <= k < i && Earlier(us, k, i) { EarlierFound(us, i, k); }
  }

  lemma FoundEarlier(us: seq<Upload>, i: nat, at: nat)
    requires i < |us| && at < |Run(us[..i]).assets| && Hit(Run(us[..i]).assets[at], us[i].tenant, us[i].file.hash)
    ensures exists k :: 0 <= k < i && Earlier(us, k, i)
  {
    hide Extract, FindCached, Answer, Run;
    RunPayloads(us[..i]);
    var a := Run(us[..i]).assets[at];
    var k :| 0 <= k < i && Answered(us[..i], k, a);
    AnswerPrefix(us, i, k);
    assert Earlier(us, k, i);
  }

  lemma EarlierFound(us: seq<Upload>, i: nat, k: nat)
    requires k < i < |us| && Earlier(us, k, i)
    ensures FindCached(Run(us[..i]).assets, us[i].tenant, us[i].file.hash).Some?
  {
    hide Extract, FindCached, Answer, Run;
    RunPayloads(us[..i]);
    AnswerPrefix(us, i, k);
    assert us[..i][k] == us[k];
    var a :| a in Run(us[..i]).assets && Hit(a, us[k].tenant, us[k].file.hash);
    var at :| 0 <= at < |Run(us[..i]).assets| && Run(us[..i]).assets[at] == a;
  }

  lemma AnsweredType(us: seq<Upload>, i: nat)
    requires i < |us| && Answer(us, i).Extracted? && Answer(us, i).source.FromProvider?
    ensures Answer(us, i).extraction.docType == us[i].docType
  {
  }

  /**
   * The document type asked for does not matter after the first time: an upload is answered with
   * the type it asked for exactly when the first upload of its content asked for the same type.
   */
  lemma TypeOfFirst(us: seq<Upload>, first: nat, i: nat)
    requires first <= i < |us| && First(us, first) && SameContent(us[first], us[i]) && Answer(us, i).Extracted?
    ensures Answer(us, i).extraction.docType == us[i].docType <==> us[first].docType == us[i].docType
  {
    ProviderIffFirst(us, first);
    AnsweredType(us, first);
    if first < i { AnswersAgree(us, first, i); }
  }

  /** The failing case: a file read as an invoice and uploaded again as a contract is answered as an invoice. */
  lemma ContractReadAsInvoice(tenant: string, file: File, read: (string, string), again: Option<(string, string)>, now: int, month: string)
    requires 0 < file.bytes && file.supported
    ensures var us := [Upload(tenant, file, Invoice, Some(read), now, month), Upload(tenant, file, Contract, again, now, month)];
      && us[1].docType == Contract
      && Answer(us, 1) == Extracted(Extraction(Invoice, read.0, read.1), FromCache, Pages(file.bytes))
  {
    var us := [Upload(tenant, file, Invoice, Some(read), now, month), Upload(tenant, file, Contract, again, now, month)];
    assert us[..0] == [] && us[..1][..0] == [];
    assert Answer(us, 0) == Extracted(Extraction(Invoice, read.0, read.1), FromProvider, Pages(file.bytes));
    assert Earlier(us, 0, 1);
    CachedIffEarlier(us, 1);
  }

  // ----- the page meter -----

  /** Pages of the provider-served uploads of a tenant and month among the first n. */
  function ProviderPages(us: seq<Upload>, n: nat, k: MeterKey): nat
    requires n <= |us|
  {
    if n == 0 then 0
    else
      var (u, a) := (us[n - 1], Answer(us, n - 1));
      ProviderPages(us, n - 1, k)
      + if a.Extracted? && a.source.FromProvider? && MeterKey(u.tenant, u.month) == k then a.pageCount else 0
  }

  lemma {:induction false} MeterCountsProviderPages(us: seq<Upload>, n: nat, k: MeterKey)
    requires n <= |us|
    ensures Metered(Run(us[..n]).meter, k) == ProviderPages(us, n, k)
  {
    if 0 < n {
      MeterCountsProviderPages(us, n - 1, k);
      assert us[..n][..n - 1] == us[..n - 1];
    }
  }
}
