/**
 * The stored rate history of one table (fx-rates.service.ts: persistRates, refreshTableStats, sync).
 * The unique key is quote and day (schema.prisma, model FxRate); an insert that meets an existing
 * key is skipped.
 */
module FxStore {
  import opened Prelude
  import opened Calendar
  import opened FxFetch

  datatype Key = Key(quote: string, day: int)

  type Store = map<Key, real>

  const BATCH_SIZE := 1000
  const REFRESH_DAYS := 7

  /** toFixed(8) into a decimal column. */
  function Stored(rate: real): real {
    Round(rate * 100000000.0) as real / 100000000.0
  }

  // ----- inserting -----

  function Insert(s: Store, r: Row): Store {
    var k := Key(r.quote, r.day);
    if k in s then s else s[k := Stored(r.rate)]
  }

  function InsertAll(s: Store, rows: seq<Row>): Store {
    if rows == [] then s else Insert(InsertAll(s, rows[..|rows| - 1]), rows[|rows| - 1])
  }

  lemma {:induction false} InsertAllConcat(s: Store, a: seq<Row>, b: seq<Row>)
    ensures InsertAll(s, a + b) == InsertAll(InsertAll(s, a), b)
  {
    if b == [] {
      assert a + b == a;
    } else {
      InsertAllConcat(s, a, b[..|b| - 1]);
      assert (a + b)[..|a + b| - 1] == a + b[..|b| - 1];
    }
  }

  /** What was stored stays; a new key gets the first row listed for it. */
  lemma {:induction false} InsertAllKey(s: Store, rows: seq<Row>, k: Key)
    ensures k in InsertAll(s, rows) <==> k in s || Lists(rows, k.quote, k.day)
    ensures k in s ==> InsertAll(s, rows)[k] == s[k]
    ensures k !in s && Lists(rows, k.quote, k.day) ==>
      InsertAll(s, rows)[k] == Stored(Lookup(rows, k.quote, k.day).value)
  {
    if rows != [] {
      var (init, r) := (rows[..|rows| - 1], rows[|rows| - 1]);
      InsertAllKey(s, init, k);
      assert rows == init + [r];
      LookupConcat(init, [r], k.quote, k.day);
      assert Lists(rows, k.quote, k.day) <==> Lists(init, k.quote, k.day) || (r.quote == k.quote && r.day == k.day);
    }
  }

  lemma {:induction false} InsertAllGrows(s: Store, rows: seq<Row>)
    ensures |s| <= |InsertAll(s, rows)|
  {
    if rows != [] {
      InsertAllGrows(s, rows[..|rows| - 1]);
      InsertGrows(InsertAll(s, rows[..|rows| - 1]), rows[|rows| - 1]);
    }
  }

  lemma InsertGrows(s: Store, r: Row)
    ensures |s| <= |Insert(s, r)| <= |s| + 1
  {
    var k := Key(r.quote, r.day);
    if k !in s { assert s[k := Stored(r.rate)].Keys == s.Keys + {k}; }
  }

  /** Only the first row per key matters. */
  lemma InsertAllSame(s: Store, a: seq<Row>, b: seq<Row>)
    requires forall q, d :: Lookup(a, q, d) == Lookup(b, q, d)
    ensures InsertAll(s, a) == InsertAll(s, b)
  {
    forall k: Key
      ensures k in InsertAll(s, a) <==> k in InsertAll(s, b)
      ensures k in InsertAll(s, a) ==> InsertAll(s, a)[k] == InsertAll(s, b)[k]
    {
      InsertAllKey(s, a, k);
      InsertAllKey(s, b, k);
      assert Lookup(a, k.quote, k.day) == Lookup(b, k.quote, k.day);
    }
  }

  // ----- the stored days -----

  function Days(s: Store): set<int> {
    set k | k in s :: k.day
  }

  lemma Inhabited(days: set<int>)
    ensures days == {} || exists d :: d in days
  {
    if !exists d :: d in days {
      assert days == {};
    }
  }

  lemma {:induction false} GreatestExists(days: set<int>)
    requires days != {}
    ensures exists d :: d in days && forall e | e in days :: e <= d
  {
    Inhabited(days);
    var x :| x in days;
    var rest := days - {x};
    assert forall e :: e in days <==> e == x || e in rest;
    if rest != {} {
      GreatestExists(rest);
      var d :| d in rest && forall e | e in rest :: e <= d;
      var m := Max(d, x);
      assert m in days && forall e | e in days :: e <= m;
    } else {
      assert x in days && forall e | e in days :: e <= x;
    }
  }

  lemma {:induction false} LeastExists(days: set<int>)
    requires days != {}
    ensures exists d :: d in days && forall e | e in days :: d <= e
  {
    Inhabited(days);
    var x :| x in days;
    var rest := days - {x};
    assert forall e :: e in days <==> e == x || e in rest;
    if rest != {} {
      LeastExists(rest);
      var d :| d in rest && forall e | e in rest :: d <= e;
      var m := Min(d, x);
      assert m in days && forall e | e in days :: m <= e;
    } else {
      assert x in days && forall e | e in days :: x <= e;
    }
  }

  /** The _max and _min aggregates over asOfDate. */
  function Latest(s: Store): (r: Option<int>)
    ensures r.None? <==> s == map[]
    ensures r.Some? ==> (exists k :: k in s && k.day == r.value) && forall k | k in s :: k.day <= r.value
  {
    if s == map[] then None
    else
      var k0 :| k0 in s;
      assert k0.day in Days(s);
      GreatestExists(Days(s));
      var d :| d in Days(s) && forall e | e in Days(s) :: e <= d;
      assert forall k | k in s :: k.day in Days(s);
      Some(d)
  }

  function Earliest(s: Store): (r: Option<int>)
    ensures r.None? <==> s == map[]
    ensures r.Some? ==> (exists k :: k in s && k.day == r.value) && forall k | k in s :: r.value <= k.day
  {
    if s == map[] then None
    else
      var k0 :| k0 in s;
      assert k0.day in Days(s);
      LeastExists(Days(s));
      var d :| d in Days(s) && forall e | e in Days(s) :: d <= e;
      assert forall k | k in s :: k.day in Days(s);
      Some(d)
  }

  // ----- the sync plan -----

  /** The history ranges a sync asks for, in order. */
  function Plan(latest: Option<int>, earliest: Option<int>, today: int, backfill: bool): seq<Span> {
    if latest.None? then [Span(HISTORY_START, today)]
    else
      (if latest.value + 1 <= today then [Span(latest.value + 1, today)] else [])
      + (if backfill && earliest.Some? && HISTORY_START < earliest.value then [Span(HISTORY_START, earliest.value - 1)] else [])
  }

  /** The plan followed by the refresh of the last week. */
  function Asked(s: Store, today: int, backfill: bool): seq<Span> {
    Plan(Latest(s), Earliest(s), today, backfill) + [Span(today - REFRESH_DAYS, today)]
  }

  /** Fetching a range and persisting it; fetching clamps to [2020-01-01, today]. */
  function Absorb(src: Source, s: Store, feed: Feed, today: int, range: Span): Store {
    InsertAll(s, RangeRows(src, feed, Max(range.lo, HISTORY_START), Min(range.hi, today)))
  }

  function AbsorbAll(src: Source, s: Store, feed: Feed, today: int, ranges: seq<Span>): Store {
    if ranges == [] then s
    else Absorb(src, AbsorbAll(src, s, feed, today, ranges[..|ranges| - 1]), feed, today, ranges[|ranges| - 1])
  }

  lemma AbsorbNext(src: Source, s: Store, feed: Feed, today: int, ranges: seq<Span>, i: nat)
    requires i < |ranges|
    ensures AbsorbAll(src, s, feed, today, ranges[..i + 1])
      == Absorb(src, AbsorbAll(src, s, feed, today, ranges[..i]), feed, today, ranges[i])
    ensures AbsorbAll(src, s, feed, today, []) == s
    ensures ranges[i].lo > ranges[i].hi ==>
      AbsorbAll(src, s, feed, today, ranges[..i + 1]) == AbsorbAll(src, s, feed, today, ranges[..i])
  {
    assert ranges[..i + 1][..i] == ranges[..i];
  }

  class FxTable {
    const source: Source
    var rates: Store
    var earliestDate: Option<int>
    var asOfDate: Option<int>
    var rateCount: nat
    var lastSyncFailed: bool

    constructor (source: Source)
      ensures this.source == source && rates == map[] && StatsFresh() && !lastSyncFailed
    {
      this.source := source;
      rates, earliestDate, asOfDate, rateCount, lastSyncFailed := map[], None, None, 0, false;
    }

    /** The cached statistics describe the stored rates. */
    predicate StatsFresh()
      reads this
    {
      earliestDate == Earliest(rates) && asOfDate == Latest(rates) && rateCount == |rates|
    }

    /** persistRates: batches of a thousand, each inserted with skipDuplicates. */
    method PersistRates(rows: seq<Row>) returns (inserted: nat)
      modifies this`rates
      ensures rates == InsertAll(old(rates), rows)
      ensures inserted == |rates| - |old(rates)|
    {
      inserted := 0;
      var i := 0;
      while i < |rows|
        invariant 0 <= i
        invariant rates == InsertAll(old(rates), rows[..Min(i, |rows|)])
        invariant inserted == |rates| - |old(rates)|
      {
        var next := Min(i + BATCH_SIZE, |rows|);
        var batch := rows[i..next];
        var before := |rates|;
        InsertAllGrows(rates, batch);
        InsertAllConcat(old(rates), rows[..i], batch);
        assert rows[..i] + batch == rows[..next];
        rates := InsertAll(rates, batch);
        inserted := inserted + (|rates| - before);
        i := i + BATCH_SIZE;
      }
      assert rows[..|rows|] == rows;
    }

    method RefreshTableStats()
      modifies this`earliestDate, this`asOfDate, this`rateCount, this`lastSyncFailed
      ensures StatsFresh() && !lastSyncFailed
    {
      earliestDate, asOfDate, rateCount, lastSyncFailed := Earliest(rates), Latest(rates), |rates|, false;
    }

    method FetchHistory(feed: Feed, today: int, range: Span, faults: set<nat>, first: nat)
      returns (rows: Option<seq<Row>>, next: nat)
      requires today + FRANK_CHUNK_DAYS <= LAST_DAY
      ensures first <= next && (rows.Some? <==> AllAnswered(faults, first, next))
      ensures rows.Some? ==> forall q, d ::
        Lookup(rows.value, q, d) == Lookup(RangeRows(source, feed, Max(range.lo, HISTORY_START), Min(range.hi, today)), q, d)
    {
      match source
      case Nbp => rows, next := FetchNbpHistory(feed, today, range.lo, range.hi, faults, first);
      case Frankfurter(base) => rows, next := FetchFrankfurterHistory(base, feed, today, range.lo, range.hi, faults, first);
    }

    /** Fetch one range and, if every request of it is answered, persist it. */
    method SyncRange(feed: Feed, today: int, range: Span, faults: set<nat>, first: nat)
      returns (ok: bool, inserted: nat, next: nat)
      requires today + FRANK_CHUNK_DAYS <= LAST_DAY
      modifies this`rates
      ensures first <= next && (ok <==> AllAnswered(faults, first, next))
      ensures rates == if ok then Absorb(source, old(rates), feed, today, range) else old(rates)
      ensures inserted == |rates| - |old(rates)|
    {
      var rows;
      rows, next := FetchHistory(feed, today, range, faults, first);
      if rows.None? {
        return false, 0, next;
      }
      InsertAllSame(rates, rows.value, RangeRows(source, feed, Max(range.lo, HISTORY_START), Min(range.hi, today)));
      inserted := PersistRates(rows.value);
      ok := true;
    }

    /**
     * sync: plan, fetch and persist range by range, refresh the last week, then refresh the
     * statistics. A failed request ends it; what was persisted before stays.
     */
    method Sync(feed: Feed, today: int, backfill: bool, faults: set<nat>)
      returns (ok: bool, inserted: nat, requests: nat, ghost done: nat)
      requires today + FRANK_CHUNK_DAYS <= LAST_DAY
      modifies this
      ensures ok <==> AllAnswered(faults, 0, requests)
      ensures done <= |Asked(old(rates), today, backfill)| && (ok <==> done == |Asked(old(rates), today, backfill)|)
      ensures rates == AbsorbAll(source, old(rates), feed, today, Asked(old(rates), today, backfill)[..done])
      ensures inserted == |rates| - |old(rates)|
      ensures ok ==> StatsFresh() && !lastSyncFailed
      ensures !ok ==> lastSyncFailed && earliestDate == old(earliestDate) && asOfDate == old(asOfDate) && rateCount == old(rateCount)
    {
      hide Absorb, AbsorbAll;
      var earliest, latest := Earliest(rates), Latest(rates);
      ghost var asked := Asked(rates, today, backfill);
      var ranges: seq<Span> := [];
      if latest.None? {
        ranges := ranges + [Span(HISTORY_START, today)];
      } else {
        if latest.value + 1 <= today {
          ranges := ranges + [Span(latest.value + 1, today)];
        }
        if backfill && earliest.Some? && HISTORY_START < earliest.value {
          ranges := ranges + [Span(HISTORY_START, earliest.value - 1)];
        }
      }
      assert ranges == Plan(latest, earliest, today, backfill);
      assert ranges == asked[..|ranges|];
      AbsorbNext(source, rates, feed, today, asked, 0);

      ok, inserted, requests, done := true, 0, 0, 0;
      for i := 0 to |ranges|
        invariant ok && done == i && AllAnswered(faults, 0, requests)
        invariant rates == AbsorbAll(source, old(rates), feed, today, asked[..i])
        invariant inserted == |rates| - |old(rates)|
        invariant earliestDate == old(earliestDate) && asOfDate == old(asOfDate) && rateCount == old(rateCount)
      {
        AbsorbNext(source, old(rates), feed, today, asked, i);
        assert asked[i] == ranges[i];
        done := i + 1;
        if ranges[i].lo > ranges[i].hi {
          continue;
        }
        var count;
        ok, count, requests := SyncRange(feed, today, ranges[i], faults, requests);
        if !ok {
          lastSyncFailed, done := true, i;
          return;
        }
        inserted := inserted + count;
      }

      // the last week is always asked for again
      AbsorbNext(source, old(rates), feed, today, asked, |ranges|);
      assert asked[|ranges|] == Span(today - REFRESH_DAYS, today) && |asked| == |ranges| + 1;
      var count;
      ok, count, requests := SyncRange(feed, today, Span(today - REFRESH_DAYS, today), faults, requests);
      if !ok {
        lastSyncFailed := true;
        return;
      }
      inserted := inserted + count;
      done := |asked|;
      RefreshTableStats();
    }
  }
}
