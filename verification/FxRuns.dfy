/**
 * Whole runs of one rate table: the provider publishes, and syncs run to the end or stop at a
 * failed request. Every statement here is about every run.
 */
module FxRuns {
  import opened Prelude
  import opened Calendar
  import opened FxFetch
  import opened FxStore

  // ----- what one sync stores -----

  predicate Covers(ranges: seq<Span>, day: int) {
    exists r :: r in ranges && Holds(r, day)
  }

  lemma {:induction false} AbsorbAllKey(src: Source, s: Store, feed: Feed, today: int, ranges: seq<Span>, k: Key)
    ensures var after := AbsorbAll(src, s, feed, today, ranges);
      var gained := HISTORY_START <= k.day <= today && Covers(ranges, k.day) && Published(src, feed, k.quote, k.day).Some?;
      && (k in after <==> k in s || gained)
      && (k in s ==> after[k] == s[k])
      && (k !in s && gained ==> after[k] == Stored(Published(src, feed, k.quote, k.day).value))
  {
    if ranges != [] {
      var (init, r) := (ranges[..|ranges| - 1], ranges[|ranges| - 1]);
      var before := AbsorbAll(src, s, feed, today, init);
      var rows := RangeRows(src, feed, Max(r.lo, HISTORY_START), Min(r.hi, today));
      AbsorbAllKey(src, s, feed, today, init, k);
      assert Covers(ranges, k.day) <==> Covers(init, k.day) || Holds(r, k.day) by {
        assert ranges == init + [r];
      }
      InsertAllKey(before, rows, k);
      LookupRange(src, feed, Max(r.lo, HISTORY_START), Min(r.hi, today), k.quote, k.day);
      assert Lists(rows, k.quote, k.day) <==> Lookup(rows, k.quote, k.day).Some?;
    }
  }

  /** The store after a sync whose requests were all answered. */
  function Synced(src: Source, s: Store, feed: Feed, today: int, backfill: bool): Store {
    AbsorbAll(src, s, feed, today, Asked(s, today, backfill))
  }

  /** The days a full sync looks at: after the latest, the last week, and with backfill before the earliest. */
  predicate Window(s: Store, today: int, backfill: bool, day: int) {
    && HISTORY_START <= day <= today
    && (s == map[]
        || Latest(s).value < day
        || today - REFRESH_DAYS <= day
        || (backfill && day < Earliest(s).value))
  }

  lemma AskedCovers(s: Store, today: int, backfill: bool, day: int)
    requires HISTORY_START <= day <= today
    ensures Covers(Asked(s, today, backfill), day) <==> Window(s, today, backfill, day)
  {
    var plan := Plan(Latest(s), Earliest(s), today, backfill);
    var recent := Span(today - REFRESH_DAYS, today);
    var asked := Asked(s, today, backfill);
    assert asked[|plan|] == recent;
    if s == map[] {
      assert asked[0] == Span(HISTORY_START, today) && Holds(asked[0], day);
    } else {
      var (next, before) := (Span(Latest(s).value + 1, today), Span(HISTORY_START, Earliest(s).value - 1));
      assert next in asked <==> next in plan || next == recent;
      assert forall r | r in asked :: r == recent || r == next || (backfill && r == before);
      if Latest(s).value < day { assert plan[0] == next && asked[0] == next && Holds(next, day); }
      if today - REFRESH_DAYS <= day { assert Holds(recent, day); }
      if backfill && day < Earliest(s).value {
        assert plan[|plan| - 1] == before && asked[|plan| - 1] == before && Holds(before, day);
      }
    }
  }

  /**
   * Exactly what a sync adds, for any provider: the published rows of its window that are not
   * stored yet. A stored rate is never overwritten, whatever the provider now says.
   */
  lemma SyncGain(src: Source, s: Store, feed: Feed, today: int, backfill: bool, k: Key)
    ensures var after := Synced(src, s, feed, today, backfill);
      var published := Published(src, feed, k.quote, k.day);
      && (k in after <==> k in s || (Window(s, today, backfill, k.day) && published.Some?))
      && (k in s ==> after[k] == s[k])
      && (k !in s && k in after ==> after[k] == Stored(published.value))
  {
    AbsorbAllKey(src, s, feed, today, Asked(s, today, backfill), k);
    if HISTORY_START <= k.day <= today { AskedCovers(s, today, backfill, k.day); }
  }

  /**
   * The same from what the provider lists to what is stored. After an answered sync a foreign quote
   * is stored for a day exactly when it was before, or the day lies from 2020-01-01 to today, the
   * sync looks at it, and some listing of that day has the code and a positive value; what is new
   * is the first such listing.
   */
  lemma SyncStoresListings(src: Source, s: Store, feed: Feed, today: int, backfill: bool, quote: string, day: int)
    requires quote != (match src case Nbp => "PLN" case Frankfurter(base) => Upper(base))
    ensures IsIso("2020-01-01")
    ensures var (k, after) := (Key(quote, day), Synced(src, s, feed, today, backfill));
      && (k in after <==>
            || k in s
            || (&& IsoDay("2020-01-01") <= day <= today
                && (s == map[] || Latest(s).value < day || today - 7 <= day || (backfill && day < Earliest(s).value))
                && day in feed
                && exists i :: 0 <= i < |feed[day]| && feed[day][i].code != [] && 0.0 < feed[day][i].value && Upper(feed[day][i].code) == quote))
      && (k in s ==> after[k] == s[k])
      && (k !in s && k in after ==>
            var qs := feed[day];
            forall i | 0 <= i < |qs| && qs[i].code != [] && 0.0 < qs[i].value && Upper(qs[i].code) == quote
              && (forall j | 0 <= j < i :: !(qs[j].code != [] && 0.0 < qs[j].value && Upper(qs[j].code) == quote)) ::
              after[k] == Stored(if src == Nbp then 1.0 / qs[i].value else qs[i].value))
  {
    hide Asked, AbsorbAll, Published, Synced, Stored;
    HistoryStarts();
    SyncGain(src, s, feed, today, backfill, Key(quote, day));
    if day in feed { PositiveListingsCount(src, feed, quote, day); } else { NotListed(src, feed, quote, day); }
  }

  lemma HistoryStarts()
    ensures IsIso("2020-01-01") && IsoDay("2020-01-01") == HISTORY_START
  {
    assert Parse("2020-01-01") == Civil(2020, 1, 1);
  }

  // ----- runs -----

  /**
   * A publication adds quotes to a day; a replacement corrects, withdraws or adds anything on any
   * day; a sync persists the first `done` of the ranges it asks for.
   */
  datatype Event =
    | Publish(day: int, quotes: seq<Quote>)
    | Replace(feed: Feed)
    | Sync(today: int, backfill: bool, done: nat)

  datatype World = World(feed: Feed, store: Store)

  function Step(src: Source, w: World, e: Event): World {
    match e
    case Publish(day, quotes) => w.(feed := w.feed[day := (if day in w.feed then w.feed[day] else []) + quotes])
    case Replace(feed) => w.(feed := feed)
    case Sync(today, backfill, done) =>
      var asked := Asked(w.store, today, backfill);
      w.(store := AbsorbAll(src, w.store, w.feed, today, asked[..Min(done, |asked|)]))
  }

  function Run(src: Source, w: World, es: seq<Event>): World {
    if es == [] then w else Step(src, Run(src, w, es[..|es| - 1]), es[|es| - 1])
  }

  predicate NewerThanAll(feed: Feed, day: int) {
    forall d | d in feed :: d < day
  }

  /** Whole days appear, each later than every day published before, and nothing is replaced. */
  predicate InOrder(src: Source, w: World, es: seq<Event>) {
    es == [] || (
      && InOrder(src, w, es[..|es| - 1])
      && !es[|es| - 1].Replace?
      && (es[|es| - 1].Publish? ==> NewerThanAll(Run(src, w, es[..|es| - 1]).feed, es[|es| - 1].day)))
  }

  const Start := World(map[], map[])

  /** The store holds exactly the published rows from 2020-01-01 to day `upTo`, as first published. */
  ghost predicate Complete(src: Source, w: World, upTo: int) {
    forall k: Key {:trigger k in w.store} ::
      var published := Published(src, w.feed, k.quote, k.day);
      && (k in w.store <==> HISTORY_START <= k.day <= upTo && published.Some?)
      && (k in w.store ==> w.store[k] == Stored(published.value))
  }

  /** The latest stored day, or the eve of the history for an empty store. */
  function Bound(s: Store): int {
    if Latest(s).Some? then Latest(s).value else HISTORY_START - 1
  }

  lemma CompleteTight(src: Source, w: World, upTo: int)
    requires Complete(src, w, upTo)
    ensures Complete(src, w, Bound(w.store))
  {
  }

  lemma AbsorbComplete(src: Source, w: World, upTo: int, today: int, r: Span)
    requires Complete(src, w, upTo) && HISTORY_START - 1 <= upTo && r.lo <= upTo + 1
    ensures Complete(src, w.(store := Absorb(src, w.store, w.feed, today, r)), Max(upTo, Min(r.hi, today)))
  {
    var after := w.(store := Absorb(src, w.store, w.feed, today, r));
    assert AbsorbAll(src, w.store, w.feed, today, [r]) == after.store by {
      assert [r][..0] == [];
    }
    forall k: Key
      ensures var published := Published(src, w.feed, k.quote, k.day);
        && (k in after.store <==> HISTORY_START <= k.day <= Max(upTo, Min(r.hi, today)) && published.Some?)
        && (k in after.store ==> after.store[k] == Stored(published.value))
    {
      AbsorbAllKey(src, w.store, w.feed, today, [r], k);
      assert Covers([r], k.day) <==> Holds(r, k.day);
    }
  }

  /** The first range starts right after what is stored and ends today, and no later one starts beyond that. */
  lemma AskedReaches(s: Store, today: int, backfill: bool, i: nat)
    requires i < |Asked(s, today, backfill)| && forall k | k in s :: HISTORY_START <= k.day
    ensures var (r, upTo) := (Asked(s, today, backfill)[i], if i == 0 then Bound(s) else Max(Bound(s), today));
      && HISTORY_START - 1 <= upTo && r.lo <= upTo + 1 && Max(upTo, Min(r.hi, today)) == Max(Bound(s), today)
  {
  }

  /** After any prefix of a sync the store is complete: to where it was, then to today. */
  lemma {:induction false} SyncPrefixComplete(src: Source, w: World, today: int, backfill: bool, n: nat)
    requires Complete(src, w, Bound(w.store)) && n <= |Asked(w.store, today, backfill)|
    ensures var after := w.(store := AbsorbAll(src, w.store, w.feed, today, Asked(w.store, today, backfill)[..n]));
      Complete(src, after, if n == 0 then Bound(w.store) else Max(Bound(w.store), today))
  {
    hide Published, Absorb, Stored, Asked, Bound;
    var asked := Asked(w.store, today, backfill);
    if n > 0 {
      SyncPrefixComplete(src, w, today, backfill, n - 1);
      assert asked[..n][..n - 1] == asked[..n - 1];
      var before := w.(store := AbsorbAll(src, w.store, w.feed, today, asked[..n - 1]));
      var upTo := if n == 1 then Bound(w.store) else Max(Bound(w.store), today);
      assert forall k | k in w.store :: HISTORY_START <= k.day;
      AskedReaches(w.store, today, backfill, n - 1);
      AbsorbComplete(src, before, upTo, today, asked[n - 1]);
    }
  }

  lemma PublishComplete(src: Source, w: World, day: int, quotes: seq<Quote>)
    requires Complete(src, w, Bound(w.store)) && NewerThanAll(w.feed, day)
    ensures Complete(src, Step(src, w, Publish(day, quotes)), Bound(w.store))
  {
    hide DayRows, Lookup;
    var after := Step(src, w, Publish(day, quotes));
    forall k: Key | k.day <= Bound(w.store) && HISTORY_START <= k.day
      ensures Published(src, after.feed, k.quote, k.day) == Published(src, w.feed, k.quote, k.day)
    {
      var top :| top in w.store && top.day == Bound(w.store);
      assert top.day in w.feed;
    }
  }

  lemma StepComplete(src: Source, w: World, e: Event)
    requires Complete(src, w, Bound(w.store))
    requires !e.Replace? && (e.Publish? ==> NewerThanAll(w.feed, e.day))
    ensures Complete(src, Step(src, w, e), Bound(Step(src, w, e).store))
  {
    match e
    case Publish(day, quotes) => PublishComplete(src, w, day, quotes);
    case Sync(today, backfill, done) =>
      var n := Min(done, |Asked(w.store, today, backfill)|);
      SyncPrefixComplete(src, w, today, backfill, n);
      CompleteTight(src, Step(src, w, e), if n == 0 then Bound(w.store) else Max(Bound(w.store), today));
  }

  /** Sync completeness: every store a run can reach holds all and only what was published up to its latest day. */
  lemma {:induction false} RunComplete(src: Source, w: World, es: seq<Event>)
    requires InOrder(src, w, es) && Complete(src, w, Bound(w.store))
    ensures Complete(src, Run(src, w, es), Bound(Run(src, w, es).store))
  {
    if es != [] {
      RunComplete(src, w, es[..|es| - 1]);
      StepComplete(src, Run(src, w, es[..|es| - 1]), es[|es| - 1]);
    }
  }

  lemma StartComplete(src: Source)
    ensures Complete(src, Start, Bound(Start.store))
  {
  }

  lemma SyncedComplete(src: Source, w: World, today: int, backfill: bool)
    requires Complete(src, w, Bound(w.store))
    ensures Complete(src, w.(store := Synced(src, w.store, w.feed, today, backfill)), Max(Bound(w.store), today))
  {
    var asked := Asked(w.store, today, backfill);
    SyncPrefixComplete(src, w, today, backfill, |asked|);
    assert asked[..|asked|] == asked;
  }

  /** A sync that is answered throughout leaves nothing published up to today unstored. */
  lemma SyncCatchesUp(src: Source, es: seq<Event>, today: int, backfill: bool)
    requires InOrder(src, Start, es)
    ensures var w := Run(src, Start, es);
      Complete(src, w.(store := Synced(src, w.store, w.feed, today, backfill)), Max(Bound(w.store), today))
  {
    StartComplete(src);
    RunComplete(src, Start, es);
    SyncedComplete(src, Run(src, Start, es), today, backfill);
  }

  lemma OneRangeSuffices(src: Source, w: World, today: int, backfill: bool)
    requires Complete(src, w, Bound(w.store))
    ensures Synced(src, w.store, w.feed, today, backfill)
      == Absorb(src, w.store, w.feed, today, Span(Bound(w.store) + 1, today))
  {
    var main := w.(store := Absorb(src, w.store, w.feed, today, Span(Bound(w.store) + 1, today)));
    var full := w.(store := Synced(src, w.store, w.feed, today, backfill));
    assert HISTORY_START - 1 <= Bound(w.store) by {
      assert forall k | k in w.store :: HISTORY_START <= k.day;
    }
    SyncedComplete(src, w, today, backfill);
    AbsorbComplete(src, w, Bound(w.store), today, Span(Bound(w.store) + 1, today));
    SameComplete(src, main, full, Max(Bound(w.store), today));
  }

  /** For such a provider the weekly refresh and the backfill never add a row: one range does all the work. */
  lemma RefreshAddsNothing(src: Source, es: seq<Event>, today: int, backfill: bool)
    requires InOrder(src, Start, es)
    ensures var w := Run(src, Start, es);
      Synced(src, w.store, w.feed, today, backfill)
        == Absorb(src, w.store, w.feed, today, Span(Bound(w.store) + 1, today))
  {
    hide Run, InOrder, Synced, Absorb, Bound, Published;
    StartComplete(src);
    RunComplete(src, Start, es);
    OneRangeSuffices(src, Run(src, Start, es), today, backfill);
  }

  /** Completeness to a day determines the store. */
  lemma SameComplete(src: Source, v: World, w: World, upTo: int)
    requires v.feed == w.feed && Complete(src, v, upTo) && Complete(src, w, upTo)
    ensures v.store == w.store
  {
    forall k: Key
      ensures k in v.store <==> k in w.store
      ensures k in v.store ==> v.store[k] == w.store[k]
    {
    }
  }

  // ----- nothing old changes -----

  /** The two stores agree on every key up to a day. */
  ghost predicate AgreeUpTo(a: Store, b: Store, day: int) {
    forall k: Key {:trigger k in a} {:trigger k in b} | k.day <= day :: (k in a <==> k in b) && (k in a ==> a[k] == b[k])
  }

  lemma StepFreezes(src: Source, w: World, e: Event)
    requires Complete(src, w, Bound(w.store))
    ensures AgreeUpTo(w.store, Step(src, w, e).store, Bound(w.store))
    ensures Bound(w.store) <= Bound(Step(src, w, e).store)
  {
    if e.Sync? {
      var asked := Asked(w.store, e.today, e.backfill);
      forall k: Key
        ensures k in w.store ==> k in Step(src, w, e).store && Step(src, w, e).store[k] == w.store[k]
        ensures k in Step(src, w, e).store && k !in w.store ==> Bound(w.store) < k.day
      {
        AbsorbAllKey(src, w.store, w.feed, e.today, asked[..Min(e.done, |asked|)], k);
      }
      assert forall k | k in Step(src, w, e).store :: HISTORY_START - 1 <= k.day || k in w.store;
    }
  }

  /** In every continuation of a run, the rates up to the latest stored day are final. */
  lemma {:induction false} OldRatesFinal(src: Source, w: World, es: seq<Event>)
    requires InOrder(src, w, es) && Complete(src, w, Bound(w.store))
    ensures AgreeUpTo(w.store, Run(src, w, es).store, Bound(w.store))
    ensures Bound(w.store) <= Bound(Run(src, w, es).store)
  {
    if es != [] {
      var init := es[..|es| - 1];
      OldRatesFinal(src, w, init);
      RunComplete(src, w, init);
      StepFreezes(src, Run(src, w, init), es[|es| - 1]);
    }
  }

  // ----- every run of every provider -----

  /** A sync persists a range that holds the key's day while the provider lists the key. */
  predicate Gains(src: Source, w: World, e: Event, k: Key) {
    && e.Sync?
    && HISTORY_START <= k.day <= e.today
    && Covers(Asked(w.store, e.today, e.backfill)[..Min(e.done, |Asked(w.store, e.today, e.backfill)|)], k.day)
    && Published(src, w.feed, k.quote, k.day).Some?
  }

  lemma StepKey(src: Source, w: World, e: Event, k: Key)
    ensures var after := Step(src, w, e).store;
      && (k in after <==> k in w.store || Gains(src, w, e, k))
      && (k in w.store ==> after[k] == w.store[k])
      && (k !in w.store && k in after ==> after[k] == Stored(Published(src, w.feed, k.quote, k.day).value))
  {
    hide Asked, AbsorbAll, Published, Covers;
    if e.Sync? {
      var asked := Asked(w.store, e.today, e.backfill);
      AbsorbAllKey(src, w.store, w.feed, e.today, asked[..Min(e.done, |asked|)], k);
    }
  }

  /** Some sync of the run gained the key. */
  predicate Gained(src: Source, w: World, es: seq<Event>, k: Key) {
    exists i :: 0 <= i < |es| && Gains(src, Run(src, w, es[..i]), es[i], k)
  }

  lemma GainedNext(src: Source, w: World, es: seq<Event>, e: Event, k: Key)
    ensures Gained(src, w, es + [e], k) <==> Gained(src, w, es, k) || Gains(src, Run(src, w, es), e, k)
  {
    hide Run, Gains;
    var all := es + [e];
    assert all[..|es|] == es && all[|es|] == e;
    assert forall i | 0 <= i < |es| :: all[i] == es[i] && all[..i] == es[..i];
  }

  /**
   * First write wins in every run, corrections included: a key is stored exactly when it was before
   * or some sync gained it, and what is stored never changes, whatever the provider lists later.
   */
  lemma {:induction false} RunKey(src: Source, w: World, es: seq<Event>, k: Key)
    ensures k in Run(src, w, es).store <==>
      k in w.store || exists i :: 0 <= i < |es| && Gains(src, Run(src, w, es[..i]), es[i], k)
    ensures k in w.store ==> Run(src, w, es).store[k] == w.store[k]
  {
    hide Step, Gains;
    if es != [] {
      var (init, e) := (es[..|es| - 1], es[|es| - 1]);
      RunKey(src, w, init, k);
      StepKey(src, Run(src, w, init), e, k);
      assert es == init + [e];
      GainedNext(src, w, init, e, k);
    }
  }

  /** The rate kept is the one listed at the sync that gained the key first. */
  lemma {:induction false} FirstGainStays(src: Source, w: World, es: seq<Event>, i: nat, k: Key)
    requires i < |es| && k !in Run(src, w, es[..i]).store && Gains(src, Run(src, w, es[..i]), es[i], k)
    ensures k in Run(src, w, es).store
    ensures Published(src, Run(src, w, es[..i]).feed, k.quote, k.day).Some?
    ensures Run(src, w, es).store[k] == Stored(Published(src, Run(src, w, es[..i]).feed, k.quote, k.day).value)
  {
    hide Step, Stored, Published, Asked, Covers;
    var last := |es| - 1;
    var init := es[..last];
    StepKey(src, Run(src, w, init), es[last], k);
    if i < last {
      assert init[..i] == es[..i] && init[i] == es[i];
      FirstGainStays(src, w, init, i, k);
    }
  }

  // ----- late rows -----

  /** The day lies between the earliest and the latest stored one. */
  predicate Inside(s: Store, day: int) {
    s != map[] && Earliest(s).value <= day <= Latest(s).value
  }

  /** A sync that is answered throughout on the day itself or in the week after it. */
  predicate Refreshes(s: Store, e: Event, day: int) {
    e.Sync? && |Asked(s, e.today, e.backfill)| <= e.done && e.today - REFRESH_DAYS <= day <= e.today
  }

  /** Such a sync while the provider lists the key. */
  predicate Fills(src: Source, w: World, e: Event, k: Key) {
    Refreshes(w.store, e, k.day) && HISTORY_START <= k.day && Published(src, w.feed, k.quote, k.day).Some?
  }

  /** Only the refresh looks inside the stored history. */
  lemma GapGains(src: Source, w: World, e: Event, k: Key)
    requires Inside(w.store, k.day)
    ensures Gains(src, w, e, k) <==> Fills(src, w, e, k)
  {
    hide Published;
    if e.Sync? {
      var (plan, recent) := (Plan(Latest(w.store), Earliest(w.store), e.today, e.backfill), Span(e.today - REFRESH_DAYS, e.today));
      var asked := plan + [recent];
      var some := asked[..Min(e.done, |asked|)];
      assert asked == Asked(w.store, e.today, e.backfill);
      assert forall r | r in plan :: !Holds(r, k.day);
      if e.done < |asked| {
        assert forall r | r in some :: r in plan;
      } else {
        assert some == asked && asked[|plan|] == recent;
        assert forall r | r in asked :: r in plan || r == recent;
        assert Covers(asked, k.day) <==> Holds(recent, k.day);
      }
    }
  }

  lemma InsideStays(src: Source, w: World, e: Event, day: int)
    requires Inside(w.store, day)
    ensures Inside(Step(src, w, e).store, day)
  {
    hide Step, Gains;
    var after := Step(src, w, e).store;
    forall k | k in w.store ensures k in after { StepKey(src, w, e, k); }
    var lo :| lo in w.store && lo.day == Earliest(w.store).value;
    var hi :| hi in w.store && hi.day == Latest(w.store).value;
    assert lo in after && hi in after;
  }

  lemma {:induction false} RunInside(src: Source, w: World, es: seq<Event>, day: int)
    requires Inside(w.store, day)
    ensures Inside(Run(src, w, es).store, day)
  {
    hide Step, Inside;
    if es != [] {
      RunInside(src, w, es[..|es| - 1], day);
      InsideStays(src, Run(src, w, es[..|es| - 1]), es[|es| - 1], day);
    }
  }

  /**
   * When a gap is filled, in every run of every provider: a key missing inside the stored history is
   * stored later exactly when some sync is answered throughout on its day or in the week after it,
   * while the provider lists it. Backfill makes no difference.
   */
  lemma GapFilledWhen(src: Source, w: World, es: seq<Event>, k: Key)
    requires Inside(w.store, k.day) && k !in w.store
    ensures k in Run(src, w, es).store <==>
      exists i :: 0 <= i < |es| && Fills(src, Run(src, w, es[..i]), es[i], k)
  {
    hide Inside, Gains, Fills, Run;
    RunKey(src, w, es, k);
    forall i | 0 <= i < |es|
      ensures Gains(src, Run(src, w, es[..i]), es[i], k) <==> Fills(src, Run(src, w, es[..i]), es[i], k)
    {
      RunInside(src, w, es[..i], k.day);
      GapGains(src, Run(src, w, es[..i]), es[i], k);
    }
  }

  /**
   * So a key between the earliest and the latest stored day that is missing when it is older than
   * the refresh window of every later sync is never stored again, backfill or not.
   */
  lemma GapPermanent(src: Source, w: World, es: seq<Event>, k: Key)
    requires w.store != map[] && Earliest(w.store).value <= k.day <= Latest(w.store).value && k !in w.store
    requires forall e | e in es && e.Sync? :: k.day < e.today - REFRESH_DAYS
    ensures var s := Run(src, w, es).store;
      k !in s && s != map[] && Earliest(s).value <= k.day <= Latest(s).value
  {
    hide Run, Published, Asked;
    RunInside(src, w, es, k.day);
    GapFilledWhen(src, w, es, k);
    assert forall i | 0 <= i < |es| :: es[i] in es;
  }

  lemma MoreQuotes(src: Source, day: int, a: seq<Quote>, b: seq<Quote>, quote: string)
    requires Lists(DayRows(src, day, a), quote, day)
    ensures Lists(DayRows(src, day, a + b), quote, day)
  {
    UsableConcat(src, day, a, b);
    var (before, after) := (UsableRows(src, day, a), UsableRows(src, day, a + b));
    assert forall r | r in before :: r in after;
    var r :| r in DayRows(src, day, a) && r.quote == quote && r.day == day;
    if r !in before {
      assert r == Row(BaseOf(src), 1.0, day);
      if !Lists(after, BaseOf(src), day) {
        assert DayRows(src, day, a + b) == after + [r];
        assert (after + [r])[|after|] == r;
      } else {
        assert forall s | s in after :: s in DayRows(src, day, a + b);
      }
    }
  }

  /** What is listed stays listed as long as nothing is replaced. */
  lemma StaysListed(src: Source, w: World, e: Event, quote: string, day: int)
    requires !e.Replace? && Published(src, w.feed, quote, day).Some?
    ensures Published(src, Step(src, w, e).feed, quote, day).Some?
  {
    hide DayRows, AbsorbAll, Asked;
    if e.Publish? && e.day == day { MoreQuotes(src, day, w.feed[day], e.quotes, quote); }
  }

  lemma {:induction false} RunStaysListed(src: Source, w: World, es: seq<Event>, quote: string, day: int)
    requires Published(src, w.feed, quote, day).Some? && forall e | e in es :: !e.Replace?
    ensures Published(src, Run(src, w, es).feed, quote, day).Some?
  {
    hide Step, Published;
    if es != [] {
      assert es[|es| - 1] in es && forall e | e in es[..|es| - 1] :: e in es;
      RunStaysListed(src, w, es[..|es| - 1], quote, day);
      StaysListed(src, Run(src, w, es[..|es| - 1]), es[|es| - 1], quote, day);
    }
  }

  lemma LateIsMissing(src: Source, es: seq<Event>, k: Key)
    requires InOrder(src, Start, es) && k.day !in Run(src, Start, es).feed
    ensures k !in Run(src, Start, es).store
  {
    hide Run, InOrder;
    StartComplete(src);
    RunComplete(src, Start, es);
    assert Published(src, Run(src, Start, es).feed, k.quote, k.day) == None;
  }

  /**
   * A day published late, inside the stored history: a rate it lists is stored exactly when some
   * later sync is answered throughout on that day or in the week after it.
   */
  lemma LateDayStoredWhen(src: Source, es: seq<Event>, day: int, quotes: seq<Quote>, later: seq<Event>, quote: string)
    requires InOrder(src, Start, es) && forall e | e in later :: !e.Replace?
    requires Inside(Run(src, Start, es).store, day) && day !in Run(src, Start, es).feed
    requires Published(src, Step(src, Run(src, Start, es), Publish(day, quotes)).feed, quote, day).Some?
    ensures var v := Step(src, Run(src, Start, es), Publish(day, quotes));
      Key(quote, day) in Run(src, v, later).store <==>
        exists i :: 0 <= i < |later| && Refreshes(Run(src, v, later[..i]).store, later[i], day)
  {
    hide Run, Published, Refreshes, InOrder, Inside;
    var w := Run(src, Start, es);
    var v := Step(src, w, Publish(day, quotes));
    var k := Key(quote, day);
    LateIsMissing(src, es, k);
    GapFilledWhen(src, v, later, k);
    InsideHistory(src, es, day);
    forall i | 0 <= i < |later|
      ensures Fills(src, Run(src, v, later[..i]), later[i], k) <==> Refreshes(Run(src, v, later[..i]).store, later[i], day)
    {
      RunStaysListed(src, v, later[..i], quote, day);
    }
  }

  lemma InsideHistory(src: Source, es: seq<Event>, day: int)
    requires InOrder(src, Start, es) && Inside(Run(src, Start, es).store, day)
    ensures HISTORY_START <= day
  {
    hide Run, InOrder, Published;
    StartComplete(src);
    RunComplete(src, Start, es);
    var s := Run(src, Start, es).store;
    var lo :| lo in s && lo.day == Earliest(s).value;
  }

  /** So such a day is lost, though the provider lists it, once every later sync comes more than a week after it. */
  lemma LateDayLost(src: Source, es: seq<Event>, day: int, quotes: seq<Quote>, later: seq<Event>, quote: string)
    requires InOrder(src, Start, es)
    requires var w := Run(src, Start, es);
      w.store != map[] && Earliest(w.store).value <= day <= Latest(w.store).value && day !in w.feed
    requires forall e | e in later && e.Sync? :: day < e.today - REFRESH_DAYS
    ensures var v := Step(src, Run(src, Start, es), Publish(day, quotes));
      && Key(quote, day) !in Run(src, v, later).store
      && (Published(src, v.feed, quote, day).Some? && (forall e | e in later :: !e.Replace?)
          ==> Published(src, Run(src, v, later).feed, quote, day).Some?)
  {
    hide Run, Published, InOrder;
    var v := Step(src, Run(src, Start, es), Publish(day, quotes));
    LateIsMissing(src, es, Key(quote, day));
    GapPermanent(src, v, later, Key(quote, day));
    if Published(src, v.feed, quote, day).Some? && forall e | e in later :: !e.Replace? {
      RunStaysListed(src, v, later, quote, day);
    }
  }

  lemma RunNext(src: Source, w: World, es: seq<Event>, e: Event)
    ensures Run(src, w, es + [e]) == Step(src, Run(src, w, es), e)
    ensures Run(src, w, []) == w
  {
    assert (es + [e])[..|es|] == es;
  }

  /** A first sync of two published days stores both ends. */
  lemma TwoDaysStored(src: Source, w: World, today: int, k: Key)
    requires w.store == map[] && HISTORY_START <= k.day <= today && Published(src, w.feed, k.quote, k.day).Some?
    ensures k in Step(src, w, Sync(today, false, 2)).store
  {
    hide Published;
    var asked := Asked(w.store, today, false);
    assert asked[0] == Span(HISTORY_START, today) && |asked| == 2;
    assert asked[..2] == asked;
    assert Holds(asked[0], k.day);
    StepKey(src, w, Sync(today, false, 2), k);
  }

  /**
   * A lost rate: 1 and 3 January are published and synced, then 2 January appears. Nineteen days
   * later a sync that is answered throughout, backfill included, still does not store it.
   */
  lemma LostRate()
    ensures var (first, usd) := (HISTORY_START, [Quote("USD", 4.0)]);
      var w := Run(Nbp, Start, [] + [Publish(first, usd)] + [Publish(first + 2, usd)] + [Sync(first + 2, false, 2)]);
      var v := Run(Nbp, w, [] + [Publish(first + 1, usd)] + [Sync(first + 20, true, 9)]);
      && Published(Nbp, v.feed, "USD", first + 1) == Some(0.25) && Key("USD", first + 1) !in v.store
      && Key("USD", first) in v.store && Key("USD", first + 2) in v.store
  {
    hide Run, Asked, AbsorbAll, DayRows, Lookup, Published, HISTORY_START;
    var (first, usd) := (HISTORY_START, [Quote("USD", 4.0)]);
    var (e1, e2, e3) := (Publish(first, usd), Publish(first + 2, usd), Sync(first + 2, false, 2));
    RunNext(Nbp, Start, [], e1);
    RunNext(Nbp, Start, [] + [e1], e2);
    RunNext(Nbp, Start, [] + [e1] + [e2], e3);
    var listed := Run(Nbp, Start, [] + [e1] + [e2]);
    var w := Step(Nbp, listed, e3);
    assert Upper("USD") == "USD";
    PublishedFirst(Nbp, listed.feed, "USD", first, 0);
    PublishedFirst(Nbp, listed.feed, "USD", first + 2, 0);
    TwoDaysStored(Nbp, listed, first + 2, Key("USD", first));
    TwoDaysStored(Nbp, listed, first + 2, Key("USD", first + 2));
    StepKey(Nbp, listed, e3, Key("USD", first + 1));
    assert Published(Nbp, listed.feed, "USD", first + 1) == None by { NotListed(Nbp, listed.feed, "USD", first + 1); }

    var (e4, e5) := (Publish(first + 1, usd), Sync(first + 20, true, 9));
    RunNext(Nbp, w, [], e4);
    RunNext(Nbp, w, [] + [e4], e5);
    var later := [] + [e4] + [e5];
    assert later == [e4, e5];
    GapPermanent(Nbp, w, later, Key("USD", first + 1));
    RunKey(Nbp, w, later, Key("USD", first));
    RunKey(Nbp, w, later, Key("USD", first + 2));
    PublishedFirst(Nbp, Run(Nbp, w, later).feed, "USD", first + 1, 0);
  }

  lemma NotListed(src: Source, feed: Feed, quote: string, day: int)
    requires day !in feed
    ensures Published(src, feed, quote, day) == None
  {
  }
}
