/**
 * Fetching a provider's history (fx-fetch.ts). What the provider has published is a feed: for
 * each published day, the quotes of that day in the order they are listed. A request may fail;
 * `faults` names the failing requests by number.
 */
module FxFetch {
  import opened Prelude
  import opened Calendar

  /** A listed quote: an NBP code with its mid rate, or a Frankfurter quote with its rate. */
  datatype Quote = Quote(code: string, value: real)

  type Feed = map<int, seq<Quote>>

  /** How a table is fetched: NBP Table A, or Frankfurter for a base currency. */
  datatype Source = Nbp | Frankfurter(base: string)

  /** A fetched rate: units of `quote` per unit of the base currency, on a day. */
  datatype Row = Row(quote: string, rate: real, day: int)

  datatype Chunk = Chunk(from: string, to: string)

  const NBP_CHUNK_DAYS := 90
  const FRANK_CHUNK_DAYS := 366

  function BaseOf(src: Source): string {
    match src
    case Nbp => "PLN"
    case Frankfurter(base) => Upper(base)
  }

  // ----- date chunks -----

  /** The days of a chunk, first and last. */
  datatype Span = Span(lo: int, hi: int)

  /** The chunks from day lo to day hi. */
  function Spans(lo: int, hi: int, n: int): seq<Span>
    requires 1 <= n
    decreases hi - lo
  {
    if hi < lo then [] else [Span(lo, Min(lo + n - 1, hi))] + Spans(Min(lo + n, hi + 1), hi, n)
  }

  predicate NamesSpan(c: Chunk, s: Span) {
    IsIso(c.from) && IsIso(c.to) && IsoDay(c.from) == s.lo && IsoDay(c.to) == s.hi
  }

  predicate NamesSpans(chunks: seq<Chunk>, spans: seq<Span>) {
    |chunks| == |spans| && forall i | 0 <= i < |chunks| :: NamesSpan(chunks[i], spans[i])
  }

  /** One step of dateChunks: the chunk that starts at the cursor, and the next cursor. */
  method ChunkAt(cursor: string, to: string, chunkDays: int) returns (chunk: Chunk, next: string)
    requires IsIso(cursor) && IsIso(to) && 1 <= chunkDays
    requires FIRST_DAY <= IsoDay(cursor) <= IsoDay(to) && IsoDay(to) + chunkDays <= LAST_DAY
    ensures NamesSpan(chunk, Span(IsoDay(cursor), Min(IsoDay(cursor) + chunkDays - 1, IsoDay(to))))
    ensures IsIso(next) && IsoDay(next) == Min(IsoDay(cursor) + chunkDays, IsoDay(to) + 1)
    ensures LexLess(to, next) <==> IsoDay(to) < IsoDay(next)
  {
    hide IsIso, IsoDay, LexLess, MinIso, FIRST_DAY, LAST_DAY;
    MinMaxIso(AddDays(cursor, chunkDays - 1), to);
    var end := MinIso(AddDays(cursor, chunkDays - 1), to);
    next := AddDays(end, 1);
    IsoTextOrder(to, next);
    chunk := Chunk(cursor, end);
  }

  lemma ProgressStart(lo: int, hi: int, n: int)
    requires 1 <= n
    ensures Progress([], lo, lo, hi, n)
  {
    assert NamesSpans([], []) && [] + Spans(lo, hi, n) == Spans(lo, hi, n);
  }

  lemma ProgressEnd(chunks: seq<Chunk>, lo: int, at: int, hi: int, n: int)
    requires 1 <= n && hi < at && Progress(chunks, lo, at, hi, n)
    ensures NamesSpans(chunks, Spans(lo, hi, n))
  {
    var spans :| NamesSpans(chunks, spans) && spans + Spans(at, hi, n) == Spans(lo, hi, n);
    assert spans + [] == spans;
  }

  ghost predicate Progress(chunks: seq<Chunk>, lo: int, at: int, hi: int, n: int)
    requires 1 <= n
  {
    exists spans :: NamesSpans(chunks, spans) && spans + Spans(at, hi, n) == Spans(lo, hi, n)
  }

  lemma ProgressStep(chunks: seq<Chunk>, chunk: Chunk, lo: int, at: int, hi: int, n: int)
    requires 1 <= n && at <= hi && Progress(chunks, lo, at, hi, n)
    requires NamesSpan(chunk, Span(at, Min(at + n - 1, hi)))
    ensures Progress(chunks + [chunk], lo, Min(at + n, hi + 1), hi, n)
  {
    hide IsIso, IsoDay, NamesSpan;
    var span := Span(at, Min(at + n - 1, hi));
    var rest := Spans(Min(at + n, hi + 1), hi, n);
    var spans :| NamesSpans(chunks, spans) && spans + Spans(at, hi, n) == Spans(lo, hi, n);
    assert NamesSpans(chunks + [chunk], spans + [span]);
    assert (spans + [span]) + rest == spans + Spans(at, hi, n);
  }

  /** dateChunks: the cursor runs over ISO strings and is compared as text. */
  method DateChunks(from: string, to: string, chunkDays: int) returns (chunks: seq<Chunk>)
    requires IsIso(from) && IsIso(to) && 1 <= chunkDays
    requires IsoDay(to) + chunkDays <= LAST_DAY
    ensures NamesSpans(chunks, Spans(IsoDay(from), IsoDay(to), chunkDays))
  {
    hide IsIso, IsoDay, LexLess, Progress, NamesSpan, NamesSpans, Spans;
    IsoBounds(from);
    chunks := [];
    var cursor := from;
    ghost var (lo, hi) := (IsoDay(from), IsoDay(to));
    IsoTextOrder(to, cursor);
    ProgressStart(lo, hi, chunkDays);
    while !LexLess(to, cursor)
      invariant IsIso(cursor) && FIRST_DAY <= lo <= IsoDay(cursor)
      invariant LexLess(to, cursor) <==> hi < IsoDay(cursor)
      invariant Progress(chunks, lo, IsoDay(cursor), hi, chunkDays)
      decreases hi - IsoDay(cursor)
    {
      var chunk, next := ChunkAt(cursor, to, chunkDays);
      ProgressStep(chunks, chunk, lo, IsoDay(cursor), hi, chunkDays);
      chunks := chunks + [chunk];
      cursor := next;
    }
    ProgressEnd(chunks, lo, IsoDay(cursor), hi, chunkDays);
  }

  /** Taking the first of the remaining chunks. */
  lemma SpansStep(spans: seq<Span>, i: nat, at: int, hi: int, n: int)
    requires 1 <= n && i < |spans| && spans[i..] == Spans(at, hi, n)
    ensures at <= hi && spans[i].lo == at <= spans[i].hi <= hi
    ensures spans[i + 1..] == Spans(spans[i].hi + 1, hi, n)
  {
    assert spans[i] == spans[i..][0] && spans[i + 1..] == spans[i..][1..];
  }

  /** A range of n-day chunks takes the number of days over n, rounded up. */
  lemma {:induction false} SpansCount(lo: int, hi: int, n: int)
    requires 1 <= n
    ensures hi < lo ==> Spans(lo, hi, n) == []
    ensures lo <= hi ==> n * (|Spans(lo, hi, n)| - 1) < hi - lo + 1 <= n * |Spans(lo, hi, n)|
    decreases hi - lo
  {
    if lo <= hi { SpansCount(Min(lo + n, hi + 1), hi, n); }
  }

  lemma SpansDone(at: int, hi: int, n: int)
    requires 1 <= n && Spans(at, hi, n) == []
    ensures hi < at
  {
  }

  predicate Holds(s: Span, day: int) {
    s.lo <= day <= s.hi
  }

  /** Chunks are non-empty, at most n days long, in order and inside the range. */
  lemma {:induction false} SpansOrdered(lo: int, hi: int, n: int, i: int)
    requires 1 <= n && 0 <= i < |Spans(lo, hi, n)|
    ensures var s := Spans(lo, hi, n);
      && lo <= s[i].lo <= s[i].hi <= hi && s[i].hi < s[i].lo + n
      && (i + 1 < |s| ==> s[i + 1].lo == s[i].hi + 1 == s[i].lo + n)
      && (forall j | i < j < |s| :: s[i].hi < s[j].lo)
    decreases hi - lo
  {
    var next := Min(lo + n, hi + 1);
    var rest := Spans(next, hi, n);
    if 0 < i {
      SpansOrdered(next, hi, n, i - 1);
    } else {
      var s := Spans(lo, hi, n);
      forall j | 0 <= j < |rest|
        ensures next <= rest[j].lo
      {
        SpansOrdered(next, hi, n, j);
      }
      assert forall j | 0 < j < |s| :: s[j] == rest[j - 1];
    }
  }

  lemma {:induction false} SpansReach(lo: int, hi: int, n: int, day: int)
    requires 1 <= n && lo <= day <= hi
    ensures exists i :: 0 <= i < |Spans(lo, hi, n)| && Holds(Spans(lo, hi, n)[i], day)
    decreases hi - lo
  {
    var next := Min(lo + n, hi + 1);
    if next <= day {
      SpansReach(next, hi, n, day);
      var i :| 0 <= i < |Spans(next, hi, n)| && Holds(Spans(next, hi, n)[i], day);
      assert Holds(Spans(lo, hi, n)[i + 1], day);
    } else {
      assert Holds(Spans(lo, hi, n)[0], day);
    }
  }

  /** Every day of the range lies in exactly one chunk, and no chunk holds any other day. */
  lemma SpansPartition(lo: int, hi: int, n: int, day: int)
    requires 1 <= n
    ensures var s := Spans(lo, hi, n);
      && (lo <= day <= hi <==> exists i :: 0 <= i < |s| && Holds(s[i], day))
      && (forall i, j :: 0 <= i < |s| && 0 <= j < |s| && Holds(s[i], day) && Holds(s[j], day) ==> i == j)
  {
    var s := Spans(lo, hi, n);
    if lo <= day <= hi { SpansReach(lo, hi, n, day); }
    forall i | 0 <= i < |s|
      ensures lo <= s[i].lo <= s[i].hi <= hi && forall j | i < j < |s| :: s[i].hi < s[j].lo
    {
      SpansOrdered(lo, hi, n, i);
    }
  }

  // ----- what a day and a range publish -----

  predicate Usable(q: Quote) {
    q.code != [] && q.value > 0.0
  }

  /** NBP lists base units per quote unit and is inverted; Frankfurter rates are taken as they are. */
  function ToRow(src: Source, day: int, q: Quote): Row
    requires Usable(q)
  {
    Row(Upper(q.code), if src.Nbp? then 1.0 / q.value else q.value, day)
  }

  function UsableRows(src: Source, day: int, qs: seq<Quote>): (rows: seq<Row>)
    ensures forall r | r in rows :: r.day == day
  {
    if qs == [] then []
    else
      var q := qs[|qs| - 1];
      UsableRows(src, day, qs[..|qs| - 1]) + if Usable(q) then [ToRow(src, day, q)] else []
  }

  lemma {:induction false} UsableConcat(src: Source, day: int, a: seq<Quote>, b: seq<Quote>)
    ensures UsableRows(src, day, a + b) == UsableRows(src, day, a) + UsableRows(src, day, b)
  {
    hide Usable, ToRow;
    if b == [] {
      assert a + b == a;
    } else {
      var init := b[..|b| - 1];
      assert (a + b)[..|a + b| - 1] == a + init;
      UsableConcat(src, day, a, init);
      Assoc(UsableRows(src, day, a), UsableRows(src, day, init), if Usable(b[|b| - 1]) then [ToRow(src, day, b[|b| - 1])] else []);
    }
  }

  predicate Lists(rows: seq<Row>, quote: string, day: int) {
    exists r :: r in rows && r.quote == quote && r.day == day
  }

  /** NBP always adds the base itself; Frankfurter adds it to a non-empty day that lacks it. */
  function DayRows(src: Source, day: int, qs: seq<Quote>): (rows: seq<Row>)
    ensures forall r | r in rows :: r.day == day
  {
    var listed := UsableRows(src, day, qs);
    if src.Nbp? || (listed != [] && !Lists(listed, BaseOf(src), day)) then listed + [Row(BaseOf(src), 1.0, day)]
    else listed
  }

  function ListedRange(src: Source, feed: Feed, lo: int, hi: int): (rows: seq<Row>)
    ensures forall r | r in rows :: lo <= r.day <= hi
    decreases hi - lo
  {
    if hi < lo then []
    else ListedRange(src, feed, lo, hi - 1) + if hi in feed then UsableRows(src, hi, feed[hi]) else []
  }

  function RangeRows(src: Source, feed: Feed, lo: int, hi: int): (rows: seq<Row>)
    ensures forall r | r in rows :: lo <= r.day <= hi
    decreases hi - lo
  {
    if hi < lo then []
    else RangeRows(src, feed, lo, hi - 1) + if hi in feed then DayRows(src, hi, feed[hi]) else []
  }

  lemma EmptyRange(src: Source, feed: Feed, lo: int, hi: int)
    requires hi < lo
    ensures RangeRows(src, feed, lo, hi) == [] && ListedRange(src, feed, lo, hi) == []
  {
  }

  /** The first row for a quote and day: the one that a "skip duplicates" insert keeps. */
  function Lookup(rows: seq<Row>, quote: string, day: int): (r: Option<real>)
    ensures r.Some? <==> Lists(rows, quote, day)
    ensures r.Some? ==> Row(quote, r.value, day) in rows
  {
    if rows == [] then None
    else if rows[0].quote == quote && rows[0].day == day then Some(rows[0].rate)
    else
      var r := Lookup(rows[1..], quote, day);
      assert r.Some? ==> Row(quote, r.value, day) in rows;
      r
  }

  lemma {:induction false} LookupConcat(a: seq<Row>, b: seq<Row>, quote: string, day: int)
    ensures Lookup(a + b, quote, day) == if Lists(a, quote, day) then Lookup(a, quote, day) else Lookup(b, quote, day)
  {
    if a == [] {
      assert a + b == b;
    } else {
      assert (a + b)[1..] == a[1..] + b;
      LookupConcat(a[1..], b, quote, day);
      assert Lists(a[1..], quote, day) ==> Lists(a, quote, day);
    }
  }

  /** What the provider has published for a quote on a day, if anything. */
  function Published(src: Source, feed: Feed, quote: string, day: int): Option<real> {
    if day in feed then Lookup(DayRows(src, day, feed[day]), quote, day) else None
  }

  predicate Matches(q: Quote, quote: string) {
    Usable(q) && Upper(q.code) == quote
  }

  lemma {:induction false} UsableLookup(src: Source, day: int, qs: seq<Quote>, quote: string, i: nat)
    requires i < |qs| ==> Matches(qs[i], quote)
    requires forall j | 0 <= j < i && j < |qs| :: !Matches(qs[j], quote)
    ensures Lookup(UsableRows(src, day, qs), quote, day)
      == if i < |qs| then Some(ToRow(src, day, qs[i]).rate) else None
  {
    if qs != [] {
      var (init, q) := (qs[..|qs| - 1], qs[|qs| - 1]);
      var row := if Usable(q) then [ToRow(src, day, q)] else [];
      UsableLookup(src, day, init, quote, if i < |qs| then i else |qs| - 1);
      LookupConcat(UsableRows(src, day, init), row, quote, day);
      assert Lists(UsableRows(src, day, init), quote, day) <==> Lookup(UsableRows(src, day, init), quote, day).Some?;
    }
  }

  lemma {:induction false} UsableListed(src: Source, day: int, qs: seq<Quote>)
    ensures UsableRows(src, day, qs) != [] <==> exists j :: 0 <= j < |qs| && Usable(qs[j])
  {
    if qs != [] {
      var init := qs[..|qs| - 1];
      UsableListed(src, day, init);
      if Usable(qs[|qs| - 1]) {
        assert UsableRows(src, day, qs) != [];
      } else if UsableRows(src, day, init) != [] {
        var j :| 0 <= j < |init| && Usable(init[j]);
        assert Usable(qs[j]);
      }
    }
  }

  /** On a published day the first usable listing of a quote counts; the base, when not listed, is 1. */
  lemma PublishedFirst(src: Source, feed: Feed, quote: string, day: int, i: nat)
    requires day in feed && (i < |feed[day]| ==> Matches(feed[day][i], quote))
    requires forall j | 0 <= j < i && j < |feed[day]| :: !Matches(feed[day][j], quote)
    ensures i < |feed[day]| ==>
      Published(src, feed, quote, day) == Some(if src.Nbp? then 1.0 / feed[day][i].value else feed[day][i].value)
    ensures i >= |feed[day]| && quote != BaseOf(src) ==> Published(src, feed, quote, day) == None
    ensures i >= |feed[day]| && quote == BaseOf(src) ==>
      Published(src, feed, quote, day)
        == (if src.Nbp? || (exists j :: 0 <= j < |feed[day]| && Usable(feed[day][j])) then Some(1.0) else None)
  {
    var listed := UsableRows(src, day, feed[day]);
    UsableListed(src, day, feed[day]);
    UsableLookup(src, day, feed[day], quote, i);
    LookupConcat(listed, [Row(BaseOf(src), 1.0, day)], quote, day);
    assert Lists(listed, quote, day) <==> Lookup(listed, quote, day).Some?;
  }

  /** A listing with a code and a positive value: the i-th of the day, for an upper-cased code. */
  predicate ListedAt(qs: seq<Quote>, quote: string, i: int) {
    0 <= i < |qs| && qs[i].code != [] && 0.0 < qs[i].value && Upper(qs[i].code) == quote
  }

  /**
   * Which listings count. On a published day a foreign quote has a rate exactly when some listing of
   * its upper-cased code has a positive value, and the rate is that of the first such listing: one
   * over the value from NBP, the value itself from Frankfurter.
   */
  lemma PositiveListingsCount(src: Source, feed: Feed, quote: string, day: int)
    requires day in feed && quote != (match src case Nbp => "PLN" case Frankfurter(base) => Upper(base))
    ensures var qs := feed[day];
      && (Published(src, feed, quote, day).Some? <==>
            exists i :: 0 <= i < |qs| && qs[i].code != [] && 0.0 < qs[i].value && Upper(qs[i].code) == quote)
      && (forall i | 0 <= i < |qs| && qs[i].code != [] && 0.0 < qs[i].value && Upper(qs[i].code) == quote
            && (forall j | 0 <= j < i :: !(qs[j].code != [] && 0.0 < qs[j].value && Upper(qs[j].code) == quote)) ::
            Published(src, feed, quote, day) == Some(if src == Nbp then 1.0 / qs[i].value else qs[i].value))
  {
    hide DayRows, Lookup, Published;
    var qs := feed[day];
    assert forall i :: ListedAt(qs, quote, i) <==>
      0 <= i < |qs| && qs[i].code != [] && 0.0 < qs[i].value && Upper(qs[i].code) == quote;
    forall i | ListedAt(qs, quote, i) && forall j | 0 <= j < i :: !ListedAt(qs, quote, j)
      ensures Published(src, feed, quote, day) == Some(if src == Nbp then 1.0 / qs[i].value else qs[i].value)
    {
      assert forall j | 0 <= j < i :: !ListedAt(qs, quote, j) ==> !Matches(qs[j], quote);
      PublishedFirst(src, feed, quote, day, i);
    }
    if exists i :: ListedAt(qs, quote, i) {
      var i := FirstListed(qs, quote);
    } else {
      assert forall j | 0 <= j < |qs| :: !ListedAt(qs, quote, j) ==> !Matches(qs[j], quote);
      PublishedFirst(src, feed, quote, day, |qs|);
    }
  }

  lemma FirstListed(qs: seq<Quote>, quote: string) returns (i: nat)
    requires exists j :: ListedAt(qs, quote, j)
    ensures ListedAt(qs, quote, i) && forall j | 0 <= j < i :: !ListedAt(qs, quote, j)
  {
    i := 0;
    while !ListedAt(qs, quote, i)
      invariant i < |qs| && forall j | 0 <= j < i :: !ListedAt(qs, quote, j)
      decreases |qs| - i
    {
      assert exists j :: i < j < |qs| && ListedAt(qs, quote, j);
      i := i + 1;
    }
  }

  /** The base currency counts 1 on a day NBP publishes, and on a day Frankfurter lists anything, unless it is listed itself. */
  lemma BaseCountsOne(src: Source, feed: Feed, day: int)
    requires day in feed
    ensures var base := match src case Nbp => "PLN" case Frankfurter(base) => Upper(base);
      (forall i :: !ListedAt(feed[day], base, i)) ==>
        Published(src, feed, base, day)
          == (if src == Nbp || (exists j :: 0 <= j < |feed[day]| && feed[day][j].code != [] && 0.0 < feed[day][j].value) then Some(1.0) else None)
  {
    hide DayRows, Lookup, Published;
    var (qs, base) := (feed[day], BaseOf(src));
    if forall i :: !ListedAt(qs, base, i) {
      assert forall j | 0 <= j < |qs| :: !ListedAt(qs, base, j) ==> !Matches(qs[j], base);
      assert forall j | 0 <= j < |qs| :: Usable(qs[j]) <==> qs[j].code != [] && 0.0 < qs[j].value;
      PublishedFirst(src, feed, base, day, |qs|);
    }
  }

  lemma {:induction false} LookupRange(src: Source, feed: Feed, lo: int, hi: int, quote: string, day: int)
    ensures Lookup(RangeRows(src, feed, lo, hi), quote, day)
      == if lo <= day <= hi then Published(src, feed, quote, day) else None
    decreases hi - lo
  {
    if lo <= hi {
      var before := RangeRows(src, feed, lo, hi - 1);
      var here := if hi in feed then DayRows(src, hi, feed[hi]) else [];
      LookupRange(src, feed, lo, hi - 1, quote, day);
      LookupConcat(before, here, quote, day);
    }
  }

  lemma {:induction false} RangeConcat(src: Source, feed: Feed, lo: int, mid: int, hi: int)
    requires lo - 1 <= mid <= hi
    ensures RangeRows(src, feed, lo, mid) + RangeRows(src, feed, mid + 1, hi) == RangeRows(src, feed, lo, hi)
    ensures ListedRange(src, feed, lo, mid) + ListedRange(src, feed, mid + 1, hi) == ListedRange(src, feed, lo, hi)
    decreases hi - mid
  {
    hide DayRows, UsableRows;
    if mid < hi {
      RangeConcat(src, feed, lo, mid, hi - 1);
      var here := if hi in feed then DayRows(src, hi, feed[hi]) else [];
      Assoc(RangeRows(src, feed, lo, mid), RangeRows(src, feed, mid + 1, hi - 1), here);
      var listed := if hi in feed then UsableRows(src, hi, feed[hi]) else [];
      Assoc(ListedRange(src, feed, lo, mid), ListedRange(src, feed, mid + 1, hi - 1), listed);
    }
  }

  // ----- the requests -----

  /** NBP's answer for a range: the published tables, oldest first (a 404 is the empty list). */
  function Tables(feed: Feed, lo: int, hi: int): (ts: seq<(int, seq<Quote>)>)
    decreases hi - lo
  {
    if hi < lo then [] else Tables(feed, lo, hi - 1) + if hi in feed then [(hi, feed[hi])] else []
  }

  function TableRows(ts: seq<(int, seq<Quote>)>): seq<Row> {
    if ts == [] then []
    else
      var t := ts[|ts| - 1];
      TableRows(ts[..|ts| - 1]) + DayRows(Nbp, t.0, t.1)
  }

  lemma {:induction false} TableRowsRange(feed: Feed, lo: int, hi: int)
    ensures TableRows(Tables(feed, lo, hi)) == RangeRows(Nbp, feed, lo, hi)
    decreases hi - lo
  {
    if lo <= hi {
      TableRowsRange(feed, lo, hi - 1);
      if hi in feed {
        var ts := Tables(feed, lo, hi);
        assert ts[..|ts| - 1] == Tables(feed, lo, hi - 1);
        assert ts[|ts| - 1] == (hi, feed[hi]);
      } else {
        assert Tables(feed, lo, hi) == Tables(feed, lo, hi - 1);
      }
    }
  }

  method FetchNbpTableRange(feed: Feed, lo: int, hi: int) returns (out: seq<Row>)
    ensures out == RangeRows(Nbp, feed, lo, hi)
  {
    var tables := Tables(feed, lo, hi);
    out := [];
    for i := 0 to |tables|
      invariant out == TableRows(tables[..i])
    {
      var day: int, rates: seq<Quote> := tables[i].0, tables[i].1;
      ghost var sofar := out;
      for j := 0 to |rates|
        invariant out == sofar + UsableRows(Nbp, day, rates[..j])
      {
        var r := rates[j];
        assert rates[..j + 1][..j] == rates[..j];
        if r.code == [] || !(r.value > 0.0) {
          continue;
        }
        out := out + [Row(Upper(r.code), 1.0 / r.value, day)];
      }
      assert rates[..|rates|] == rates;
      out := out + [Row("PLN", 1.0, day)];
      assert tables[..i + 1][..i] == tables[..i];
    }
    assert tables[..|tables|] == tables;
    TableRowsRange(feed, lo, hi);
  }

  /** The day's ISO string, as it appears in a request. */
  function IsoOf(day: int): (s: string)
    requires FIRST_DAY <= day <= LAST_DAY
    ensures IsIso(s) && IsoDay(s) == day
  {
    ParseIso(FromDay(day));
    Iso(FromDay(day))
  }

  /** Requests first .. next were made and none of them failed. */
  predicate AllAnswered(faults: set<nat>, first: nat, next: nat) {
    forall i | first <= i < next :: i !in faults
  }

  /** fetchNbpHistory: clamp to [2020-01-01, today], then one request per chunk of 90 days. */
  method FetchNbpHistory(feed: Feed, today: int, from: int, to: int, faults: set<nat>, first: nat)
    returns (rates: Option<seq<Row>>, next: nat)
    requires today + NBP_CHUNK_DAYS <= LAST_DAY
    ensures first <= next && (rates.Some? <==> AllAnswered(faults, first, next))
    ensures rates.Some? ==> next == first + |Spans(Max(from, HISTORY_START), Min(to, today), 90)|
    ensures rates.Some? ==> rates.value == RangeRows(Nbp, feed, Max(from, HISTORY_START), Min(to, today))
  {
    hide IsIso, IsoDay, IsoOf, RangeRows, Spans, ListedRange;
    next := first;
    var start, end := Max(from, HISTORY_START), Min(to, today);
    if start > end {
      EmptyRange(Nbp, feed, start, end);
      SpansCount(start, end, NBP_CHUNK_DAYS);
      return Some([]), next;
    }
    var chunks := DateChunks(IsoOf(start), IsoOf(end), NBP_CHUNK_DAYS);
    ghost var spans := Spans(start, end, NBP_CHUNK_DAYS);
    ghost var at := start;
    EmptyRange(Nbp, feed, start, start - 1);
    var acc: seq<Row> := [];
    for i := 0 to |chunks|
      invariant next == first + i && AllAnswered(faults, first, next)
      invariant start <= at <= end + 1 && spans[i..] == Spans(at, end, NBP_CHUNK_DAYS)
      invariant acc == RangeRows(Nbp, feed, start, at - 1)
    {
      next := next + 1;
      if next - 1 in faults {
        return None, next;
      }
      SpansStep(spans, i, at, end, NBP_CHUNK_DAYS);
      assert NamesSpan(chunks[i], spans[i]);
      RangeConcat(Nbp, feed, start, at - 1, spans[i].hi);
      var part := FetchNbpTableRange(feed, IsoDay(chunks[i].from), IsoDay(chunks[i].to));
      acc := acc + part;
      at := spans[i].hi + 1;
    }
    SpansDone(at, end, NBP_CHUNK_DAYS);
    rates := Some(acc);
  }

  /** Frankfurter's answer for a range: the listed quotes of every published day, oldest first. */
  function Listings(feed: Feed, lo: int, hi: int): (rs: seq<(int, Quote)>)
    decreases hi - lo
  {
    if hi < lo then []
    else Listings(feed, lo, hi - 1) + if hi in feed then seq(|feed[hi]|, i requires 0 <= i < |feed[hi]| => (hi, feed[hi][i])) else []
  }

  function ListingRows(src: Source, rs: seq<(int, Quote)>): seq<Row> {
    if rs == [] then []
    else
      var r := rs[|rs| - 1];
      ListingRows(src, rs[..|rs| - 1]) + if Usable(r.1) then [ToRow(src, r.0, r.1)] else []
  }

  lemma {:induction false} ListingRowsOfDay(src: Source, rs: seq<(int, Quote)>, day: int, qs: seq<Quote>)
    ensures ListingRows(src, rs + seq(|qs|, i requires 0 <= i < |qs| => (day, qs[i])))
      == ListingRows(src, rs) + UsableRows(src, day, qs)
  {
    var listed := seq(|qs|, i requires 0 <= i < |qs| => (day, qs[i]));
    if qs == [] {
      assert rs + listed == rs;
    } else {
      var init := qs[..|qs| - 1];
      var before := rs + seq(|init|, i requires 0 <= i < |init| => (day, init[i]));
      ListingRowsOfDay(src, rs, day, init);
      assert (rs + listed)[..|rs + listed| - 1] == before;
      assert rs + listed == before + [(day, qs[|qs| - 1])];
    }
  }

  lemma {:induction false} ListingRowsRange(src: Source, feed: Feed, lo: int, hi: int)
    ensures ListingRows(src, Listings(feed, lo, hi)) == ListedRange(src, feed, lo, hi)
    decreases hi - lo
  {
    if lo <= hi {
      ListingRowsRange(src, feed, lo, hi - 1);
      if hi in feed {
        ListingRowsOfDay(src, Listings(feed, lo, hi - 1), hi, feed[hi]);
      } else {
        assert Listings(feed, lo, hi) == Listings(feed, lo, hi - 1);
      }
    }
  }

  lemma {:induction false} LookupListed(src: Source, feed: Feed, lo: int, hi: int, quote: string, day: int)
    ensures Lookup(ListedRange(src, feed, lo, hi), quote, day)
      == if lo <= day <= hi && day in feed then Lookup(UsableRows(src, day, feed[day]), quote, day) else None
    decreases hi - lo
  {
    if lo <= hi {
      var here := if hi in feed then UsableRows(src, hi, feed[hi]) else [];
      LookupListed(src, feed, lo, hi - 1, quote, day);
      LookupConcat(ListedRange(src, feed, lo, hi - 1), here, quote, day);
    }
  }

  lemma {:induction false} ListedDay(src: Source, feed: Feed, lo: int, hi: int, day: int)
    ensures (exists r :: r in ListedRange(src, feed, lo, hi) && r.day == day) <==>
      lo <= day <= hi && day in feed && UsableRows(src, day, feed[day]) != []
    decreases hi - lo
  {
    if lo <= hi {
      ListedDay(src, feed, lo, hi - 1, day);
      if hi in feed && day == hi && UsableRows(src, hi, feed[hi]) != [] {
        assert UsableRows(src, hi, feed[hi])[0] in ListedRange(src, feed, lo, hi);
      }
    }
  }

  /** The distinct days of some rows, in order of first appearance. */
  function DaysOf(rows: seq<Row>): (days: seq<int>)
    ensures forall d :: d in days <==> exists r :: r in rows && r.day == d
  {
    if rows == [] then []
    else
      var last := rows[|rows| - 1];
      var days := DaysOf(rows[..|rows| - 1]);
      assert rows == rows[..|rows| - 1] + [last];
      if last.day in days then days else days + [last.day]
  }

  /** `all` is `listed` followed by base rows for those of `days` that list no base. */
  ghost predicate BasesAdded(all: seq<Row>, listed: seq<Row>, base: string, days: seq<int>) {
    forall q, d {:trigger Lookup(all, q, d)} :: Lookup(all, q, d) ==
      if Lists(listed, q, d) then Lookup(listed, q, d) else if q == base && d in days then Some(1.0) else None
  }

  lemma AddBase(all: seq<Row>, listed: seq<Row>, base: string, days: seq<int>, day: int)
    requires BasesAdded(all, listed, base, days)
    ensures BasesAdded(if Lists(all, base, day) then all else all + [Row(base, 1.0, day)], listed, base, days + [day])
  {
    var row := Row(base, 1.0, day);
    var grown := if Lists(all, base, day) then all else all + [row];
    assert Lists(all, base, day) <==> Lookup(all, base, day).Some?;
    forall q, d
      ensures Lookup(grown, q, d) ==
        if Lists(listed, q, d) then Lookup(listed, q, d) else if q == base && d in days + [day] then Some(1.0) else None
    {
      LookupConcat(all, [row], q, d);
      assert Lookup(all, q, d).Some? <==> Lists(all, q, d);
    }
  }

  lemma BasesComplete(src: Source, feed: Feed, lo: int, hi: int, all: seq<Row>)
    requires src.Frankfurter?
    requires BasesAdded(all, ListedRange(src, feed, lo, hi), BaseOf(src), DaysOf(ListedRange(src, feed, lo, hi)))
    ensures forall q, d :: Lookup(all, q, d) == Lookup(RangeRows(src, feed, lo, hi), q, d)
  {
    var listed := ListedRange(src, feed, lo, hi);
    forall q, d
      ensures Lookup(all, q, d) == Lookup(RangeRows(src, feed, lo, hi), q, d)
    {
      LookupListed(src, feed, lo, hi, q, d);
      LookupRange(src, feed, lo, hi, q, d);
      ListedDay(src, feed, lo, hi, d);
      if d in feed {
        LookupConcat(UsableRows(src, d, feed[d]), [Row(BaseOf(src), 1.0, d)], q, d);
      }
    }
  }

  /** fetchFrankfurterHistory: one request per chunk of 366 days, then base rows for the days without one. */
  method FetchFrankfurterHistory(base: string, feed: Feed, today: int, from: int, to: int, faults: set<nat>, first: nat)
    returns (rates: Option<seq<Row>>, next: nat)
    requires today + FRANK_CHUNK_DAYS <= LAST_DAY
    ensures first <= next && (rates.Some? <==> AllAnswered(faults, first, next))
    ensures rates.Some? ==> next == first + |Spans(Max(from, HISTORY_START), Min(to, today), 366)|
    ensures rates.Some? ==> forall q, d ::
      Lookup(rates.value, q, d) == Lookup(RangeRows(Frankfurter(base), feed, Max(from, HISTORY_START), Min(to, today)), q, d)
  {
    hide IsIso, IsoDay, IsoOf, RangeRows, ListedRange, Spans, Lookup, Upper, BasesAdded;
    next := first;
    var start, end := Max(from, HISTORY_START), Min(to, today);
    if start > end {
      SpansCount(start, end, FRANK_CHUNK_DAYS);
      return Some([]), next;
    }
    var src := Frankfurter(base);
    var chunks := DateChunks(IsoOf(start), IsoOf(end), FRANK_CHUNK_DAYS);
    ghost var spans := Spans(start, end, FRANK_CHUNK_DAYS);
    ghost var at := start;
    EmptyRange(src, feed, start, start - 1);
    var acc: seq<Row> := [];
    for i := 0 to |chunks|
      invariant next == first + i && AllAnswered(faults, first, next)
      invariant start <= at <= end + 1 && spans[i..] == Spans(at, end, FRANK_CHUNK_DAYS)
      invariant acc == ListedRange(src, feed, start, at - 1)
    {
      next := next + 1;
      if next - 1 in faults {
        return None, next;
      }
      SpansStep(spans, i, at, end, FRANK_CHUNK_DAYS);
      assert NamesSpan(chunks[i], spans[i]);
      RangeConcat(src, feed, start, at - 1, spans[i].hi);
      var part := FetchListings(src, feed, IsoDay(chunks[i].from), IsoDay(chunks[i].to));
      acc := acc + part;
      at := spans[i].hi + 1;
    }
    SpansDone(at, end, FRANK_CHUNK_DAYS);
    acc := AddBases(acc, Upper(base));
    BasesComplete(src, feed, start, end, acc);
    rates := Some(acc);
  }

  method FetchListings(src: Source, feed: Feed, lo: int, hi: int) returns (out: seq<Row>)
    requires src.Frankfurter?
    ensures out == ListedRange(src, feed, lo, hi)
  {
    var rows := Listings(feed, lo, hi);
    out := [];
    for i := 0 to |rows|
      invariant out == ListingRows(src, rows[..i])
    {
      var r: Quote := rows[i].1;
      assert rows[..i + 1][..i] == rows[..i];
      if r.code == [] || !(r.value > 0.0) {
        continue;
      }
      out := out + [Row(Upper(r.code), r.value, rows[i].0)];
    }
    assert rows[..|rows|] == rows;
    ListingRowsRange(src, feed, lo, hi);
  }

  method AddBases(listed: seq<Row>, base: string) returns (all: seq<Row>)
    ensures BasesAdded(all, listed, base, DaysOf(listed))
  {
    all := listed;
    var days := DaysOf(listed);
    for i := 0 to |days|
      invariant BasesAdded(all, listed, base, days[..i])
    {
      AddBase(all, listed, base, days[..i], days[i]);
      assert days[..i + 1] == days[..i] + [days[i]];
      if !Lists(all, base, days[i]) {
        all := all + [Row(base, 1.0, days[i])];
      }
    }
    assert days[..|days|] == days;
  }
}
