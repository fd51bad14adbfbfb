/**
 * Conversion over a stored rate history (fx-convert.service.ts). Rates are exact reals; the
 * amounts are integer minor units.
 */
module FxConvert {
  import opened Prelude
  import opened Calendar
  import opened FxFetch
  import opened FxStore
  import opened FxRuns

  datatype Table = Table(base: string, rates: Store)

  datatype Rate = Rate(rate: real, day: int)

  datatype Reason = TableMissing | BaseUnknown | NoRate(currency: string)

  datatype Input = Input(amountMinor: real, currency: string, day: int, toCurrency: string, providerKey: string)

  /** What resolveDefaults found for the entity or tenant. */
  datatype Defaults = Defaults(currency: string, providerKey: string)

  datatype Outcome =
    | Converted(amountMinor: int, rateUsed: real, rateDay: int)
    | Unavailable(amountMinor: int, reason: Reason)

  datatype Result = Result(outcome: Outcome, original: int, from: string, to: string, providerKey: string)

  // ----- the newest rate on or before a day -----

  /** The stored days of a quote up to a day. */
  function QuoteDays(s: Store, quote: string, day: int): set<int> {
    set k | k in s && k.quote == quote && k.day <= day :: k.day
  }

  function RateOnOrBefore(s: Store, quote: string, day: int): (r: Option<Rate>)
    ensures r.Some? ==> r.value.day <= day && Key(Upper(quote), r.value.day) in s
    ensures r.Some? ==> r.value.rate == s[Key(Upper(quote), r.value.day)]
    ensures r.Some? ==> forall k | k in s && k.quote == Upper(quote) && k.day <= day :: k.day <= r.value.day
    ensures r.None? ==> forall k | k in s && k.quote == Upper(quote) :: day < k.day
  {
    var q := Upper(quote);
    var days := QuoteDays(s, q, day);
    assert forall k | k in s && k.quote == q && k.day <= day :: k.day in days;
    if days == {} then None
    else
      GreatestExists(days);
      var d :| d in days && forall e | e in days :: e <= d;
      Some(Rate(s[Key(q, d)], d))
  }

  /** Only the rates up to the day matter. */
  lemma RateAgrees(a: Store, b: Store, quote: string, day: int, upTo: int)
    requires AgreeUpTo(a, b, upTo) && day <= upTo
    ensures RateOnOrBefore(a, quote, day) == RateOnOrBefore(b, quote, day)
  {
    assert QuoteDays(a, Upper(quote), day) == QuoteDays(b, Upper(quote), day);
  }

  // ----- converting one amount -----

  /** The rate of a currency in a table: 1 for its base, else the newest stored one. */
  function RateOf(t: Table, currency: string, day: int): Option<Rate> {
    if currency == Upper(t.base) then Some(Rate(1.0, day)) else RateOnOrBefore(t.rates, currency, day)
  }

  /** Converting between two different currencies with one table. */
  function Cross(t: Table, from: string, to: string, day: int, amount: int): Outcome {
    if t.base == [] then Unavailable(amount, BaseUnknown)
    else
      var fromRate := RateOf(t, from, day);
      var toRate := RateOf(t, to, day);
      if fromRate.None? || fromRate.value.rate == 0.0 then Unavailable(amount, NoRate(from))
      else if toRate.None? then Unavailable(amount, NoRate(to))
      else
        var cross := toRate.value.rate / fromRate.value.rate;
        Converted(Round(amount as real * cross), cross, Min(fromRate.value.day, toRate.value.day))
  }

  function ConvertOne(tables: map<string, Table>, defaults: Defaults, input: Input): Result {
    var from := Upper(Or(input.currency, "EUR"));
    var amount := Round(input.amountMinor);
    var to := Upper(Or(Or(input.toCurrency, defaults.currency), "EUR"));
    var key := Lower(Or(Or(input.providerKey, defaults.providerKey), "ecb"));
    var outcome :=
      if from == to then Converted(amount, 1.0, input.day)
      else if key !in tables then Unavailable(amount, TableMissing)
      else Cross(tables[key], from, to, input.day, amount);
    Result(outcome, amount, from, to, key)
  }

  /**
   * What a conversion reports: it is available exactly when the table has a base, the source a
   * nonzero rate and the target a rate; then the rate used carries the source rate to the target
   * rate, and the rate day is the older of the two and not after the as-of day.
   */
  lemma CrossReports(t: Table, from: string, to: string, day: int, amount: int)
    ensures var (o, f, g) := (Cross(t, from, to, day, amount), RateOf(t, from, day), RateOf(t, to, day));
      && (o.Converted? <==> t.base != [] && f.Some? && f.value.rate != 0.0 && g.Some?)
      && (o.Converted? ==>
            && o.rateUsed * f.value.rate == g.value.rate
            && o.rateDay <= f.value.day && o.rateDay <= g.value.day && o.rateDay in {f.value.day, g.value.day}
            && o.rateDay <= day
            && -0.5 <= amount as real * o.rateUsed - o.amountMinor as real < 0.5)
      && (o.Unavailable? ==> o.amountMinor == amount)
  {
  }

  /** The newest rate of an upper-cased currency up to a day: 1 for the table's base, else the last stored one. */
  ghost predicate Holds(t: Table, currency: string, day: int, rate: real, rateDay: int) {
    if currency == Upper(t.base) then rate == 1.0 && rateDay == day
    else
      && rateDay <= day && Key(currency, rateDay) in t.rates && t.rates[Key(currency, rateDay)] == rate
      && forall k | k in t.rates && k.quote == currency && k.day <= day :: k.day <= rateDay
  }

  lemma RateOfHolds(t: Table, currency: string, day: int)
    requires Upper(currency) == currency
    ensures RateOf(t, currency, day).Some? <==> exists rate, rateDay :: Holds(t, currency, day, rate, rateDay)
    ensures forall rate, rateDay | Holds(t, currency, day, rate, rateDay) :: RateOf(t, currency, day) == Some(Rate(rate, rateDay))
  {
    var r := RateOf(t, currency, day);
    if r.Some? { assert Holds(t, currency, day, r.value.rate, r.value.day); }
  }

  lemma UpperTwice(s: string)
    ensures Upper(Upper(s)) == Upper(s)
  {
    CasesMirror(s);
    CasesMirror(Upper(s));
  }

  /**
   * What a table answers for two different currencies: it needs a base, a newest rate of the source
   * that is not zero and a newest rate of the target; then the rate used times the source's is the
   * target's, its day is the older one, and the amount is within half a unit of the product.
   */
  ghost predicate Answers(t: Table, source: string, target: string, day: int, amount: int, o: Outcome) {
    && (t.base == "" ==> o == Unavailable(amount, BaseUnknown))
    && (t.base != "" && !(exists f, fDay :: Holds(t, source, day, f, fDay) && f != 0.0) ==> o == Unavailable(amount, NoRate(source)))
    && ((t.base != "" && (exists f, fDay :: Holds(t, source, day, f, fDay) && f != 0.0) && !(exists g, gDay :: Holds(t, target, day, g, gDay)))
        ==> o == Unavailable(amount, NoRate(target)))
    && (forall f, fDay, g, gDay | t.base != "" && Holds(t, source, day, f, fDay) && f != 0.0 && Holds(t, target, day, g, gDay) ::
          && o.Converted? && o.rateUsed * f == g && o.rateDay == Min(fDay, gDay)
          && -0.5 <= amount as real * o.rateUsed - o.amountMinor as real < 0.5)
  }

  lemma CrossAnswers(t: Table, source: string, target: string, day: int, amount: int)
    requires Upper(source) == source && Upper(target) == target
    ensures Answers(t, source, target, day, amount, Cross(t, source, target, day, amount))
  {
    hide Cross, RateOf, Holds, Upper;
    RateOfHolds(t, source, day);
    RateOfHolds(t, target, day);
    CrossReasons(t, source, target, day, amount);
    CrossReports(t, source, target, day, amount);
  }

  /**
   * What convertOne answers, in terms of what was asked. The source is the currency given, or EUR;
   * the target the one asked for, else the default, else EUR; the table the provider asked for, else
   * the default, else ecb. The same currency is passed through at rate 1; a missing table leaves the
   * amount as it is; otherwise the table answers.
   */
  lemma ConvertsAsAsked(tables: map<string, Table>, defaults: Defaults, input: Input)
    ensures var r := ConvertOne(tables, defaults, input);
      var source := Upper(if input.currency != "" then input.currency else "EUR");
      var target := Upper(if input.toCurrency != "" then input.toCurrency else if defaults.currency != "" then defaults.currency else "EUR");
      var key := Lower(if input.providerKey != "" then input.providerKey else if defaults.providerKey != "" then defaults.providerKey else "ecb");
      && r.from == source && r.to == target && r.providerKey == key
      && -0.5 <= input.amountMinor - r.original as real < 0.5
      && (source == target ==> r.outcome == Converted(r.original, 1.0, input.day))
      && (source != target && key !in tables ==> r.outcome == Unavailable(r.original, TableMissing))
      && (source != target && key in tables ==> Answers(tables[key], source, target, input.day, r.original, r.outcome))
  {
    hide Cross, Answers, Upper, Lower;
    var r := ConvertOne(tables, defaults, input);
    UpperTwice(if input.currency != "" then input.currency else "EUR");
    UpperTwice(if input.toCurrency != "" then input.toCurrency else if defaults.currency != "" then defaults.currency else "EUR");
    if r.providerKey in tables { CrossAnswers(tables[r.providerKey], r.from, r.to, input.day, r.original); }
  }

  /** Why a conversion is refused, and that the rate day is the older of the two. */
  lemma CrossReasons(t: Table, from: string, to: string, day: int, amount: int)
    ensures var (o, f, g) := (Cross(t, from, to, day, amount), RateOf(t, from, day), RateOf(t, to, day));
      && (t.base == "" ==> o == Unavailable(amount, BaseUnknown))
      && (t.base != "" && (f.None? || f.value.rate == 0.0) ==> o == Unavailable(amount, NoRate(from)))
      && (t.base != "" && f.Some? && f.value.rate != 0.0 && g.None? ==> o == Unavailable(amount, NoRate(to)))
      && (o.Converted? ==> o.rateDay == Min(f.value.day, g.value.day))
  {
    hide RateOf, Round;
  }

  datatype Item = Item(id: string, input: Input, defaults: Defaults)

  /** convertMany keeps the ids and the order. */
  method ConvertMany(tables: map<string, Table>, items: seq<Item>) returns (out: seq<(string, Result)>)
    ensures |out| == |items|
    ensures forall i | 0 <= i < |items| :: out[i] == (items[i].id, ConvertOne(tables, items[i].defaults, items[i].input))
  {
    out := [];
    for i := 0 to |items|
      invariant |out| == i
      invariant forall j | 0 <= j < i :: out[j] == (items[j].id, ConvertOne(tables, items[j].defaults, items[j].input))
    {
      var result := ConvertOne(tables, items[i].defaults, items[i].input);
      out := out + [(items[i].id, result)];
    }
  }

  // ----- stability -----

  /** Whole results depend only on the rates up to the as-of day. */
  lemma ConvertAgrees(tables: map<string, Table>, key: string, after: Store, upTo: int, defaults: Defaults, input: Input)
    requires key in tables && AgreeUpTo(tables[key].rates, after, upTo) && input.day <= upTo
    ensures ConvertOne(tables[key := tables[key].(rates := after)], defaults, input) == ConvertOne(tables, defaults, input)
  {
    hide Round, Upper, Lower, Or, RateOnOrBefore, AgreeUpTo;
    var from := Upper(Or(input.currency, "EUR"));
    var to := Upper(Or(Or(input.toCurrency, defaults.currency), "EUR"));
    RateAgrees(tables[key].rates, after, from, input.day, upTo);
    RateAgrees(tables[key].rates, after, to, input.day, upTo);
    assert Cross(tables[key].(rates := after), from, to, input.day, Round(input.amountMinor))
      == Cross(tables[key], from, to, input.day, Round(input.amountMinor));
  }

  /**
   * Old conversions are final. Take any run of an in-order provider and any continuation of it:
   * converting as of a day the table had already reached gives the same result before and after,
   * available or not.
   */
  lemma OldConversionsFinal(src: Source, es: seq<Event>, later: seq<Event>, tables: map<string, Table>, key: string,
                            defaults: Defaults, input: Input)
    requires InOrder(src, Start, es) && InOrder(src, Run(src, Start, es), later)
    requires key in tables && tables[key].rates == Run(src, Start, es).store
    requires input.day <= Bound(Run(src, Start, es).store)
    ensures var after := Run(src, Run(src, Start, es), later).store;
      ConvertOne(tables[key := tables[key].(rates := after)], defaults, input) == ConvertOne(tables, defaults, input)
  {
    var w := Run(src, Start, es);
    StartComplete(src);
    RunComplete(src, Start, es);
    OldRatesFinal(src, w, later);
    ConvertAgrees(tables, key, Run(src, w, later).store, Bound(w.store), defaults, input);
  }

  /** `after` keeps every stored rate of `before`. */
  ghost predicate Keeps(before: Store, after: Store) {
    forall k | k in before :: k in after && after[k] == before[k]
  }

  lemma SyncKeeps(src: Source, s: Store, feed: Feed, today: int, ranges: seq<Span>)
    ensures Keeps(s, AbsorbAll(src, s, feed, today, ranges))
  {
    forall k | k in s { AbsorbAllKey(src, s, feed, today, ranges, k); }
  }

  lemma RateStays(a: Store, b: Store, quote: string, day: int)
    requires Keeps(a, b) && RateOnOrBefore(a, quote, day).Some?
    ensures RateOnOrBefore(b, quote, day).Some?
    ensures RateOnOrBefore(a, quote, day).value.day <= RateOnOrBefore(b, quote, day).value.day <= day
  {
    var k := Key(Upper(quote), RateOnOrBefore(a, quote, day).value.day);
    assert k in b;
  }

  /**
   * For any provider and any as-of day, a sync leaves an available conversion available exactly
   * when the newest rate it then finds for the source currency is not zero.
   */
  lemma StaysAvailable(t: Table, after: Store, from: string, to: string, day: int, amount: int)
    requires Keeps(t.rates, after) && Cross(t, from, to, day, amount).Converted?
    ensures Cross(t.(rates := after), from, to, day, amount).Converted?
      <==> from == Upper(t.base) || RateOnOrBefore(after, from, day).value.rate != 0.0
  {
    if from != Upper(t.base) { RateStays(t.rates, after, from, day); }
    if to != Upper(t.base) { RateStays(t.rates, after, to, day); }
  }
}
