/** What rounding to minor units, and storing reciprocals to eight decimals, costs. */
module FxArithmetic {
  import opened Prelude
  import opened Calendar
  import opened FxFetch
  import opened FxStore
  import opened FxRuns
  import opened FxConvert

  /** The unrounded amount. */
  function Exact(x: int, c: real): real {
    x as real * c
  }

  /** An amount converted at a cross rate. */
  function Convert(x: int, c: real): (n: int)
    ensures Exact(x, c) - 0.5 < n as real <= Exact(x, c) + 0.5
  {
    Round(Exact(x, c))
  }

  function Abs(x: real): real {
    if x < 0.0 then -x else x
  }

  lemma MulLess(a: real, b: real, k: real)
    requires a < b && 0.0 < k
    ensures a * k < b * k
  {
    assert 0.0 < (b - a) * k;
  }

  lemma MulAtMost(a: real, b: real, k: real)
    requires a <= b && 0.0 <= k
    ensures a * k <= b * k
  {
    assert 0.0 <= (b - a) * k;
  }

  lemma Distribute(a: real, b: real, k: real)
    ensures (a + b) * k == a * k + b * k
    ensures (a - b) * k == a * k - b * k
  {
  }

  lemma Associate(a: real, b: real, c: real)
    ensures (a * b) * c == a * (b * c)
  {
  }

  // ----- there and back -----

  /** Undoing a conversion misses the amount by less than half a unit of the source, before rounding. */
  lemma BackError(x: int, c: real, d: real)
    requires 0.0 < c && c * d == 1.0
    ensures 0.0 < d && -d / 2.0 < Convert(x, c) as real * d - x as real <= d / 2.0
  {
    var y := Exact(x, c);
    var e := Convert(x, c) as real - y;
    assert 0.0 < d;
    assert Convert(x, c) as real * d - x as real == e * d by {
      assert y * d == x as real * (c * d);
    }
    assert -0.5 < e <= 0.5;
    assert -0.5 * d < e * d <= 0.5 * d;
  }

  lemma BackBound(x: int, c: real, d: real)
    requires 0.0 < c && c * d == 1.0
    ensures Abs(Convert(Convert(x, c), d) as real - x as real) <= 0.5 + d / 2.0
  {
    BackError(x, c, d);
  }

  lemma BackExact(x: int, c: real, d: real)
    requires 1.0 <= c && c * d == 1.0
    ensures Convert(Convert(x, c), d) == x
  {
    BackError(x, c, d);
    if c == 1.0 {
      assert d == 1.0;
      RoundUnique(x as real * c, x);
      RoundUnique(x as real * d, x);
    } else {
      assert d < 1.0;
      RoundUnique(Convert(x, c) as real * d, x);
    }
  }

  lemma {:induction false} Climb(c: real, n: nat)
    requires forall x: nat | x < n :: Convert(x, c) < Convert(x + 1, c)
    ensures n <= Convert(n, c)
  {
    if n == 0 {
      RoundUnique(0.0 * c, 0);
    } else {
      Climb(c, n - 1);
      assert Convert(n - 1, c) < Convert(n - 1 + 1, c);
    }
  }

  lemma ConvertMonotone(x: int, y: int, c: real)
    requires x <= y && 0.0 <= c
    ensures Convert(x, c) <= Convert(y, c)
  {
    assert x as real * c <= y as real * c;
    RoundMonotone(x as real * c, y as real * c);
  }

  /** Enough amounts that rate c falls short by more than half a unit. */
  lemma Shortfall(c: real) returns (n: nat)
    requires 0.0 < c < 1.0
    ensures Exact(n, c) + 0.5 < n as real
  {
    var g := 1.0 / (1.0 - c);
    PositiveInverse(1.0 - c);
    n := g.Floor + 1;
    MulLess(g, n as real, 1.0 - c);
    Distribute(1.0, c, n as real);
  }

  /** Below rate 1 some two neighbouring amounts convert to the same amount. */
  lemma Collision(c: real) returns (x: nat)
    requires 0.0 < c < 1.0
    ensures Convert(x, c) == Convert(x + 1, c)
  {
    hide Exact, Convert;
    var n := Shortfall(c);
    if forall x: nat | x < n :: Convert(x, c) < Convert(x + 1, c) {
      Climb(c, n);
      assert false;
    }
    x :| x < n && !(Convert(x, c) < Convert(x + 1, c));
    ConvertMonotone(x, x + 1, c);
  }

  /** Converting there and back returns every amount exactly when the rate there is at least 1. */
  lemma ThereAndBack(c: real, d: real)
    requires 0.0 < c && c * d == 1.0
    ensures (forall x: int :: Convert(Convert(x, c), d) == x) <==> 1.0 <= c
  {
    if 1.0 <= c {
      forall x: int { BackExact(x, c, d); }
    } else {
      var x := Collision(c);
      assert Convert(Convert(x, c), d) == Convert(Convert(x + 1, c), d);
    }
  }

  // ----- through a third currency -----

  /** The rounding of a first conversion, carried through the second. */
  lemma CarriedError(x: real, m: real, c1: real, c2: real, c: real)
    requires 0.0 < c1 && 0.0 < c2 && c == c1 * c2 && x * c1 - 0.5 < m <= x * c1 + 0.5
    ensures -c2 / 2.0 <= m * c2 - x * c <= c2 / 2.0
  {
    var y := x * c1;
    MulAtMost(y - 0.5, m, c2);
    MulAtMost(m, y + 0.5, c2);
    assert y * c2 == x * (c1 * c2) == x * c;
  }

  lemma Chain(x: int, c1: real, c2: real, c: real)
    requires 0.0 < c1 && 0.0 < c2 && c == c1 * c2
    ensures Abs(Convert(Convert(x, c1), c2) as real - Convert(x, c) as real) <= 1.0 + c2 / 2.0
  {
    CarriedError(x as real, Convert(x, c1) as real, c1, c2, c);
    assert -c2 / 2.0 <= Exact(Convert(x, c1), c2) - Exact(x, c) <= c2 / 2.0;
  }

  // ----- sums -----

  function Sum(xs: seq<int>): int {
    if xs == [] then 0 else Sum(xs[..|xs| - 1]) + xs[|xs| - 1]
  }

  function ConvertEach(xs: seq<int>, c: real): seq<int> {
    if xs == [] then [] else ConvertEach(xs[..|xs| - 1], c) + [Convert(xs[|xs| - 1], c)]
  }

  lemma ExactAdds(x: int, y: int, c: real)
    ensures Exact(x + y, c) == Exact(x, c) + Exact(y, c) && Exact(0, c) == 0.0
  {
    Distribute(x as real, y as real, c);
  }

  lemma {:induction false} SumError(xs: seq<int>, c: real)
    ensures Abs(Sum(ConvertEach(xs, c)) as real - Exact(Sum(xs), c)) <= |xs| as real / 2.0
  {
    hide Exact, Convert;
    ExactAdds(0, 0, c);
    if xs != [] {
      var (init, x) := (xs[..|xs| - 1], xs[|xs| - 1]);
      SumError(init, c);
      var each := ConvertEach(init, c) + [Convert(x, c)];
      assert each[..|each| - 1] == ConvertEach(init, c);
      ExactAdds(Sum(init), x, c);
    }
  }

  /** Converting n rows and adding, or adding and converting, differ by at most (n + 1) / 2 units. */
  lemma SumOfConverted(xs: seq<int>, c: real)
    ensures Abs(Sum(ConvertEach(xs, c)) as real - Convert(Sum(xs), c) as real) <= (|xs| + 1) as real / 2.0
  {
    hide Exact, Convert;
    SumError(xs, c);
  }

  // ----- through the tables -----

  /** Both currencies have a nonzero rate in the table as of the day. */
  predicate Quoted(t: Table, currency: string, day: int) {
    t.base != [] && RateOf(t, currency, day).Some? && RateOf(t, currency, day).value.rate > 0.0
  }

  function RateAt(t: Table, currency: string, day: int): real
    requires Quoted(t, currency, day)
  {
    RateOf(t, currency, day).value.rate
  }

  lemma CrossConverts(t: Table, a: string, b: string, day: int, x: int)
    requires Quoted(t, a, day) && Quoted(t, b, day)
    ensures Cross(t, a, b, day, x).Converted?
    ensures Cross(t, a, b, day, x).amountMinor == Convert(x, RateAt(t, b, day) / RateAt(t, a, day))
  {
  }

  function ThereBack(t: Table, a: string, b: string, day: int, x: int): int {
    Cross(t, b, a, day, Cross(t, a, b, day, x).amountMinor).amountMinor
  }

  /**
   * Converting a to b and back at one day and table: exact for every amount if and only if b's
   * rate is at least a's; in any case off by at most 1/2 + 1/(2c) for cross rate c.
   */
  lemma RoundTrip(t: Table, a: string, b: string, day: int)
    requires Quoted(t, a, day) && Quoted(t, b, day)
    ensures (forall x: int :: ThereBack(t, a, b, day, x) == x) <==> RateAt(t, a, day) <= RateAt(t, b, day)
    ensures forall x: int ::
      Abs(ThereBack(t, a, b, day, x) as real - x as real) <= 0.5 + RateAt(t, a, day) / RateAt(t, b, day) / 2.0
  {
    var (ra, rb) := (RateAt(t, a, day), RateAt(t, b, day));
    var (c, d) := (rb / ra, ra / rb);
    Reciprocal(ra, rb);
    forall x: int
      ensures ThereBack(t, a, b, day, x) == Convert(Convert(x, c), d)
      ensures Abs(Convert(Convert(x, c), d) as real - x as real) <= 0.5 + d / 2.0
    {
      CrossConverts(t, a, b, day, x);
      CrossConverts(t, b, a, day, Convert(x, c));
      BackBound(x, c, d);
    }
    ThereAndBack(c, d);
  }

  lemma Reciprocal(a: real, b: real)
    requires 0.0 < a && 0.0 < b
    ensures 0.0 < b / a && (b / a) * (a / b) == 1.0
    ensures 1.0 <= b / a <==> a <= b
  {
    var c := b / a;
    assert c * a == b;
    assert 0.0 < c;
    if 1.0 <= c { assert 1.0 * a <= c * a; }
    if c < 1.0 { assert c * a < 1.0 * a; }
    var d := a / b;
    assert d * b == a;
    assert (c * d) * b == c * (d * b);
    if c * d < 1.0 { assert (c * d) * b < 1.0 * b; }
    if c * d > 1.0 { assert (c * d) * b > 1.0 * b; }
  }

  lemma Ratios(a: real, b: real, e: real)
    requires 0.0 < a && 0.0 < b
    ensures (b / a) * (e / b) == e / a
  {
    var (c1, c2) := (b / a, e / b);
    assert c1 * a == b && c2 * b == e;
    Associate(c2, c1, a);
    assert (c2 * c1) * a == e;
    assert (e / a) * a == e;
    assert (c2 * c1 - e / a) * a == 0.0;
  }

  /** Going through b costs at most 1 + c/2 units against converting a to e directly, c the rate from b to e. */
  lemma ThroughThird(t: Table, a: string, b: string, e: string, day: int, x: int)
    requires Quoted(t, a, day) && Quoted(t, b, day) && Quoted(t, e, day)
    ensures var direct := Cross(t, a, e, day, x).amountMinor;
      var through := Cross(t, b, e, day, Cross(t, a, b, day, x).amountMinor).amountMinor;
      Abs(through as real - direct as real) <= 1.0 + RateAt(t, e, day) / RateAt(t, b, day) / 2.0
  {
    var (ra, rb, re) := (RateAt(t, a, day), RateAt(t, b, day), RateAt(t, e, day));
    CrossConverts(t, a, e, day, x);
    CrossConverts(t, a, b, day, x);
    CrossConverts(t, b, e, day, Convert(x, rb / ra));
    ChainOfRates(x, ra, rb, re);
  }

  lemma ChainOfRates(x: int, ra: real, rb: real, re: real)
    requires 0.0 < ra && 0.0 < rb && 0.0 < re
    ensures Abs(Convert(Convert(x, rb / ra), re / rb) as real - Convert(x, re / ra) as real) <= 1.0 + re / rb / 2.0
  {
    Reciprocal(ra, rb);
    Reciprocal(rb, re);
    Ratios(ra, rb, re);
    Chain(x, rb / ra, re / rb, re / ra);
  }

  // ----- stored reciprocals -----

  /** Half a unit of the eighth decimal. */
  const D := 0.000000005

  lemma StoredClose(r: real)
    ensures r - D < Stored(r) <= r + D
  {
  }

  lemma StoredReciprocal(mid: real)
    requires 0.0 < mid
    ensures 0.0 <= Stored(1.0 / mid)
    ensures Stored(1.0 / mid) == 0.0 <==> mid > 200000000.0
  {
    var r := 1.0 / mid;
    assert r * mid == 1.0;
    assert 0.0 < r;
    var m := r * 100000000.0;
    assert m * mid == 100000000.0;
    if mid > 200000000.0 {
      assert m < 0.5;
      RoundUnique(m, 0);
    } else {
      assert 0.5 <= m;
      assert 1 <= Round(m);
    }
  }

  lemma AtMostQuotient(v: real, w: real, g: real)
    requires 0.0 < g && v * g <= w
    ensures v <= w / g
  {
    assert (w / g) * g == w;
    if w / g < v { MulLess(w / g, v, g); }
  }

  lemma Scale(x: real, gap: real, g: real, w: real)
    requires 0.0 <= x && gap * g <= w
    ensures (x * gap) * g <= x * w
  {
    MulAtMost(gap * g, w, x);
    assert (x * gap) * g == (gap * g) * x;
    assert x * w == w * x;
  }

  /** x * mid^2 * D / (1 - D * mid). */
  function ReciprocalBound(x: real, mid: real): real
    requires mid < 200000000.0
  {
    x * (mid * (D * mid)) / (1.0 - D * mid)
  }

  lemma ReciprocalError(x: nat, mid: real)
    requires 0.0 < mid < 200000000.0
    ensures var s := Stored(1.0 / mid);
      && 0.0 < s
      && Abs(Exact(x, 1.0 / s) - Exact(x, mid)) <= ReciprocalBound(x as real, mid)
  {
    hide Exact, ReciprocalBound, Stored;
    var s := Stored(1.0 / mid);
    StoredReciprocal(mid);
    PositiveInverse(s);
    PositiveInverse(mid);
    StoredInverse(x, 1.0 / s, s, mid, 1.0 / mid);
  }

  lemma StoredInverse(x: nat, t: real, s: real, mid: real, r: real)
    requires 0.0 < t && t * s == 1.0 && 0.0 < mid < 200000000.0 && r * mid == 1.0 && s == Stored(r)
    ensures Abs(Exact(x, t) - Exact(x, mid)) <= ReciprocalBound(x as real, mid)
  {
    hide Stored;
    StoredClose(r);
    ReciprocalGap(r, mid, s);
    BoundedInverse(x, t, s, mid, D * mid);
  }

  lemma BoundedInverse(x: nat, t: real, s: real, mid: real, e: real)
    requires 0.0 < t && t * s == 1.0 && 0.0 < mid < 200000000.0 && Abs(1.0 - s * mid) <= e == D * mid
    ensures Abs(Exact(x, t) - Exact(x, mid)) <= ReciprocalBound(x as real, mid)
  {
    InverseError(x as real, t, s, mid, e);
  }

  lemma InverseError(x: real, t: real, s: real, mid: real, e: real)
    requires 0.0 <= x && 0.0 < t && t * s == 1.0 && 0.0 < mid && 0.0 <= e && Abs(1.0 - s * mid) <= e < 1.0
    ensures Abs(x * t - x * mid) <= x * (mid * e) / (1.0 - e)
  {
    InverseGap(t, s, mid, e);
    AbsScale(x, t, mid);
    Scale(x, Abs(t - mid), 1.0 - e, mid * e);
    AtMostQuotient(x * Abs(t - mid), x * (mid * e), 1.0 - e);
  }

  /** The stored reciprocal times the mid is within D * mid of 1. */
  lemma ReciprocalGap(r: real, mid: real, s: real)
    requires 0.0 < mid && r * mid == 1.0 && r - D <= s <= r + D
    ensures Abs(1.0 - s * mid) <= D * mid
  {
    MulAtMost(r - D, s, mid);
    MulAtMost(s, r + D, mid);
    assert (r - D) * mid == r * mid - D * mid;
    assert (r + D) * mid == r * mid + D * mid;
  }

  /** If s * t == 1 and s * mid is within e of 1 then t is within mid * e / (1 - e) of mid. */
  lemma InverseGap(t: real, s: real, mid: real, e: real)
    requires 0.0 < t && t * s == 1.0 && 0.0 < mid && 0.0 <= e && Abs(1.0 - s * mid) <= e < 1.0
    ensures Abs(t - mid) * (1.0 - e) <= mid * e
  {
    var (gap, g) := (1.0 - s * mid, 1.0 - e);
    assert t * gap == t - mid by {
      Associate(t, s, mid);
      Distribute(1.0, s * mid, t);
    }
    assert t * g <= mid by {
      MulAtMost(g, s * mid, t);
      Associate(t, s, mid);
    }
    ScaleAbs(t, gap, e);
    MulAtMost(Abs(t - mid), t * e, g);
    Associate(t, e, g);
    Associate(t, g, e);
    MulAtMost(t * g, mid, e);
  }

  lemma PositiveInverse(s: real)
    requires 0.0 < s
    ensures (1.0 / s) * s == 1.0 && 0.0 < 1.0 / s
  {
    var t := 1.0 / s;
    assert t * s == 1.0;
  }

  lemma ScaleAbs(t: real, gap: real, e: real)
    requires 0.0 < t && Abs(gap) <= e
    ensures Abs(t * gap) <= t * e
  {
    assert t * -e <= t * gap <= t * e;
    assert t * -e == -(t * e);
  }

  lemma AbsScale(x: real, t: real, mid: real)
    requires 0.0 <= x
    ensures Abs(x * t - x * mid) == x * Abs(t - mid)
  {
    var d := t - mid;
    assert x * t - x * mid == x * d;
    if d < 0.0 { assert x * d <= 0.0; } else { assert 0.0 <= x * d; }
    assert x * -d == -(x * d);
  }

  lemma RoundNear(x: real, y: real, e: real)
    requires Abs(x - y) <= e
    ensures Abs(Round(x) as real - y) <= 0.5 + e
  {
  }

  lemma NbpCross(t: Table, quote: string, day: int, x: nat, s: real, rateDay: int)
    requires t.base == "PLN" && Upper("PLN") == "PLN" && quote != "PLN"
    requires RateOnOrBefore(t.rates, quote, day) == Some(Rate(s, rateDay))
    ensures Cross(t, quote, "PLN", day, x).Unavailable? <==> s == 0.0
    ensures s != 0.0 ==> Cross(t, quote, "PLN", day, x).amountMinor == Round(Exact(x, 1.0 / s))
  {
    hide Round, RateOnOrBefore;
  }

  /**
   * An NBP mid stored as its eight-decimal reciprocal: converting x minor units to PLN is refused
   * exactly when the mid exceeds 2 * 10^8, and below that lands within
   * 1/2 + x * mid^2 * D / (1 - D * mid) of x * mid.
   */
  lemma NbpConversion(t: Table, quote: string, day: int, x: nat, mid: real, rateDay: int)
    requires 0.0 < mid && t.base == "PLN" && quote != "PLN"
    requires RateOnOrBefore(t.rates, quote, day) == Some(Rate(Stored(1.0 / mid), rateDay))
    ensures Cross(t, quote, "PLN", day, x).Unavailable? <==> mid > 200000000.0
    ensures mid < 200000000.0 ==>
      Abs(Cross(t, quote, "PLN", day, x).amountMinor as real - Exact(x, mid)) <= 0.5 + ReciprocalBound(x as real, mid)
  {
    hide Stored, Round, RateOnOrBefore, Cross, Exact, ReciprocalBound;
    assert Upper("PLN") == "PLN";
    NbpCross(t, quote, day, x, Stored(1.0 / mid), rateDay);
    StoredReciprocal(mid);
    if mid < 200000000.0 {
      ReciprocalError(x, mid);
      RoundNear(Exact(x, 1.0 / Stored(1.0 / mid)), Exact(x, mid), ReciprocalBound(x as real, mid));
    }
  }

  // ----- from what NBP published to what is converted -----

  predicate Offers(qs: seq<Quote>, quote: string) {
    exists j :: 0 <= j < |qs| && Matches(qs[j], quote)
  }

  /** Listing i of day d is the first for the quote that day, and no later day up to the given one lists it. */
  predicate Newest(feed: Feed, quote: string, day: int, d: int, i: nat) {
    && HISTORY_START <= d <= day && d in feed
    && i < |feed[d]| && Matches(feed[d][i], quote) && (forall j | 0 <= j < i :: !Matches(feed[d][j], quote))
    && forall e | e in feed && d < e <= day :: !Offers(feed[e], quote)
  }

  lemma {:induction false} FirstOffer(qs: seq<Quote>, quote: string) returns (i: nat)
    requires Offers(qs, quote)
    ensures i < |qs| && Matches(qs[i], quote) && forall j | 0 <= j < i :: !Matches(qs[j], quote)
  {
    i := 0;
    while !Matches(qs[i], quote)
      invariant i < |qs| && forall j | 0 <= j < i :: !Matches(qs[j], quote)
      decreases |qs| - i
    {
      assert exists j :: i < j < |qs| && Matches(qs[j], quote);
      i := i + 1;
    }
  }

  /** NBP publishes a foreign quote exactly on the days that list it. */
  lemma OfferedIsPublished(feed: Feed, quote: string, day: int)
    requires day in feed && quote != "PLN"
    ensures Published(Nbp, feed, quote, day).Some? <==> Offers(feed[day], quote)
  {
    hide Matches, Published;
    if Offers(feed[day], quote) {
      var i := FirstOffer(feed[day], quote);
      PublishedFirst(Nbp, feed, quote, day, i);
    } else {
      PublishedFirst(Nbp, feed, quote, day, |feed[day]|);
    }
  }

  /** In a complete table the newest listing is the rate that is found. */
  lemma NewestFound(w: World, quote: string, day: int, d: int, i: nat)
    requires Complete(Nbp, w, Bound(w.store)) && day <= Bound(w.store) && quote == Upper(quote) && quote != "PLN"
    requires Newest(w.feed, quote, day, d, i)
    ensures RateOnOrBefore(w.store, quote, day) == Some(Rate(Stored(1.0 / w.feed[d][i].value), d))
  {
    hide Published, Stored, Bound, Matches;
    PublishedFirst(Nbp, w.feed, quote, d, i);
    assert Key(quote, d) in w.store;
    var found := RateOnOrBefore(w.store, quote, day).value;
    var k := Key(quote, found.day);
    ListedWhenStored(w, quote, found.day);
    OfferedIsPublished(w.feed, quote, found.day);
  }

  lemma ListedWhenStored(w: World, quote: string, day: int)
    requires Complete(Nbp, w, Bound(w.store)) && Key(quote, day) in w.store
    ensures Published(Nbp, w.feed, quote, day).Some? && HISTORY_START <= day && day in w.feed
  {
    hide Bound;
  }

  /** And a rate that is found is the newest listing. */
  lemma FoundIsNewest(w: World, quote: string, day: int) returns (i: nat)
    requires Complete(Nbp, w, Bound(w.store)) && day <= Bound(w.store) && quote == Upper(quote) && quote != "PLN"
    requires RateOnOrBefore(w.store, quote, day).Some?
    ensures Newest(w.feed, quote, day, RateOnOrBefore(w.store, quote, day).value.day, i)
  {
    hide Published, Stored, Bound, Matches;
    var d := RateOnOrBefore(w.store, quote, day).value.day;
    ListedWhenStored(w, quote, d);
    OfferedIsPublished(w.feed, quote, d);
    i := FirstOffer(w.feed[d], quote);
    forall e | e in w.feed && d < e <= day
      ensures !Offers(w.feed[e], quote)
    {
      OfferedIsPublished(w.feed, quote, e);
      assert Key(quote, e) !in w.store;
    }
  }

  /**
   * From publication to conversion. In every run of an in-order NBP, converting x minor units to
   * PLN as of a day the table has reached works exactly when the newest listed mid exists and is at
   * most 2 * 10^8, and below that lands within half a unit and the reciprocal bound of x times it.
   */
  lemma PublishedConversion(es: seq<Event>, t: Table, quote: string, day: int, x: nat)
    requires InOrder(Nbp, Start, es) && t.base == "PLN" && t.rates == Run(Nbp, Start, es).store
    requires quote == Upper(quote) && quote != "PLN" && day <= Bound(t.rates)
    ensures var feed := Run(Nbp, Start, es).feed;
      && (Cross(t, quote, "PLN", day, x).Converted? <==>
            exists d, i: nat :: Newest(feed, quote, day, d, i) && feed[d][i].value <= 200000000.0)
      && (forall d, i: nat :: Newest(feed, quote, day, d, i) && feed[d][i].value < 200000000.0 ==>
            Abs(Cross(t, quote, "PLN", day, x).amountMinor as real - Exact(x, feed[d][i].value))
              <= 0.5 + ReciprocalBound(x as real, feed[d][i].value))
  {
    hide Run, InOrder, Cross, Exact, ReciprocalBound, Newest, Bound, Stored;
    var w := Run(Nbp, Start, es);
    StartComplete(Nbp);
    RunComplete(Nbp, Start, es);
    forall d, i: nat | Newest(w.feed, quote, day, d, i)
      ensures d in w.feed && i < |w.feed[d]| && 0.0 < w.feed[d][i].value
      ensures RateOnOrBefore(t.rates, quote, day) == Some(Rate(Stored(1.0 / w.feed[d][i].value), d))
      ensures Cross(t, quote, "PLN", day, x).Unavailable? <==> w.feed[d][i].value > 200000000.0
      ensures w.feed[d][i].value < 200000000.0 ==>
        Abs(Cross(t, quote, "PLN", day, x).amountMinor as real - Exact(x, w.feed[d][i].value))
          <= 0.5 + ReciprocalBound(x as real, w.feed[d][i].value)
    {
      NewestUsable(w.feed, quote, day, d, i);
      NewestFound(w, quote, day, d, i);
      NbpConversion(t, quote, day, x, w.feed[d][i].value, d);
    }
    if RateOnOrBefore(t.rates, quote, day).Some? {
      var i := FoundIsNewest(w, quote, day);
    } else {
      CrossReports(t, quote, "PLN", day, x);
    }
  }

  lemma NewestUsable(feed: Feed, quote: string, day: int, d: int, i: nat)
    requires Newest(feed, quote, day, d, i)
    ensures d in feed && i < |feed[d]| && 0.0 < feed[d][i].value
  {
  }

  // ----- the same for any provider and any two currencies -----

  /** The newest day up to the given one for which the provider lists the currency, and the rate; 1 for its base. */
  predicate Listed(src: Source, feed: Feed, currency: string, day: int, d: int, p: real) {
    if currency == BaseOf(src) then d == day && p == 1.0
    else
      && HISTORY_START <= d <= day && Published(src, feed, currency, d) == Some(p)
      && forall e | d < e <= day :: Published(src, feed, currency, e) == None
  }

  lemma {:induction false} UsablePositive(src: Source, day: int, qs: seq<Quote>)
    ensures forall r | r in UsableRows(src, day, qs) :: 0.0 < r.rate
  {
    if qs != [] { UsablePositive(src, day, qs[..|qs| - 1]); }
  }

  lemma ListedPositive(src: Source, feed: Feed, currency: string, day: int, d: int, p: real)
    requires Listed(src, feed, currency, day, d, p)
    ensures 0.0 < p
  {
    if currency != BaseOf(src) { UsablePositive(src, d, feed[d]); }
  }

  lemma StoredOne()
    ensures Stored(1.0) == 1.0
  {
    RoundUnique(100000000.0, 100000000);
  }

  /** In a complete table the rate of a currency is its newest listed one, stored to eight decimals. */
  lemma RateIsListed(src: Source, w: World, t: Table, currency: string, day: int)
    requires Complete(src, w, Bound(w.store)) && day <= Bound(w.store) && t.rates == w.store && Upper(t.base) == BaseOf(src)
    requires currency == Upper(currency)
    ensures RateOf(t, currency, day).Some? <==> exists d, p :: Listed(src, w.feed, currency, day, d, p)
    ensures forall d, p | Listed(src, w.feed, currency, day, d, p) :: RateOf(t, currency, day) == Some(Rate(Stored(p), d))
  {
    hide Published, Stored, Bound;
    if currency == BaseOf(src) {
      StoredOne();
      assert Listed(src, w.feed, currency, day, day, 1.0);
    } else {
      forall d, p | Listed(src, w.feed, currency, day, d, p)
        ensures RateOf(t, currency, day) == Some(Rate(Stored(p), d))
      {
        assert Key(currency, d) in w.store;
        var found := RateOnOrBefore(w.store, currency, day).value;
        assert Key(currency, found.day) in w.store && Published(src, w.feed, currency, found.day).Some?;
      }
      if RateOnOrBefore(w.store, currency, day).Some? {
        var d := RateOnOrBefore(w.store, currency, day).value.day;
        assert Key(currency, d) in w.store;
        forall e | d < e <= day ensures Published(src, w.feed, currency, e) == None {
          assert Key(currency, e) !in w.store;
        }
        assert Listed(src, w.feed, currency, day, d, Published(src, w.feed, currency, d).value);
      }
    }
  }

  /** x * D * (p + q) / ((p - D) * p): what storing both rates to eight decimals can cost. */
  function CrossBound(x: real, p: real, q: real): real
    requires D < p
  {
    x * (D * (p + q)) / ((p - D) * p)
  }

  function Mul(a: real, b: real): real {
    a * b
  }

  /** If s and r are within e of p and q then u = r / s is near v = q / p. */
  lemma QuotientGap(u: real, s: real, r: real, v: real, p: real, q: real, e: real)
    requires Mul(u, s) == r && Mul(v, p) == q && 0.0 < q && 0.0 <= e < p && Abs(s - p) <= e && Abs(r - q) <= e
    ensures Mul(Abs(u - v), Mul(p - e, p)) <= Mul(p + q, e)
  {
    hide Mul;
    CrossDifference(u, s, r, v, p, q);
    Spread(p, r - q, e);
    Spread(q, s - p, e);
    Together(p, q, e);
    Denominator(s, p, e);
    GapAtMost(u - v, Mul(s, p), Mul(p - e, p), Mul(p, r - q), Mul(q, s - p), Mul(p, e), Mul(q, e));
  }

  lemma Spread(t: real, gap: real, e: real)
    requires 0.0 < t && Abs(gap) <= e
    ensures Abs(Mul(t, gap)) <= Mul(t, e)
  {
    ScaleAbs(t, gap, e);
  }

  lemma Together(p: real, q: real, e: real)
    ensures Mul(p, e) + Mul(q, e) == Mul(p + q, e)
  {
  }

  lemma Denominator(s: real, p: real, e: real)
    requires 0.0 <= e < p && Abs(s - p) <= e
    ensures 0.0 < Mul(s, p) && Mul(p - e, p) <= Mul(s, p)
  {
    MulAtMost(p - e, s, p);
    MulLess(0.0, s, p);
  }

  lemma CrossDifference(u: real, s: real, r: real, v: real, p: real, q: real)
    requires Mul(u, s) == r && Mul(v, p) == q
    ensures Mul(u - v, Mul(s, p)) == Mul(p, r - q) - Mul(q, s - p)
  {
    Associate(u, s, p);
    Associate(v, p, s);
    Swap(p, s);
    Distribute(u, v, s * p);
    Distribute(r, q, p);
    Distribute(s, p, q);
    Swap(r - q, p);
    Swap(s - p, q);
    Swap(p, q);
    Swap(q, s);
  }

  lemma GapAtMost(g: real, k: real, low: real, y: real, z: real, yMax: real, zMax: real)
    requires 0.0 < k && low <= k && Mul(g, k) == y - z && Abs(y) <= yMax && Abs(z) <= zMax
    ensures Mul(Abs(g), low) <= yMax + zMax
  {
    AbsTimes(g, k);
    MulAtMost(low, k, Abs(g));
    Swap(low, Abs(g));
    Swap(k, Abs(g));
  }

  lemma Swap(a: real, b: real)
    ensures a * b == b * a
  {
  }

  lemma AbsTimes(a: real, k: real)
    requires 0.0 < k
    ensures Abs(a * k) == Abs(a) * k
  {
    if a < 0.0 { assert a * k < 0.0 && (-a) * k == -(a * k); } else { assert 0.0 <= a * k; }
  }

  lemma CrossGap(x: nat, p: real, q: real, s: real, r: real)
    requires D < p && 0.0 < q && Abs(s - p) <= D && Abs(r - q) <= D
    ensures 0.0 < s && Abs(Exact(x, r / s) - Exact(x, q / p)) <= CrossBound(x as real, p, q)
  {
    var (u, v) := (r / s, q / p);
    assert u * s == r && v * p == q;
    QuotientGap(u, s, r, v, p, q, D);
    BoundedGap(x, u, v, p, q);
  }

  lemma BoundedGap(x: nat, u: real, v: real, p: real, q: real)
    requires D < p && Abs(u - v) * ((p - D) * p) <= (p + q) * D
    ensures Abs(Exact(x, u) - Exact(x, v)) <= CrossBound(x as real, p, q)
  {
    AbsScale(x as real, u, v);
    MulLess(0.0, p - D, p);
    Scale(x as real, Abs(u - v), (p - D) * p, (p + q) * D);
    Swap(p + q, D);
    AtMostQuotient(x as real * Abs(u - v), x as real * (D * (p + q)), (p - D) * p);
  }

  lemma CrossAmount(t: Table, a: string, b: string, day: int, x: int, s: Rate, r: Rate)
    requires t.base != [] && RateOf(t, a, day) == Some(s) && RateOf(t, b, day) == Some(r) && s.rate != 0.0
    ensures Cross(t, a, b, day, x) == Converted(Round(Exact(x, r.rate / s.rate)), r.rate / s.rate, Min(s.day, r.day))
  {
    hide RateOf, Round;
  }

  lemma PairConverts(t: Table, a: string, b: string, day: int, x: nat, p: real, d: int, q: real, e: int)
    requires t.base != [] && RateOf(t, a, day) == Some(Rate(Stored(p), d)) && RateOf(t, b, day) == Some(Rate(Stored(q), e))
    requires 0.0 < q && Stored(p) != 0.0
    ensures var o := Cross(t, a, b, day, x);
      && o.Converted? && o.rateUsed == Stored(q) / Stored(p) && o.rateDay == Min(d, e)
      && (D < p ==> Abs(o.amountMinor as real - Exact(x, q / p)) <= 0.5 + CrossBound(x as real, p, q))
  {
    hide Cross, RateOf, Exact, CrossBound, Stored, Round;
    CrossAmount(t, a, b, day, x, Rate(Stored(p), d), Rate(Stored(q), e));
    if D < p {
      StoredClose(p);
      StoredClose(q);
      CrossGap(x, p, q, Stored(p), Stored(q));
      RoundNear(Exact(x, Stored(q) / Stored(p)), Exact(x, q / p), CrossBound(x as real, p, q));
    }
  }

  /**
   * From publication to conversion, for any provider that publishes in order and any two currencies:
   * converting as of a day the table has reached works exactly when both are listed by then and the
   * source rate does not store as zero; the rate used and its day are those of the newest listings,
   * and the amount lands within half a unit and the cross bound of x times the published cross rate.
   */
  lemma PublishedCross(src: Source, es: seq<Event>, t: Table, a: string, b: string, day: int, x: nat)
    requires InOrder(src, Start, es) && t.rates == Run(src, Start, es).store && t.base != [] && Upper(t.base) == BaseOf(src)
    requires a == Upper(a) && b == Upper(b) && day <= Bound(t.rates)
    ensures var (feed, o) := (Run(src, Start, es).feed, Cross(t, a, b, day, x));
      && (o.Converted? <==>
            && (exists d, p :: Listed(src, feed, a, day, d, p) && Stored(p) != 0.0)
            && (exists e, q :: Listed(src, feed, b, day, e, q)))
      && (forall d, p, e, q | Listed(src, feed, a, day, d, p) && Listed(src, feed, b, day, e, q) && Stored(p) != 0.0 ::
            && o.Converted? && o.rateUsed == Stored(q) / Stored(p) && o.rateDay == Min(d, e)
            && (D < p ==> Abs(o.amountMinor as real - Exact(x, q / p)) <= 0.5 + CrossBound(x as real, p, q)))
  {
    hide Run, InOrder, Cross, RateOf, Exact, CrossBound, Listed, Bound, Stored, Upper, Complete, Round;
    var w := Run(src, Start, es);
    StartComplete(src);
    RunComplete(src, Start, es);
    RateIsListed(src, w, t, a, day);
    RateIsListed(src, w, t, b, day);
    CrossReports(t, a, b, day, x);
    forall d, p, e, q | Listed(src, w.feed, a, day, d, p) && Listed(src, w.feed, b, day, e, q) && Stored(p) != 0.0
      ensures var o := Cross(t, a, b, day, x);
        && o.Converted? && o.rateUsed == Stored(q) / Stored(p) && o.rateDay == Min(d, e)
        && (D < p ==> Abs(o.amountMinor as real - Exact(x, q / p)) <= 0.5 + CrossBound(x as real, p, q))
    {
      ListedPositive(src, w.feed, b, day, e, q);
      PairConverts(t, a, b, day, x, p, d, q, e);
    }
  }

  /**
   * The same for convertOne: 'source' and 'target' are the currencies it settles on from the request
   * and the defaults, and the table is the one of the provider it settles on.
   */
  lemma PublishedConvertOne(src: Source, es: seq<Event>, tables: map<string, Table>, defaults: Defaults, input: Input,
                            source: string, target: string, key: string)
    requires source == Upper(if input.currency != "" then input.currency else "EUR")
    requires target == Upper(if input.toCurrency != "" then input.toCurrency else if defaults.currency != "" then defaults.currency else "EUR")
    requires key == Lower(if input.providerKey != "" then input.providerKey else if defaults.providerKey != "" then defaults.providerKey else "ecb")
    requires source != target && key in tables && 0.0 <= input.amountMinor
    requires InOrder(src, Start, es) && tables[key].rates == Run(src, Start, es).store
    requires tables[key].base != [] && Upper(tables[key].base) == BaseOf(src) && input.day <= Bound(tables[key].rates)
    ensures var (feed, r) := (Run(src, Start, es).feed, ConvertOne(tables, defaults, input));
      && 0 <= r.original
      && (r.outcome.Converted? <==>
            && (exists d, p :: Listed(src, feed, source, input.day, d, p) && Stored(p) != 0.0)
            && (exists e, q :: Listed(src, feed, target, input.day, e, q)))
      && (forall d, p, e, q | Listed(src, feed, source, input.day, d, p) && Listed(src, feed, target, input.day, e, q) && Stored(p) != 0.0 ::
            && r.outcome.Converted? && r.outcome.rateUsed == Stored(q) / Stored(p) && r.outcome.rateDay == Min(d, e)
            && (D < p ==> Abs(r.outcome.amountMinor as real - Exact(r.original, q / p)) <= 0.5 + CrossBound(r.original as real, p, q)))
  {
    hide Run, InOrder, Cross, Listed, Bound, Stored, Upper, Lower, Exact, CrossBound;
    var r := ConvertOne(tables, defaults, input);
    UpperTwice(if input.currency != "" then input.currency else "EUR");
    UpperTwice(if input.toCurrency != "" then input.toCurrency else if defaults.currency != "" then defaults.currency else "EUR");
    assert 0 <= r.original;
    PublishedCross(src, es, tables[key], source, target, input.day, r.original);
  }
}
