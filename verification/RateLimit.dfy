/**
 * The request limiter (rate-limit.guard.ts). Its comment calls the window sliding; the code opens
 * a fixed window at the first request after the previous one expired, which gives what a sliding
 * window would for a limit of 1 or a window of one millisecond only (SlidesExactlyWhen).
 */
module RateLimit {
  import opened Prelude

  datatype Bucket = Bucket(count: nat, resetAt: int)

  /** One request: its key and the clock in milliseconds. */
  datatype Request = Request(key: string, now: int)

  type Buckets = map<string, Bucket>

  /** The key of a request: the caller's tenant and API key or user, else the address. */
  datatype Caller = User(tenantId: string, apiKeyId: Option<string>, id: string)
                  | Anonymous(ip: Option<string>, forwardedFor: Option<string>)

  function KeyOf(caller: Caller): string {
    match caller
    case User(tenantId, apiKeyId, id) => tenantId + ":" + if apiKeyId.Some? then apiKeyId.value else id
    case Anonymous(ip, forwardedFor) =>
      "ip:" + if ip.Some? then ip.value else if forwardedFor.Some? then forwardedFor.value else "anon"
  }

  datatype Verdict = Admitted | Refused(retryAfter: int)

  /** ceil(ms / 1000). */
  function CeilSeconds(ms: int): int {
    -((-ms) / 1000)
  }

  class Guard {
    const windowMs: int
    const max: int
    var buckets: Buckets

    constructor (windowMs: int, max: int)
      ensures this.windowMs == windowMs && this.max == max && buckets == map[]
    {
      this.windowMs, this.max, buckets := windowMs, max, map[];
    }

    /** canActivate, for a finite limit; a limit of zero or less switches the guard off. */
    method CanActivate(caller: Caller, now: int) returns (verdict: Verdict)
      modifies this
      ensures max <= 0 ==> verdict == Admitted && buckets == old(buckets)
      ensures 0 < max ==> (verdict.Admitted? <==> Allows(old(buckets), windowMs, max, Request(KeyOf(caller), now)))
      ensures 0 < max ==> buckets == Touch(old(buckets), windowMs, Request(KeyOf(caller), now))
      ensures verdict.Refused? ==>
        verdict.retryAfter == Max(1, CeilSeconds(buckets[KeyOf(caller)].resetAt - now))
    {
      if max <= 0 {
        return Admitted;
      }
      var key := KeyOf(caller);
      if key !in buckets || buckets[key].resetAt <= now {
        buckets := buckets[key := Bucket(0, now + windowMs)];
      }
      var bucket := buckets[key];
      bucket := bucket.(count := bucket.count + 1);
      buckets := buckets[key := bucket];
      if bucket.count > max {
        return Refused(Max(1, CeilSeconds(bucket.resetAt - now)));
      }
      verdict := Admitted;
    }
  }

  // ----- the limiter as a step on its buckets -----

  predicate Live(b: Buckets, r: Request) {
    r.key in b && r.now < b[r.key].resetAt
  }

  function Touch(b: Buckets, window: int, r: Request): Buckets {
    b[r.key := if Live(b, r) then Bucket(b[r.key].count + 1, b[r.key].resetAt) else Bucket(1, r.now + window)]
  }

  function Count(b: Buckets, key: string): nat {
    if key in b then b[key].count else 0
  }

  predicate Allows(b: Buckets, window: int, max: int, r: Request) {
    Count(Touch(b, window, r), r.key) <= max
  }

  /** The buckets after a trace of requests. */
  function After(window: int, trace: seq<Request>): Buckets {
    if trace == [] then map[] else Touch(After(window, trace[..|trace| - 1]), window, trace[|trace| - 1])
  }

  /** Whether the i-th request of a trace is let through. */
  predicate Passes(window: int, max: int, trace: seq<Request>, i: nat)
    requires i < |trace|
  {
    Allows(After(window, trace[..i]), window, max, trace[i])
  }

  predicate Ordered(trace: seq<Request>) {
    forall i, j | 0 <= i < j < |trace| :: trace[i].now <= trace[j].now
  }

  // ----- keys do not interfere -----

  /** The requests of one key. */
  function Only(trace: seq<Request>, key: string): seq<Request> {
    if trace == [] then []
    else
      var r := trace[|trace| - 1];
      Only(trace[..|trace| - 1], key) + if r.key == key then [r] else []
  }

  lemma {:induction false} OnlyAfter(window: int, trace: seq<Request>, key: string)
    ensures key in After(window, trace) <==> key in After(window, Only(trace, key))
    ensures key in After(window, trace) ==> After(window, trace)[key] == After(window, Only(trace, key))[key]
  {
    if trace != [] {
      OnlyAfter(window, trace[..|trace| - 1], key);
      var r := trace[|trace| - 1];
      if r.key == key {
        var only := Only(trace, key);
        assert only[..|only| - 1] == Only(trace[..|trace| - 1], key) && only[|only| - 1] == r;
      } else {
        assert Only(trace, key) == Only(trace[..|trace| - 1], key);
      }
    }
  }

  /** Each key is limited as if its requests were the only ones. */
  lemma KeysIndependent(window: int, max: int, trace: seq<Request>, i: nat)
    requires i < |trace|
    ensures var own := Only(trace[..i + 1], trace[i].key);
      0 < |own| && own[|own| - 1] == trace[i] && (Passes(window, max, trace, i) <==> Passes(window, max, own, |own| - 1))
  {
    var own := Only(trace[..i + 1], trace[i].key);
    assert trace[..i + 1][..i] == trace[..i];
    assert own[..|own| - 1] == Only(trace[..i], trace[i].key);
    OnlyAfter(window, trace[..i], trace[i].key);
  }

  // ----- windows of one key -----

  /** All requests carry the key and come in clock order. */
  predicate OneKey(trace: seq<Request>, key: string) {
    Ordered(trace) && forall r | r in trace :: r.key == key
  }

  /**
   * Where the window of the i-th request of a one-key trace opened: at the first request, and
   * again at each request that comes `window` or more after the last opening.
   */
  function Opening(window: int, trace: seq<Request>, i: nat): (o: nat)
    requires i < |trace|
    ensures o <= i
  {
    if i == 0 then 0
    else
      var o := Opening(window, trace, i - 1);
      if trace[i].now < trace[o].now + window then o else i
  }

  lemma {:induction false} OpeningPrefix(window: int, trace: seq<Request>, n: nat, i: nat)
    requires i < n <= |trace|
    ensures Opening(window, trace[..n], i) == Opening(window, trace, i)
  {
    if 0 < i { OpeningPrefix(window, trace, n, i - 1); }
  }

  /** The map holds the current window: when it ends and how many requests came in it. */
  lemma {:induction false} BucketIsWindow(window: int, trace: seq<Request>, key: string)
    requires trace != [] && 0 < window && forall r | r in trace :: r.key == key
    ensures var last := |trace| - 1;
      var o := Opening(window, trace, last);
      key in After(window, trace) && After(window, trace)[key] == Bucket(last - o + 1, trace[o].now + window)
  {
    var last := |trace| - 1;
    if 0 < last {
      var init := trace[..last];
      assert forall r | r in init :: r in trace;
      BucketIsWindow(window, init, key);
      OpeningPrefix(window, trace, last, last - 1);
    }
  }

  /** The rule in terms of the trace alone: at most max requests, admitted or not, since the window opened. */
  lemma PassesByWindow(window: int, max: int, trace: seq<Request>, key: string, i: nat)
    requires i < |trace| && 0 < window && forall r | r in trace :: r.key == key
    ensures Passes(window, max, trace, i) <==> i - Opening(window, trace, i) < max
  {
    hide Opening, Touch;
    var upTo := trace[..i + 1];
    assert forall r | r in upTo :: r in trace;
    assert upTo[..i] == trace[..i];
    BucketIsWindow(window, upTo, key);
    OpeningPrefix(window, trace, i + 1, i);
  }

  // ----- counting admissions in an interval -----

  /** How many requests of a key a trace lets through in the closed interval [from, to]. */
  function LetThrough(window: int, max: int, trace: seq<Request>, key: string, from: int, to: int): nat {
    if trace == [] then 0
    else
      var (init, r) := (trace[..|trace| - 1], trace[|trace| - 1]);
      LetThrough(window, max, init, key, from, to)
      + if r.key == key && from <= r.now <= to && Allows(After(window, init), window, max, r) then 1 else 0
  }

  /** Other keys' requests do not count and do not matter. */
  lemma {:induction false} LetThroughOnly(window: int, max: int, trace: seq<Request>, key: string, from: int, to: int)
    ensures LetThrough(window, max, trace, key, from, to) == LetThrough(window, max, Only(trace, key), key, from, to)
  {
    if trace != [] {
      var (init, r) := (trace[..|trace| - 1], trace[|trace| - 1]);
      LetThroughOnly(window, max, init, key, from, to);
      if r.key == key {
        var only := Only(trace, key);
        assert only[..|only| - 1] == Only(init, key) && only[|only| - 1] == r;
        OnlyAfter(window, init, key);
      } else {
        assert Only(trace, key) == Only(init, key);
      }
    }
  }

  predicate Counted(window: int, max: int, trace: seq<Request>, i: nat, from: int, to: int)
    requires i < |trace|
  {
    from <= trace[i].now <= to && Passes(window, max, trace, i)
  }

  /** If what counts lies in two index ranges, their lengths bound the count. */
  lemma {:induction false} CountInRanges(window: int, max: int, trace: seq<Request>, n: nat, key: string, from: int, to: int,
                                         a: nat, b: nat, c: nat, d: nat)
    requires n <= |trace| && a <= b && c <= d
    requires forall i: nat | i < n && Counted(window, max, trace, i, from, to) :: a <= i < b || c <= i < d
    ensures LetThrough(window, max, trace[..n], key, from, to)
      <= Max(0, Min(b, n) - a) + Max(0, Min(d, n) - c)
  {
    if 0 < n {
      assert trace[..n][..n - 1] == trace[..n - 1];
      CountInRanges(window, max, trace, n - 1, key, from, to, a, b, c, d);
      assert Counted(window, max, trace, n - 1, from, to) ==> a <= n - 1 < b || c <= n - 1 < d;
    }
  }

  /** The first index from `f` on whose window is no longer that of `f`. */
  lemma NextOpening(window: int, trace: seq<Request>, f: nat) returns (p: nat)
    requires f < |trace|
    ensures f < p <= |trace|
    ensures forall i | f <= i < p :: Opening(window, trace, i) == Opening(window, trace, f)
    ensures p < |trace| ==>
      Opening(window, trace, p) == p && trace[Opening(window, trace, f)].now + window <= trace[p].now
  {
    p := f + 1;
    while p < |trace| && Opening(window, trace, p) == Opening(window, trace, f)
      invariant f < p <= |trace|
      invariant forall i | f <= i < p :: Opening(window, trace, i) == Opening(window, trace, f)
    {
      p := p + 1;
    }
  }

  /** The first index at or after a time. */
  lemma FirstFrom(trace: seq<Request>, from: int) returns (f: nat)
    requires Ordered(trace)
    ensures f <= |trace|
    ensures forall i | 0 <= i < |trace| :: i < f <==> trace[i].now < from
  {
    f := 0;
    while f < |trace| && trace[f].now < from
      invariant f <= |trace| && forall i | 0 <= i < f :: trace[i].now < from
    {
      f := f + 1;
    }
  }

  /** A window is opened no later than its requests, and holds them only while it lasts. */
  lemma {:induction false} OpeningLive(window: int, trace: seq<Request>, i: nat)
    requires i < |trace|
    ensures Opening(window, trace, i) == i || trace[i].now < trace[Opening(window, trace, i)].now + window
    ensures Opening(window, trace, Opening(window, trace, i)) == Opening(window, trace, i)
  {
    if 0 < i { OpeningLive(window, trace, i - 1); }
  }

  lemma CountedByWindow(window: int, max: int, trace: seq<Request>, key: string, i: nat, from: int, to: int)
    requires i < |trace| && 0 < window && forall r | r in trace :: r.key == key
    ensures Counted(window, max, trace, i, from, to) <==>
      from <= trace[i].now <= to && i - Opening(window, trace, i) < max
  {
    PassesByWindow(window, max, trace, key, i);
  }

  /** The most that fits between `from` and `to`: an interval shorter than the window is one that is open at an end. */
  function Capacity(window: int, max: int, from: int, to: int): int {
    if to - from == window then 2 * max else if window == 1 then max else 2 * max - 1
  }

  /**
   * A closed interval as long as the window lets through at most 2 * max requests of a key, a
   * half-open one at most 2 * max - 1, or max for a window of one millisecond.
   */
  lemma OneKeyBound(window: int, max: int, trace: seq<Request>, key: string, from: int, to: int)
    requires 0 < window && 1 <= max && OneKey(trace, key) && to - from <= window
    ensures LetThrough(window, max, trace, key, from, to) <= Capacity(window, max, from, to)
  {
    hide Counted, Passes, LetThrough, Opening;
    var n := |trace|;
    assert trace[..n] == trace;
    var f := FirstFrom(trace, from);
    if f == n {
      forall i: nat | i < n ensures !Counted(window, max, trace, i, from, to) {
        CountedByWindow(window, max, trace, key, i, from, to);
      }
      CountInRanges(window, max, trace, n, key, from, to, 0, 0, 0, 0);
      return;
    }
    var o := Opening(window, trace, f);
    OpeningLive(window, trace, f);
    var p := NextOpening(window, trace, f);
    var q := n;
    if p < n { q := NextOpening(window, trace, p); }
    var second := if p < n && (f != o || to - from == window) then max else 0;
    forall i: nat | i < n && Counted(window, max, trace, i, from, to)
      ensures f <= i < o + max || p <= i < p + second
    {
      CountedByWindow(window, max, trace, key, i, from, to);
      if p <= i {
        assert trace[p].now <= trace[i].now <= to;
      }
    }
    CountInRanges(window, max, trace, n, key, from, to, f, Max(f, o + max), p, p + second);
  }

  /** The bound for every trace of many keys. */
  lemma IntervalBound(window: int, max: int, trace: seq<Request>, key: string, from: int, to: int)
    requires 0 < window && 1 <= max && Ordered(trace) && to - from <= window
    ensures LetThrough(window, max, trace, key, from, to) <= Capacity(window, max, from, to)
  {
    LetThroughOnly(window, max, trace, key, from, to);
    OnlyIsOneKey(trace, key);
    OneKeyBound(window, max, Only(trace, key), key, from, to);
  }

  lemma {:induction false} OnlyIsOneKey(trace: seq<Request>, key: string)
    requires Ordered(trace)
    ensures OneKey(Only(trace, key), key)
    ensures forall r | r in Only(trace, key) :: r in trace
  {
    if trace != [] {
      var init := trace[..|trace| - 1];
      OnlyIsOneKey(init, key);
      assert forall r | r in init :: r.now <= trace[|trace| - 1].now;
    }
  }

  // ----- both bounds are reached -----

  function Burst(key: string, now: int, n: nat): seq<Request> {
    seq(n, _ => Request(key, now))
  }

  /** The first max requests fall in one window, the others in the next. */
  lemma {:induction false} TwoWindows(window: int, trace: seq<Request>, m: nat, i: nat)
    requires i < |trace| && 0 < m && 0 < window
    requires forall j | 0 <= j < m && j < |trace| :: trace[j].now < trace[0].now + window
    requires forall j | m <= j < |trace| :: trace[0].now + window <= trace[j].now < trace[m].now + window
    ensures Opening(window, trace, i) == if i < m then 0 else m
  {
    if 0 < i { TwoWindows(window, trace, m, i - 1); }
  }

  lemma {:induction false} AllCount(window: int, max: int, trace: seq<Request>, key: string, n: nat, from: int, to: int, lo: nat)
    requires lo <= n <= |trace|
    requires forall i: nat | i < lo :: trace[i].now < from
    requires forall i: nat | lo <= i < n :: trace[i].key == key && Counted(window, max, trace, i, from, to)
    ensures LetThrough(window, max, trace[..n], key, from, to) == n - lo
  {
    if 0 < n {
      assert trace[..n][..n - 1] == trace[..n - 1];
      if lo == n {
        AllCount(window, max, trace, key, n - 1, from, to, lo - 1);
      } else {
        AllCount(window, max, trace, key, n - 1, from, to, lo);
      }
    }
  }

  /** 2 * max in a closed interval: a full burst as a window opens, and one as it ends. */
  lemma ClosedBoundReached(window: int, max: int, key: string)
    requires 0 < window && 1 <= max
    ensures var trace := Burst(key, 0, max) + Burst(key, window, max);
      Ordered(trace) && LetThrough(window, max, trace, key, 0, window) == 2 * max
  {
    hide Counted, LetThrough, Opening;
    var trace := Burst(key, 0, max) + Burst(key, window, max);
    forall i: nat | i < |trace|
      ensures Counted(window, max, trace, i, 0, window)
    {
      TwoWindows(window, trace, max, i);
      CountedByWindow(window, max, trace, key, i, 0, window);
    }
    AllCount(window, max, trace, key, |trace|, 0, window, 0);
    assert trace[..|trace|] == trace;
  }

  /** 2 * max - 1 in a half-open interval: all but one of a window at its end, then the next window's. */
  lemma HalfOpenBoundReached(window: int, max: int, key: string)
    requires 1 < window && 1 <= max
    ensures var trace := Burst(key, 0, 1) + Burst(key, window - 1, max - 1) + Burst(key, window, max);
      Ordered(trace) && LetThrough(window, max, trace, key, window - 1, 2 * window - 2) == 2 * max - 1
  {
    hide Counted, LetThrough, Opening;
    var trace := Burst(key, 0, 1) + Burst(key, window - 1, max - 1) + Burst(key, window, max);
    var (from, to) := (window - 1, 2 * window - 2);
    forall i: nat | 1 <= i < |trace|
      ensures Counted(window, max, trace, i, from, to)
    {
      TwoWindows(window, trace, max, i);
      CountedByWindow(window, max, trace, key, i, from, to);
    }
    AllCount(window, max, trace, key, |trace|, from, to, 1);
    assert trace[..|trace|] == trace;
  }

  /**
   * When the window slides after all. A sliding limiter lets through at most max requests of a key
   * in every half-open interval as long as the window; this one does so exactly when max is 1 or
   * the window is one millisecond.
   */
  lemma SlidesExactlyWhen(window: int, max: int)
    requires 0 < window && 1 <= max
    ensures (forall trace, key, from, to | Ordered(trace) && to - from < window ::
        LetThrough(window, max, trace, key, from, to) <= max) <==> max == 1 || window == 1
  {
    if max == 1 || window == 1 {
      forall trace, key, from, to | Ordered(trace) && to - from < window
        ensures LetThrough(window, max, trace, key, from, to) <= max
      {
        IntervalBound(window, max, trace, key, from, to);
      }
    } else {
      HalfOpenBoundReached(window, max, "");
    }
  }

  // ----- who shares a window -----

  /** Signed-in callers are the same by tenant and by API key, if they use one, else user; anonymous ones by address. */
  predicate SameCaller(a: Caller, b: Caller) {
    match (a, b)
    case (User(s, k, i), User(t, l, j)) => s == t && (if k.Some? then k.value else i) == (if l.Some? then l.value else j)
    case (Anonymous(p, f), Anonymous(q, g)) =>
      (if p.Some? then p else if f.Some? then f else Some("anon")) == (if q.Some? then q else if g.Some? then g else Some("anon"))
    case _ => false
  }

  /** A tenant's id has no colon and is not "ip". */
  predicate PlainTenant(a: Caller) {
    a.User? ==> ':' !in a.tenantId && a.tenantId != "ip"
  }

  /** The key before and after the first colon. */
  function FirstColon(s: string): nat {
    if s == [] || s[0] == ':' then 0 else 1 + FirstColon(s[1..])
  }

  lemma {:induction false} FirstColonAfter(name: string, rest: string)
    requires ':' !in name
    ensures FirstColon(name + ":" + rest) == |name|
  {
    var s := name + ":" + rest;
    if name != [] {
      assert s[1..] == name[1..] + ":" + rest;
      FirstColonAfter(name[1..], rest);
    }
  }

  lemma SplitKeys(s: string, x: string, t: string, y: string)
    requires ':' !in s && ':' !in t
    ensures s + ":" + x == t + ":" + y <==> s == t && x == y
  {
    var (a, b) := (s + ":" + x, t + ":" + y);
    FirstColonAfter(s, x);
    FirstColonAfter(t, y);
    assert a[..|s|] == s && a[|s| + 1..] == x && b[..|t|] == t && b[|t| + 1..] == y;
  }

  /** Callers share a window exactly when they are the same caller. */
  lemma KeysTellCallers(a: Caller, b: Caller)
    requires PlainTenant(a) && PlainTenant(b)
    ensures KeyOf(a) == KeyOf(b) <==> SameCaller(a, b)
  {
    var s, x := Parts(a);
    var t, y := Parts(b);
    SplitKeys(s, x, t, y);
  }

  lemma Parts(a: Caller) returns (name: string, rest: string)
    requires PlainTenant(a)
    ensures ':' !in name && KeyOf(a) == name + ":" + rest
    ensures a.User? ==> name == a.tenantId && name != "ip" && rest == if a.apiKeyId.Some? then a.apiKeyId.value else a.id
    ensures a.Anonymous? ==>
      name == "ip" && rest == if a.ip.Some? then a.ip.value else if a.forwardedFor.Some? then a.forwardedFor.value else "anon"
  {
    match a
    case User(tenantId, apiKeyId, id) => name, rest := tenantId, if apiKeyId.Some? then apiKeyId.value else id;
    case Anonymous(ip, forwardedFor) =>
      name, rest := "ip", if ip.Some? then ip.value else if forwardedFor.Some? then forwardedFor.value else "anon";
      assert "ip" + ":" == "ip:";
  }

  datatype Visit = Visit(caller: Caller, now: int)

  function Requests(visits: seq<Visit>): seq<Request> {
    seq(|visits|, i requires 0 <= i < |visits| => Request(KeyOf(visits[i].caller), visits[i].now))
  }

  predicate PlainTenants(visits: seq<Visit>) {
    forall v | v in visits :: PlainTenant(v.caller)
  }

  /** The visits of one caller. */
  function VisitsOf(visits: seq<Visit>, caller: Caller): seq<Visit> {
    if visits == [] then []
    else
      var v := visits[|visits| - 1];
      VisitsOf(visits[..|visits| - 1], caller) + if SameCaller(v.caller, caller) then [v] else []
  }

  lemma {:induction false} OnlyVisits(visits: seq<Visit>, caller: Caller)
    requires PlainTenants(visits) && PlainTenant(caller)
    ensures Only(Requests(visits), KeyOf(caller)) == Requests(VisitsOf(visits, caller))
  {
    hide KeyOf, SameCaller, PlainTenant;
    if visits != [] {
      var (init, v) := (visits[..|visits| - 1], visits[|visits| - 1]);
      assert v in visits && forall u | u in init :: u in visits;
      OnlyVisits(init, caller);
      assert Requests(visits)[..|visits| - 1] == Requests(init);
      KeysTellCallers(v.caller, caller);
    }
  }

  /** Each caller is decided upon as if nobody else called. */
  lemma CallersIndependent(window: int, max: int, visits: seq<Visit>, i: nat)
    requires i < |visits| && PlainTenants(visits)
    ensures var own := VisitsOf(visits[..i + 1], visits[i].caller);
      && 0 < |own|
      && (Passes(window, max, Requests(visits), i) <==> Passes(window, max, Requests(own), |own| - 1))
  {
    hide Passes, KeyOf, SameCaller, PlainTenant;
    var upTo := visits[..i + 1];
    assert visits[i] in visits && forall v | v in upTo :: v in visits;
    KeysIndependent(window, max, Requests(visits), i);
    OnlyVisits(upTo, visits[i].caller);
    assert Requests(visits)[..i + 1] == Requests(upTo);
  }

  /** How many of a caller's visits are let through from `from` to `to`. */
  function VisitsLetThrough(window: int, max: int, visits: seq<Visit>, caller: Caller, from: int, to: int): nat {
    if visits == [] then 0
    else
      var last := |visits| - 1;
      VisitsLetThrough(window, max, visits[..last], caller, from, to)
      + if SameCaller(visits[last].caller, caller) && from <= visits[last].now <= to && Passes(window, max, Requests(visits), last) then 1 else 0
  }

  lemma {:induction false} VisitsCounted(window: int, max: int, visits: seq<Visit>, caller: Caller, from: int, to: int)
    requires PlainTenants(visits) && PlainTenant(caller)
    ensures VisitsLetThrough(window, max, visits, caller, from, to) == LetThrough(window, max, Requests(visits), KeyOf(caller), from, to)
  {
    hide KeyOf, SameCaller, PlainTenant, Allows;
    if visits != [] {
      var last := |visits| - 1;
      var init := visits[..last];
      assert visits[last] in visits && forall u | u in init :: u in visits;
      VisitsCounted(window, max, init, caller, from, to);
      assert Requests(visits)[..last] == Requests(init);
      KeysTellCallers(visits[last].caller, caller);
    }
  }

  /** The interval bound per caller. */
  lemma CallerBound(window: int, max: int, visits: seq<Visit>, caller: Caller, from: int, to: int)
    requires 0 < window && 1 <= max && to - from <= window && PlainTenants(visits) && PlainTenant(caller)
    requires forall i, j | 0 <= i < j < |visits| :: visits[i].now <= visits[j].now
    ensures VisitsLetThrough(window, max, visits, caller, from, to)
      <= if to - from == window then 2 * max else if window == 1 then max else 2 * max - 1
  {
    VisitsCounted(window, max, visits, caller, from, to);
    IntervalBound(window, max, Requests(visits), KeyOf(caller), from, to);
  }

  // ----- the answer to a refused caller -----

  /** Whoever waits the seconds a refusal names, and sends nothing meanwhile, is let through. */
  lemma RetryAfterHolds(b: Buckets, window: int, max: int, r: Request, later: int)
    requires 1 <= max && !Allows(b, window, max, r)
    requires r.now + 1000 * Max(1, CeilSeconds(Touch(b, window, r)[r.key].resetAt - r.now)) <= later
    ensures Allows(Touch(b, window, r), window, max, Request(r.key, later))
  {
  }
}
