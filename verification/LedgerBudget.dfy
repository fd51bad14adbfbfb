/**
 * The budget cells of the in-memory ledger prototype: the year-to-date report by department, month
 * and category (reporting.js), and the re-keying of cells when an entity is renamed (modal.js).
 */
module LedgerBudget {
  import opened Prelude

  type Budget = map<string, real>

  /** `${entity}|${department}|${month}`. */
  function CellKey(entity: string, dept: string, month: nat): string {
    entity + "|" + dept + "|" + Decimal(month)
  }

  function Cell(b: Budget, entity: string, dept: string, month: nat): real {
    var k := CellKey(entity, dept, month);
    if k in b then b[k] else 0.0
  }

  /** A cell reads what was last entered under its key, or nothing; entering one leaves the others. */
  lemma CellReads(b: Budget, entity: string, dept: string, month: nat, amount: real, other: string, otherDept: string, otherMonth: nat)
    ensures var k := entity + "|" + dept + "|" + Decimal(month);
      && Cell(b[k := amount], entity, dept, month) == amount
      && (k !in b ==> Cell(b, entity, dept, month) == 0.0)
      && (other + "|" + otherDept + "|" + Decimal(otherMonth) != k ==>
            Cell(b[k := amount], other, otherDept, otherMonth) == Cell(b, other, otherDept, otherMonth))
  {
  }

  // ----- the sums the report makes -----

  /** One entity and department, the first n months. */
  function Months(b: Budget, e: string, d: string, n: nat): real {
    if n == 0 then 0.0 else Months(b, e, d, n - 1) + Cell(b, e, d, n - 1)
  }

  function ByDept(b: Budget, es: seq<string>, d: string, n: nat): real {
    if es == [] then 0.0 else ByDept(b, es[..|es| - 1], d, n) + Months(b, es[|es| - 1], d, n)
  }

  /** One entity and month, all departments. */
  function Depts(b: Budget, e: string, ds: seq<string>, m: nat): real {
    if ds == [] then 0.0 else Depts(b, e, ds[..|ds| - 1], m) + Cell(b, e, ds[|ds| - 1], m)
  }

  function ByMonth(b: Budget, es: seq<string>, ds: seq<string>, m: nat): real {
    if es == [] then 0.0 else ByMonth(b, es[..|es| - 1], ds, m) + Depts(b, es[|es| - 1], ds, m)
  }

  function Sum(xs: seq<real>): real {
    if xs == [] then 0.0 else Sum(xs[..|xs| - 1]) + xs[|xs| - 1]
  }

  /** The department rows: entities outside, months inside. */
  method DeptRows(b: Budget, es: seq<string>, ds: seq<string>, curMonth: nat) returns (rows: seq<real>)
    ensures |rows| == |ds| && forall i | 0 <= i < |ds| :: rows[i] == ByDept(b, es, ds[i], curMonth + 1)
  {
    rows := [];
    for i := 0 to |ds|
      invariant |rows| == i && forall j | 0 <= j < i :: rows[j] == ByDept(b, es, ds[j], curMonth + 1)
    {
      var budget := 0.0;
      for k := 0 to |es|
        invariant budget == ByDept(b, es[..k], ds[i], curMonth + 1)
      {
        for m := 0 to curMonth + 1
          invariant budget == ByDept(b, es[..k], ds[i], curMonth + 1) + Months(b, es[k], ds[i], m)
        {
          budget := budget + Cell(b, es[k], ds[i], m);
        }
        assert es[..k + 1][..k] == es[..k];
      }
      assert es[..|es|] == es;
      rows := rows + [budget];
    }
  }

  /** The month rows: entities outside, departments inside. */
  method MonthRows(b: Budget, es: seq<string>, ds: seq<string>, curMonth: nat) returns (rows: seq<real>)
    ensures |rows| == curMonth + 1 && forall m | 0 <= m <= curMonth :: rows[m] == ByMonth(b, es, ds, m)
  {
    rows := [];
    for m := 0 to curMonth + 1
      invariant |rows| == m && forall j | 0 <= j < m :: rows[j] == ByMonth(b, es, ds, j)
    {
      var budget := 0.0;
      for k := 0 to |es|
        invariant budget == ByMonth(b, es[..k], ds, m)
      {
        for i := 0 to |ds|
          invariant budget == ByMonth(b, es[..k], ds, m) + Depts(b, es[k], ds[..i], m)
        {
          assert ds[..i + 1][..i] == ds[..i];
          budget := budget + Cell(b, es[k], ds[i], m);
        }
        assert ds[..|ds|] == ds && es[..k + 1][..k] == es[..k];
      }
      assert es[..|es|] == es;
      rows := rows + [budget];
    }
  }

  /** One month of one department, over the entities. */
  function Slice(b: Budget, es: seq<string>, d: string, m: nat): real {
    if es == [] then 0.0 else Slice(b, es[..|es| - 1], d, m) + Cell(b, es[|es| - 1], d, m)
  }

  lemma {:induction false} ByDeptNext(b: Budget, es: seq<string>, d: string, n: nat)
    ensures ByDept(b, es, d, n + 1) == ByDept(b, es, d, n) + Slice(b, es, d, n)
    ensures ByDept(b, es, d, 0) == 0.0
  {
    if es != [] { ByDeptNext(b, es[..|es| - 1], d, n); }
  }

  lemma {:induction false} ByMonthNext(b: Budget, es: seq<string>, ds: seq<string>, d: string, m: nat)
    ensures ByMonth(b, es, ds + [d], m) == ByMonth(b, es, ds, m) + Slice(b, es, d, m)
    ensures ByMonth(b, es, [], m) == 0.0
  {
    if es != [] {
      ByMonthNext(b, es[..|es| - 1], ds, d, m);
      assert (ds + [d])[..|ds|] == ds;
    }
  }

  function DeptTotal(b: Budget, es: seq<string>, ds: seq<string>, n: nat): real {
    if ds == [] then 0.0 else DeptTotal(b, es, ds[..|ds| - 1], n) + ByDept(b, es, ds[|ds| - 1], n)
  }

  function MonthTotal(b: Budget, es: seq<string>, ds: seq<string>, n: nat): real {
    if n == 0 then 0.0 else MonthTotal(b, es, ds, n - 1) + ByMonth(b, es, ds, n - 1)
  }

  lemma {:induction false} DeptTotalNext(b: Budget, es: seq<string>, ds: seq<string>, n: nat)
    ensures DeptTotal(b, es, ds, n + 1) == DeptTotal(b, es, ds, n) + ByMonth(b, es, ds, n)
    ensures DeptTotal(b, es, ds, 0) == 0.0
  {
    if ds == [] {
      ByMonthNext(b, es, [], "", n);
    } else {
      var (init, d) := (ds[..|ds| - 1], ds[|ds| - 1]);
      DeptTotalNext(b, es, init, n);
      ByDeptNext(b, es, d, n);
      ByMonthNext(b, es, init, d, n);
      assert ds == init + [d];
    }
  }

  lemma {:induction false} ExchangeTotals(b: Budget, es: seq<string>, ds: seq<string>, n: nat)
    ensures DeptTotal(b, es, ds, n) == MonthTotal(b, es, ds, n)
  {
    DeptTotalNext(b, es, ds, if n == 0 then 0 else n - 1);
    if 0 < n { ExchangeTotals(b, es, ds, n - 1); }
  }

  lemma {:induction false} SumOfDepts(b: Budget, es: seq<string>, ds: seq<string>, n: nat, rows: seq<real>)
    requires |rows| == |ds| && forall i | 0 <= i < |ds| :: rows[i] == ByDept(b, es, ds[i], n)
    ensures Sum(rows) == DeptTotal(b, es, ds, n)
  {
    if ds != [] { SumOfDepts(b, es, ds[..|ds| - 1], n, rows[..|rows| - 1]); }
  }

  lemma {:induction false} SumOfMonths(b: Budget, es: seq<string>, ds: seq<string>, n: nat, rows: seq<real>)
    requires |rows| == n && forall m | 0 <= m < n :: rows[m] == ByMonth(b, es, ds, m)
    ensures Sum(rows) == MonthTotal(b, es, ds, n)
  {
    if 0 < n { SumOfMonths(b, es, ds, n - 1, rows[..n - 1]); }
  }

  /** The two views of the report add up to the same budget. */
  lemma ViewsAgree(b: Budget, es: seq<string>, ds: seq<string>, curMonth: nat, deptRows: seq<real>, monthRows: seq<real>)
    requires |deptRows| == |ds| && forall i | 0 <= i < |ds| :: deptRows[i] == ByDept(b, es, ds[i], curMonth + 1)
    requires |monthRows| == curMonth + 1 && forall m | 0 <= m <= curMonth :: monthRows[m] == ByMonth(b, es, ds, m)
    ensures Sum(deptRows) == Sum(monthRows)
  {
    SumOfDepts(b, es, ds, curMonth + 1, deptRows);
    SumOfMonths(b, es, ds, curMonth + 1, monthRows);
    ExchangeTotals(b, es, ds, curMonth + 1);
  }

  // ----- the category view -----

  function Times(x: real, y: real): real {
    x * y
  }

  function Share(budget: real, actual: real, spend: real): real
    requires spend != 0.0
  {
    budget * (actual / spend)
  }

  /** Each category's share of the budget; a total spend of 0 is replaced by 1. */
  function Shares(actual: seq<real>, budget: real, spend: real): seq<real>
    requires spend != 0.0
  {
    if actual == [] then [] else Shares(actual[..|actual| - 1], budget, spend) + [Share(budget, actual[|actual| - 1], spend)]
  }

  function CategoryBudgets(actual: seq<real>, budget: real): seq<real> {
    Shares(actual, budget, if Sum(actual) == 0.0 then 1.0 else Sum(actual))
  }

  lemma ShareTimes(budget: real, actual: real, spend: real)
    requires spend != 0.0
    ensures Times(Share(budget, actual, spend), spend) == Times(budget, actual)
  {
    assert (actual / spend) * spend == actual;
  }

  lemma TimesSums(x: real, y: real, z: real)
    ensures Times(x + y, z) == Times(x, z) + Times(y, z)
    ensures Times(z, x + y) == Times(z, x) + Times(z, y)
    ensures Times(0.0, z) == Times(z, 0.0) == 0.0
  {
  }

  lemma {:induction false} SharesSum(actual: seq<real>, budget: real, spend: real)
    requires spend != 0.0
    ensures Times(Sum(Shares(actual, budget, spend)), spend) == Times(budget, Sum(actual))
  {
    hide Times, Share;
    TimesSums(0.0, 0.0, spend);
    TimesSums(0.0, 0.0, budget);
    if actual != [] {
      var (init, a) := (actual[..|actual| - 1], actual[|actual| - 1]);
      SharesSum(init, budget, spend);
      var (before, share) := (Shares(init, budget, spend), Share(budget, a, spend));
      assert (before + [share])[..|before|] == before;
      ShareTimes(budget, a, spend);
      TimesSums(Sum(before), share, spend);
      TimesSums(Sum(init), a, budget);
    }
  }

  /** The category budgets add up to the whole budget exactly when something was spent or there is no budget. */
  lemma CategoriesAddUp(actual: seq<real>, budget: real)
    ensures Sum(CategoryBudgets(actual, budget)) == budget <==> Sum(actual) != 0.0 || budget == 0.0
  {
    hide Shares, Sum, Times;
    var spend := if Sum(actual) == 0.0 then 1.0 else Sum(actual);
    SharesSum(actual, budget, spend);
    if Sum(actual) != 0.0 {
      SameMultiple(Sum(CategoryBudgets(actual, budget)), budget, spend);
    } else {
      TimesSums(0.0, 0.0, budget);
      TimesSums(0.0, 0.0, 1.0);
      SameMultiple(Sum(CategoryBudgets(actual, budget)), 0.0, 1.0);
    }
  }

  lemma SameMultiple(x: real, b: real, s: real)
    requires s != 0.0 && Times(x, s) == Times(b, s)
    ensures x == b
  {
    assert (x - b) * s == 0.0;
  }

  // ----- renaming an entity -----

  /** A name without the separator. */
  predicate Plain(name: string) {
    forall ch | ch in name :: ch != '|'
  }

  predicate Under(key: string, entity: string) {
    entity + "|" <= key
  }

  /**
   * What String.replace puts for a replacement text whose pattern is found at the start: `$$` is a
   * dollar sign, `$&` what was found, "$`" what stands before it (nothing), `$'` what follows it.
   */
  function Expand(text: string, found: string, rest: string): string {
    if |text| < 2 then text
    else if text[0] == '$' && text[1] == '$' then "$" + Expand(text[2..], found, rest)
    else if text[0] == '$' && text[1] == '&' then found + Expand(text[2..], found, rest)
    else if text[0] == '$' && text[1] == '`' then Expand(text[2..], found, rest)
    else if text[0] == '$' && text[1] == '\'' then rest + Expand(text[2..], found, rest)
    else [text[0]] + Expand(text[1..], found, rest)
  }

  /** Each pattern, and a dollar sign that is none. */
  lemma PatternsExpand(ch: char, found: string, rest: string)
    ensures Expand(['a', '$', ch, 'b'], found, rest) ==
      if ch == '$' then "a$b" else if ch == '&' then "a" + found + "b" else if ch == '`' then "ab"
      else if ch == '\'' then "a" + rest + "b" else ['a', '$', ch, 'b']
  {
    var (text, tail, last) := (['a', '$', ch, 'b'], ['$', ch, 'b'], ['b']);
    assert text[1..] == tail && tail[1..] == [ch, 'b'] && tail[2..] == last && [ch, 'b'][1..] == last;
    assert Expand(last, found, rest) == last;
    assert ch != '$' ==> Expand([ch, 'b'], found, rest) == [ch] + last;
    assert Expand(text, found, rest) == ['a'] + Expand(tail, found, rest);
    PatternTail(ch, found, rest);
    assert ['a'] + (found + last) == "a" + found + "b" && ['a'] + (rest + last) == "a" + rest + "b";
    assert ['a'] + ("$" + last) == "a$b" && ['a'] + last == "ab" && ['a'] + (['$'] + ([ch] + last)) == text;
  }

  lemma PatternTail(ch: char, found: string, rest: string)
    ensures Expand(['$', ch, 'b'], found, rest) ==
      if ch == '$' then "$" + ['b'] else if ch == '&' then found + ['b'] else if ch == '`' then ['b']
      else if ch == '\'' then rest + ['b'] else ['$'] + ([ch] + ['b'])
  {
    var (tail, last) := (['$', ch, 'b'], ['b']);
    assert tail[1..] == [ch, 'b'] && tail[2..] == last && [ch, 'b'][1..] == last;
    assert Expand(last, found, rest) == last;
    assert ch != '$' ==> Expand([ch, 'b'], found, rest) == [ch] + last;
  }

  /** No dollar sign is followed by a second one, `&`, a backquote or an apostrophe. */
  predicate Literal(text: string) {
    forall i, j | 0 <= i && j == i + 1 < |text| && text[i] == '$' :: text[j] !in "$&`'"
  }

  /** k.replace(from + '|', to + '|') on a key that starts so. */
  function Renamed(key: string, from: string, to: string): string
    requires Under(key, from)
  {
    var rest := key[|from| + 1..];
    Expand(to + "|", from + "|", rest) + rest
  }

  lemma {:induction false} ExpandGrows(text: string, found: string, a: string, b: string)
    requires |a| <= |b|
    ensures |Expand(text, found, a)| <= |Expand(text, found, b)|
    decreases |text|
  {
    if 2 <= |text| {
      ExpandGrows(text[2..], found, a, b);
      ExpandGrows(text[1..], found, a, b);
    }
  }

  /** Whatever the names, renaming keeps cells apart. */
  lemma RenamedApart(j: string, k: string, from: string, to: string)
    requires Under(j, from) && Under(k, from)
    ensures Renamed(j, from, to) == Renamed(k, from, to) <==> j == k
  {
    hide Expand;
    var (a, c) := (j[|from| + 1..], k[|from| + 1..]);
    assert j == from + "|" + a && k == from + "|" + c;
    var (x, y) := (Expand(to + "|", from + "|", a), Expand(to + "|", from + "|", c));
    if |a| <= |c| { ExpandGrows(to + "|", from + "|", a, c); }
    if |c| <= |a| { ExpandGrows(to + "|", from + "|", c, a); }
    if x + a == y + c {
      assert |a| == |c|;
      assert (x + a)[|x|..] == a && (y + c)[|y|..] == c;
    }
  }

  lemma {:induction false} ExpandLiteral(text: string, found: string, rest: string)
    requires Literal(text)
    ensures Expand(text, found, rest) == text
  {
    if 2 <= |text| {
      var tail := text[1..];
      assert text[0] == '$' ==> text[1] !in "$&`'";
      forall i, j | 0 <= i && j == i + 1 < |tail| && tail[i] == '$' ensures tail[j] !in "$&`'" {
        assert text[i + 1] == tail[i] && text[j + 1] == tail[j];
      }
      ExpandLiteral(tail, found, rest);
    }
  }

  /** With long texts to insert, a text that is not literal comes out shorter or very long. */
  lemma {:induction false} ExpandLength(text: string, long: string)
    ensures Literal(text) || |Expand(text, long, long)| < |text| || |long| <= |Expand(text, long, long)|
    ensures Literal(text) ==> |Expand(text, long, long)| == |text|
    decreases |text|
  {
    if Literal(text) {
      ExpandLiteral(text, long, long);
    } else {
      ExpandLength(text[2..], long);
      ExpandLength(text[1..], long);
      if !(text[0] == '$' && text[1] in "$&`'") { TailNotLiteral(text); }
    }
  }

  lemma TailNotLiteral(text: string)
    requires !Literal(text) && 2 <= |text| && !(text[0] == '$' && text[1] in "$&`'")
    ensures !Literal(text[1..])
  {
    var i, j :| 0 <= i && j == i + 1 < |text| && text[i] == '$' && text[j] in "$&`'";
    assert 0 < i && text[1..][i - 1] == '$' && text[1..][j - 1] == text[j];
  }

  /** Exactly when a new name is taken as it stands, whatever it replaces and wherever. */
  lemma ReplacesLiterally(text: string)
    ensures (forall found, rest :: Expand(text, found, rest) == text) <==> Literal(text)
  {
    if Literal(text) {
      forall found, rest ensures Expand(text, found, rest) == text { ExpandLiteral(text, found, rest); }
    } else {
      var long := text + text + "|";
      ExpandLength(text, long);
      assert |Expand(text, long, long)| != |text|;
    }
  }

  // ----- the loop -----

  /** The keys of a budget, each once, in the order they are listed. */
  ghost predicate Listing(b: Budget, keys: seq<string>) {
    && (forall k :: k in keys <==> k in b)
    && (forall i, j | 0 <= i < j < |keys| :: keys[i] != keys[j])
  }

  /** The budget after the first n keys: a cell of the old name is set under its new key, then deleted. */
  function After(b: Budget, keys: seq<string>, n: nat, from: string, to: string): Budget
    requires n <= |keys|
  {
    if n == 0 then b
    else
      var (r, k) := (After(b, keys, n - 1, from, to), keys[n - 1]);
      if Under(k, from) && k in r then r[Renamed(k, from, to) := r[k]] - {k} else r
  }

  /** A cell that a cell of the old name is written over. */
  ghost predicate Overwritten(b: Budget, key: string, from: string, to: string) {
    exists o :: o in b && Under(o, from) && Renamed(o, from, to) == key
  }

  /** Each cell of the old name is under its new key with its own amount. */
  ghost predicate AllMoved(b: Budget, r: Budget, from: string, to: string) {
    forall k | k in b && Under(k, from) :: Renamed(k, from, to) in r && r[Renamed(k, from, to)] == b[k]
  }

  /** What is not written over is gone from the old name and unchanged elsewhere, and no other key appears. */
  ghost predicate Framed(b: Budget, r: Budget, from: string, to: string) {
    && (forall k | k in b && !Overwritten(b, k, from, to) :: if Under(k, from) then k !in r else k in r && r[k] == b[k])
    && (forall k | k in r && k !in b :: exists o :: o in b && Under(o, from) && k == Renamed(o, from, to))
  }

  /** No cell of the old name moves to a key of the old name that is still to be moved, its own included. */
  predicate InTime(keys: seq<string>, from: string, to: string) {
    forall i, j | 0 <= i <= j < |keys| && Under(keys[i], from) && Under(keys[j], from) :: Renamed(keys[i], from, to) != keys[j]
  }

  /**
   * The loop over the keys as they were listed. Whatever the names, what is not written over stays or
   * goes as it should; every amount is moved exactly when no cell moves onto one still to be moved.
   */
  method Rekey(b: Budget, keys: seq<string>, from: string, to: string) returns (r: Budget)
    requires Listing(b, keys)
    ensures r == After(b, keys, |keys|, from, to)
    ensures Framed(b, r, from, to)
    ensures AllMoved(b, r, from, to) <==> InTime(keys, from, to)
  {
    hide Framed, AllMoved, InTime, Listing, Renamed, Under;
    r := b;
    for i := 0 to |keys|
      invariant r == After(b, keys, i, from, to)
    {
      var k := keys[i];
      if Under(k, from) {
        StillThere(b, keys, i, i, from, to);
        r := r[Renamed(k, from, to) := r[k]];
        r := r - {k};
      }
    }
    AfterFrames(b, keys, from, to);
    AfterMoves(b, keys, from, to);
  }

  /** A key is there until its turn, with its own amount if no earlier cell was written over it. */
  lemma {:induction false} StillThere(b: Budget, keys: seq<string>, n: nat, j: nat, from: string, to: string)
    requires Listing(b, keys) && n <= j < |keys|
    ensures var r := After(b, keys, n, from, to);
      && keys[j] in r
      && ((forall h | 0 <= h < n && Under(keys[h], from) :: Renamed(keys[h], from, to) != keys[j]) ==> r[keys[j]] == b[keys[j]])
  {
    hide Under, Renamed;
    if 0 < n { StillThere(b, keys, n - 1, j, from, to); }
  }

  /** A moved cell is under its new key until that key is deleted in its own turn. */
  lemma {:induction false} Landed(b: Budget, keys: seq<string>, n: nat, i: nat, from: string, to: string)
    requires Listing(b, keys) && i < n <= |keys| && Under(keys[i], from)
    ensures var (r, t) := (After(b, keys, n, from, to), Renamed(keys[i], from, to));
      && keys[i] in After(b, keys, i, from, to)
      && (t in r <==> forall j | i <= j < n && Under(keys[j], from) :: keys[j] != t)
      && (t in r ==> r[t] == After(b, keys, i, from, to)[keys[i]])
  {
    hide Under, Renamed;
    StillThere(b, keys, i, i, from, to);
    if i + 1 < n {
      Landed(b, keys, n - 1, i, from, to);
      StillThere(b, keys, n - 1, n - 1, from, to);
      if Under(keys[n - 1], from) { RenamedApart(keys[i], keys[n - 1], from, to); }
    }
  }

  lemma AfterMoves(b: Budget, keys: seq<string>, from: string, to: string)
    requires Listing(b, keys)
    ensures AllMoved(b, After(b, keys, |keys|, from, to), from, to) <==> InTime(keys, from, to)
  {
    hide Under, Renamed, After;
    var r := After(b, keys, |keys|, from, to);
    forall i | 0 <= i < |keys| && Under(keys[i], from)
      ensures Renamed(keys[i], from, to) in r <==> forall j | i <= j < |keys| && Under(keys[j], from) :: keys[j] != Renamed(keys[i], from, to)
      ensures InTime(keys, from, to) && Renamed(keys[i], from, to) in r ==> r[Renamed(keys[i], from, to)] == b[keys[i]]
    {
      Landed(b, keys, |keys|, i, from, to);
      StillThere(b, keys, i, i, from, to);
    }
    assert forall i | 0 <= i < |keys| :: keys[i] in b;
  }

  lemma AfterFrames(b: Budget, keys: seq<string>, from: string, to: string)
    requires Listing(b, keys)
    ensures Framed(b, After(b, keys, |keys|, from, to), from, to)
  {
    hide Under, Renamed, After, Overwritten;
    forall k | k in b && !Overwritten(b, k, from, to)
      ensures if Under(k, from) then k !in After(b, keys, |keys|, from, to) else k in After(b, keys, |keys|, from, to) && After(b, keys, |keys|, from, to)[k] == b[k]
    {
      var i :| 0 <= i < |keys| && keys[i] == k;
      NotWrittenOver(b, keys, |keys|, i, from, to);
    }
    forall k | k in After(b, keys, |keys|, from, to) && k !in b
      ensures exists o :: o in b && Under(o, from) && k == Renamed(o, from, to)
    {
      NewKeys(b, keys, |keys|, k, from, to);
    }
  }

  lemma {:induction false} NotWrittenOver(b: Budget, keys: seq<string>, n: nat, i: nat, from: string, to: string)
    requires Listing(b, keys) && n <= |keys| && i < |keys| && !Overwritten(b, keys[i], from, to)
    ensures var (r, k) := (After(b, keys, n, from, to), keys[i]);
      if Under(k, from) && i < n then k !in r else k in r && r[k] == b[k]
  {
    hide Under, Renamed;
    if 0 < n {
      NotWrittenOver(b, keys, n - 1, i, from, to);
      assert keys[n - 1] in b && Under(keys[n - 1], from) ==> Renamed(keys[n - 1], from, to) != keys[i];
    }
  }

  lemma {:induction false} NewKeys(b: Budget, keys: seq<string>, n: nat, k: string, from: string, to: string)
    requires Listing(b, keys) && n <= |keys| && k in After(b, keys, n, from, to) && k !in b
    ensures exists o :: o in b && Under(o, from) && k == Renamed(o, from, to)
  {
    hide Under, Renamed;
    if 0 < n {
      assert keys[n - 1] in b;
      if k in After(b, keys, n - 1, from, to) { NewKeys(b, keys, n - 1, k, from, to); }
    }
  }

  /**
   * A new name that reaches into the old one: of two cells of "A" the first lands on the second.
   * Listed in that order, the second amount is lost; listed the other way round, both are moved.
   */
  lemma NestedNameLoses(x: real, y: real)
    ensures var (first, second, third) := ("A|B|0", "A|B|B|0", "A|B|B|B|0");
      var b := map[first := x, second := y];
      && After(b, [first, second], 2, "A", "A|B") == map[third := x]
      && After(b, [second, first], 2, "A", "A|B") == map[second := x, third := y]
  {
    var (first, second, third) := ("A|B|0", "A|B|B|0", "A|B|B|B|0");
    var b := map[first := x, second := y];
    NestedStep("B|0", first, second);
    NestedStep("B|B|0", second, third);
    assert After(b, [first, second], 1, "A", "A|B") == map[second := x];
    assert After(b, [second, first], 1, "A", "A|B") == map[first := x, third := y];
  }

  lemma NestedStep(rest: string, key: string, next: string)
    requires key == "A|" + rest && next == "A|B|" + rest
    ensures Under(key, "A") && Renamed(key, "A", "A|B") == next
  {
    assert "A" + "|" == "A|" && "A|B" + "|" == "A|B|" && key[2..] == rest;
    assert Literal("A|B" + "|");
    RenamedLiterally(key, "A", "A|B");
  }

  /** Different plain names, the new one literal: every amount is moved, in whatever order the keys are listed. */
  lemma PlainNamesInTime(keys: seq<string>, from: string, to: string)
    requires Plain(from) && Plain(to) && from != to && Literal(to + "|")
    ensures InTime(keys, from, to)
  {
    forall i, j | 0 <= i <= j < |keys| && Under(keys[i], from) && Under(keys[j], from)
      ensures Renamed(keys[i], from, to) != keys[j]
    {
      RenamedUnder(keys[i], from, to);
    }
  }

  lemma RenamedLiterally(key: string, from: string, to: string)
    requires Under(key, from) && Literal(to + "|")
    ensures Renamed(key, from, to) == to + "|" + key[|from| + 1..]
  {
    ExpandLiteral(to + "|", from + "|", key[|from| + 1..]);
  }

  lemma PlainUnder(entity: string, other: string, rest: string)
    requires Plain(entity) && Plain(other)
    ensures Under(other + "|" + rest, entity) <==> other == entity
  {
    var key := other + "|" + rest;
    FirstBarAfter(other, rest);
    if Under(key, entity) {
      FirstBarAfter(entity, key[|entity| + 1..]);
      assert key == entity + "|" + key[|entity| + 1..];
      assert key[..|entity|] == entity && key[..|other|] == other;
    }
    assert key[..|other| + 1] == other + "|";
  }

  /** With names free of the separator, the cells under an entity are its own. */
  lemma CellsOfEntity(entity: string, other: string, dept: string, month: nat)
    requires Plain(entity) && Plain(other)
    ensures Under(CellKey(other, dept, month), entity) <==> other == entity
  {
    assert CellKey(other, dept, month) == other + "|" + (dept + "|" + Decimal(month));
    PlainUnder(entity, other, dept + "|" + Decimal(month));
  }

  /** Where the first separator stands. */
  function FirstBar(s: string): nat {
    if s == [] || s[0] == '|' then 0 else 1 + FirstBar(s[1..])
  }

  lemma {:induction false} FirstBarAfter(name: string, rest: string)
    requires Plain(name)
    ensures FirstBar(name + "|" + rest) == |name|
  {
    var s := name + "|" + rest;
    if name != [] {
      assert name[0] in name && forall ch | ch in name[1..] :: ch in name;
      assert s[1..] == name[1..] + "|" + rest;
      FirstBarAfter(name[1..], rest);
    }
  }

  /**
   * After a rename, fresh name or not: each amount of the old name is found under the new one, where
   * it replaces what the new name had; no other entity's amounts change. The two names' amounts in a
   * cell are kept together exactly when the old name has no such cell or the new one has nothing in it.
   */
  lemma RenameMovesCells(b: Budget, keys: seq<string>, from: string, to: string, other: string, dept: string, month: nat)
    requires Plain(from) && Plain(to) && Plain(other) && from != to && other != from && other != to
    requires Literal(to + "|") && Listing(b, keys)
    ensures var r := After(b, keys, |keys|, from, to);
      && Cell(r, to, dept, month) == (if CellKey(from, dept, month) in b then Cell(b, from, dept, month) else Cell(b, to, dept, month))
      && Cell(r, from, dept, month) == 0.0
      && Cell(r, other, dept, month) == Cell(b, other, dept, month)
      && (Cell(r, to, dept, month) == Cell(b, from, dept, month) + Cell(b, to, dept, month)
          <==> CellKey(from, dept, month) !in b || Cell(b, to, dept, month) == 0.0)
  {
    hide Plain, Under, Renamed, Literal, After, Listing, InTime;
    PlainNamesInTime(keys, from, to);
    AfterMoves(b, keys, from, to);
    AfterFrames(b, keys, from, to);
    CellsOfEntity(from, from, dept, month);
    CellsOfEntity(from, to, dept, month);
    CellsOfEntity(from, other, dept, month);
    CellsOfEntity(to, to, dept, month);
    CellsOfEntity(to, other, dept, month);
    RenamedCell(from, to, dept, month);
    var source := CellKey(from, dept, month);
    forall o | o in b && Under(o, from)
      ensures Renamed(o, from, to) == Renamed(source, from, to) <==> o == source
      ensures Under(Renamed(o, from, to), to) && !Under(Renamed(o, from, to), from)
    {
      RenamedApart(source, o, from, to);
      RenamedUnder(o, from, to);
    }
  }

  lemma RenamedUnder(key: string, from: string, to: string)
    requires Under(key, from) && Plain(from) && Plain(to) && from != to && Literal(to + "|")
    ensures Under(Renamed(key, from, to), to) && !Under(Renamed(key, from, to), from)
  {
    var rest := key[|from| + 1..];
    RenamedLiterally(key, from, to);
    PlainUnder(from, to, rest);
    PlainUnder(to, to, rest);
  }

  lemma RenamedCell(from: string, to: string, dept: string, month: nat)
    requires Literal(to + "|")
    ensures Under(CellKey(from, dept, month), from)
    ensures Renamed(CellKey(from, dept, month), from, to) == CellKey(to, dept, month)
  {
    var key := CellKey(from, dept, month);
    assert key == from + "|" + (dept + "|" + Decimal(month));
    assert key[..|from| + 1] == from + "|" && key[|from| + 1..] == dept + "|" + Decimal(month);
    RenamedLiterally(key, from, to);
  }
}
