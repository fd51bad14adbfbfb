/** Small shared vocabulary: optional values, JavaScript rounding and string order. */
module Prelude {

  datatype Option<+T> = None | Some(value: T)

  /** Math.round: ties go up, for negative arguments too. */
  function Round(x: real): (n: int)
    ensures x - 0.5 < n as real <= x + 0.5
  {
    (x + 0.5).Floor
  }

  /** An integer within half a unit of x, or half a unit below it, is the rounded value. */
  lemma RoundUnique(x: real, n: int)
    requires x - 0.5 < n as real <= x + 0.5
    ensures Round(x) == n
  {
    var m := Round(x);
    assert -1.0 < (m - n) as real < 1.0;
  }

  lemma RoundMonotone(x: real, y: real)
    requires x <= y
    ensures Round(x) <= Round(y)
  {
    var m, n := Round(x), Round(y);
    assert (m - n) as real < 1.0;
  }

  function Min(a: int, b: int): int {
    if a < b then a else b
  }

  function Max(a: int, b: int): int {
    if a > b then a else b
  }

  function Digit(k: int): char
    requires 0 <= k <= 9
  {
    (k + '0' as int) as char
  }

  predicate IsDigit(ch: char) {
    '0' <= ch <= '9'
  }

  /** String(n). */
  function Decimal(n: nat): (s: string)
    ensures s != []
  {
    if n < 10 then [Digit(n)] else Decimal(n / 10) + [Digit(n % 10)]
  }

  /** The characters of \s. */
  predicate IsSpace(ch: char) {
    ch in " \t\n\r\U{000B}\U{000C}\U{00A0}\U{1680}\U{2028}\U{2029}\U{202F}\U{205F}\U{3000}\U{FEFF}"
    || '\U{2000}' <= ch <= '\U{200A}'
  }

  /** By number: tab to carriage return, space, and the spaces and separators of Unicode. */
  lemma SpaceCodes(ch: char)
    ensures IsSpace(ch) <==>
      var code := ch as int;
      9 <= code <= 13 || code in {32, 160, 5760, 8232, 8233, 8239, 8287, 12288, 65279} || 8192 <= code <= 8202
  {
  }

  function TrimStart(s: string): (t: string)
    ensures t != [] ==> !IsSpace(t[0])
  {
    if s != [] && IsSpace(s[0]) then TrimStart(s[1..]) else s
  }

  function TrimEnd(s: string): (t: string)
    ensures t != [] ==> !IsSpace(t[|t| - 1])
    ensures t <= s
  {
    if s != [] && IsSpace(s[|s| - 1]) then TrimEnd(s[..|s| - 1]) else s
  }

  /** String.prototype.trim. */
  function Trim(s: string): string {
    TrimEnd(TrimStart(s))
  }

  /** JavaScript `a < b` on strings: lexicographic by character code. */
  predicate LexLess(a: string, b: string) {
    if b == [] then false
    else if a == [] then true
    else if a[0] != b[0] then a[0] < b[0]
    else LexLess(a[1..], b[1..])
  }

  lemma {:induction false} LexIrreflexive(a: string)
    ensures !LexLess(a, a)
  {
    if a != [] { LexIrreflexive(a[1..]); }
  }

  /** Equal-length heads decide first, tails decide ties. */
  lemma {:induction false} LexConcat(a: string, b: string, s: string, t: string)
    requires |a| == |b|
    ensures LexLess(a + s, b + t) <==> LexLess(a, b) || (a == b && LexLess(s, t))
  {
    if a == [] {
      assert a + s == s && b + t == t;
    } else {
      assert (a + s)[1..] == a[1..] + s && (b + t)[1..] == b[1..] + t;
      LexConcat(a[1..], b[1..], s, t);
      if a[0] == b[0] {
        assert a == b <==> a[1..] == b[1..] by {
          assert a == [a[0]] + a[1..] && b == [b[0]] + b[1..];
        }
      }
    }
  }

  lemma {:induction false} LexTotal(a: string, b: string)
    ensures LexLess(a, b) || a == b || LexLess(b, a)
    ensures !(LexLess(a, b) && LexLess(b, a))
  {
    if a != [] && b != [] {
      LexTotal(a[1..], b[1..]);
      if a[1..] == b[1..] && a[0] == b[0] {
        assert a == [a[0]] + a[1..] && b == [b[0]] + b[1..];
      }
    }
  }

  function UpperChar(ch: char): (u: char)
    ensures 'a' <= ch <= 'z' <==> u != ch
  {
    if 'a' <= ch <= 'z' then (ch as int - 32) as char else ch
  }

  /** toUpperCase on ASCII text. */
  function Upper(s: string): (u: string)
    ensures |u| == |s|
  {
    seq(|s|, i requires 0 <= i < |s| => UpperChar(s[i]))
  }

  function LowerChar(ch: char): char {
    if 'A' <= ch <= 'Z' then (ch as int + 32) as char else ch
  }

  /** toLowerCase on ASCII text. */
  function Lower(s: string): (l: string)
    ensures |l| == |s|
  {
    seq(|s|, i requires 0 <= i < |s| => LowerChar(s[i]))
  }

  /** Upper-casing leaves no lower-case letter, and what lower-casing reads is the same; and the other way round. */
  lemma CasesMirror(s: string)
    ensures forall i | 0 <= i < |s| :: !('a' <= Upper(s)[i] <= 'z') && !('A' <= Lower(s)[i] <= 'Z')
    ensures Lower(Upper(s)) == Lower(s) && Upper(Lower(s)) == Upper(s)
    ensures (forall i | 0 <= i < |s| :: !('a' <= s[i] <= 'z')) ==> Upper(s) == s
    ensures (forall i | 0 <= i < |s| :: !('A' <= s[i] <= 'Z')) ==> Lower(s) == s
    ensures Upper("abcdefghijklmnopqrstuvwxyz") == "ABCDEFGHIJKLMNOPQRSTUVWXYZ"
  {
    forall i | 0 <= i < |s| ensures Lower(Upper(s))[i] == Lower(s)[i] && Upper(Lower(s))[i] == Upper(s)[i] { }
  }

  /** a || b on strings. */
  function Or(a: string, b: string): string {
    if a == [] then b else a
  }

  /** Stepwise concatenation. */
  lemma Assoc<T>(a: seq<T>, b: seq<T>, c: seq<T>)
    ensures a + (b + c) == a + b + c
  {
  }
}
