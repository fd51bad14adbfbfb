/**
 * Vendor name matching (vendor-match.ts and its client mirror vendorMatch.ts) and the two loops that
 * pick a vendor (capture.service.ts, bestVendorMatch). Ratios are exact reals.
 */
module VendorMatch {
  import opened Prelude

  const THRESHOLD := 55

  // ----- normalising -----

  predicate IsWordChar(ch: char) {
    'a' <= ch <= 'z' || '0' <= ch <= '9'
  }

  lemma WordChars(ch: char)
    ensures IsWordChar(ch) <==> ch in "abcdefghijklmnopqrstuvwxyz0123456789"
  {
  }

  /** replace(/[^a-z0-9\s]/g, ' '). */
  function Blank(s: string): (b: string)
    ensures |b| == |s|
  {
    seq(|s|, i requires 0 <= i < |s| => if IsWordChar(s[i]) || IsSpace(s[i]) then s[i] else ' ')
  }

  lemma {:induction false} TrimStartShorter(s: string)
    ensures |TrimStart(s)| <= |s|
  {
    if s != [] && IsSpace(s[0]) { TrimStartShorter(s[1..]); }
  }

  /** replace(/\s+/g, ' '): each run of white space becomes one space. */
  function Collapse(s: string): string
    decreases |s|
  {
    if s == [] then []
    else if IsSpace(s[0]) then
      TrimStartShorter(s[1..]);
      " " + Collapse(TrimStart(s[1..]))
    else [s[0]] + Collapse(s[1..])
  }

  function Normalize(s: string): string {
    Trim(Collapse(Blank(Lower(s))))
  }

  /** Words of letters and digits, one space between, none around. */
  predicate Tidy(s: string) {
    && Spaced(s)
    && (s != [] ==> s[0] != ' ' && s[|s| - 1] != ' ')
  }

  /** Only word characters and spaces, and no two spaces together. */
  predicate Spaced(s: string) {
    && (forall i | 0 <= i < |s| :: IsWordChar(s[i]) || s[i] == ' ')
    && (forall i, j | 0 <= i && j == i + 1 < |s| :: s[i] != ' ' || s[j] != ' ')
  }

  lemma WordCharNoSpace(ch: char)
    ensures IsWordChar(ch) ==> !IsSpace(ch)
    ensures IsSpace(' ')
  {
  }

  predicate WordsAndSpaces(s: string) {
    forall i | 0 <= i < |s| :: IsWordChar(s[i]) || IsSpace(s[i])
  }

  lemma {:induction false} TrimStartKeeps(s: string)
    requires WordsAndSpaces(s)
    ensures WordsAndSpaces(TrimStart(s))
  {
    hide IsSpace, IsWordChar;
    if s != [] && IsSpace(s[0]) { TrimStartKeeps(s[1..]); }
  }

  lemma {:induction false} CollapseSpaced(s: string)
    requires WordsAndSpaces(s)
    ensures Spaced(Collapse(s))
    ensures s != [] && !IsSpace(s[0]) ==> Collapse(s) != [] && Collapse(s)[0] == s[0]
    decreases |s|
  {
    hide IsSpace, IsWordChar;
    if s != [] {
      WordCharNoSpace(s[0]);
      if IsSpace(s[0]) {
        TrimStartShorter(s[1..]);
        TrimStartKeeps(s[1..]);
        var rest := TrimStart(s[1..]);
        CollapseSpaced(rest);
        if rest != [] { WordCharNoSpace(rest[0]); WordCharNoSpace(' '); }
        SpacedAfterSpace(Collapse(rest));
      } else {
        CollapseSpaced(s[1..]);
        SpacedAfterWord(s[0], Collapse(s[1..]));
      }
    }
  }

  lemma SpacedAfterSpace(t: string)
    requires Spaced(t) && (t != [] ==> t[0] != ' ')
    ensures Spaced(" " + t)
  {
    hide IsWordChar;
  }

  lemma SpacedAfterWord(ch: char, t: string)
    requires Spaced(t) && IsWordChar(ch)
    ensures Spaced([ch] + t)
  {
    WordCharNoSpace(ch);
    assert ch != ' ';
  }

  lemma {:induction false} TrimStartSpaced(s: string)
    requires Spaced(s)
    ensures Spaced(TrimStart(s))
  {
    hide IsSpace, IsWordChar;
    if s != [] && IsSpace(s[0]) {
      SpacedSlice(s, 1, |s|);
      TrimStartSpaced(s[1..]);
    }
  }

  lemma SpacedSlice(s: string, a: nat, b: nat)
    requires Spaced(s) && a <= b <= |s|
    ensures Spaced(s[a..b])
  {
    hide IsWordChar;
    var t := s[a..b];
    forall i, j | 0 <= i && j == i + 1 < |t| ensures t[i] != ' ' || t[j] != ' ' {
      assert t[i] == s[a + i] && t[j] == s[a + j];
    }
  }

  lemma TrimTidies(s: string)
    requires Spaced(s)
    ensures Tidy(Trim(s))
  {
    hide IsSpace, IsWordChar, Spaced;
    var t := TrimStart(s);
    TrimStartSpaced(s);
    SpacedSlice(t, 0, |TrimEnd(t)|);
    WordCharNoSpace(' ');
    assert TrimEnd(t) == t[0..|TrimEnd(t)|];
  }

  /** A normalised name is tidy. */
  lemma NormalizeTidies(s: string)
    ensures Tidy(Normalize(s))
  {
    hide Trim, Collapse, Tidy, Spaced;
    WordCharNoSpace(' ');
    CollapseSpaced(Blank(Lower(s)));
    TrimTidies(Collapse(Blank(Lower(s))));
  }

  lemma {:induction false} CollapseTidy(s: string)
    requires Spaced(s)
    ensures Collapse(s) == s
    decreases |s|
  {
    hide IsSpace, IsWordChar;
    if s != [] {
      WordCharNoSpace(s[0]);
      SpacedSlice(s, 1, |s|);
      CollapseTidy(s[1..]);
      if s[0] == ' ' && 1 < |s| { WordCharNoSpace(s[1]); assert s[1] != ' '; }
      assert TrimStart(s[1..]) == s[1..] || !IsSpace(s[0]);
      assert s == [s[0]] + s[1..];
    }
  }

  lemma TidyLower(s: string)
    requires Spaced(s)
    ensures Blank(Lower(s)) == s
  {
    WordCharNoSpace(' ');
  }

  /** Normalising changes nothing in a tidy name; so normalising twice is normalising once. */
  lemma NormalizeIdempotent(s: string)
    ensures Tidy(s) ==> Normalize(s) == s
    ensures Normalize(Normalize(s)) == Normalize(s)
  {
    NormalizeTidies(s);
    TidyFixed(Normalize(s));
    if Tidy(s) { TidyFixed(s); }
  }

  lemma TidyFixed(s: string)
    requires Tidy(s)
    ensures Normalize(s) == s
  {
    hide Collapse;
    TidyLower(s);
    CollapseTidy(s);
    if s != [] { WordCharNoSpace(s[0]); WordCharNoSpace(s[|s| - 1]); }
  }

  /** The letters and digits of a text, in order. */
  function Letters(s: string): string {
    if s == [] then [] else (if IsWordChar(s[0]) then [s[0]] else []) + Letters(s[1..])
  }

  lemma {:induction false} LettersConcat(a: string, b: string)
    ensures Letters(a + b) == Letters(a) + Letters(b)
  {
    hide IsWordChar;
    if a == [] {
      assert a + b == b;
    } else {
      var (rest, here) := (a[1..], if IsWordChar(a[0]) then [a[0]] else []);
      assert (a + b)[1..] == rest + b && (a + b)[0] == a[0];
      LettersConcat(rest, b);
      assert here + (Letters(rest) + Letters(b)) == here + Letters(rest) + Letters(b);
    }
  }

  lemma {:induction false} LettersTrimStart(s: string)
    ensures Letters(TrimStart(s)) == Letters(s)
  {
    hide IsSpace, IsWordChar;
    if s != [] && IsSpace(s[0]) {
      WordCharNoSpace(s[0]);
      LettersTrimStart(s[1..]);
    }
  }

  lemma {:induction false} LettersTrimEnd(s: string)
    ensures Letters(TrimEnd(s)) == Letters(s)
  {
    hide IsSpace, IsWordChar;
    if s != [] && IsSpace(s[|s| - 1]) {
      var (init, last) := (s[..|s| - 1], [s[|s| - 1]]);
      WordCharNoSpace(s[|s| - 1]);
      LettersTrimEnd(init);
      assert s == init + last && last[1..] == [];
      LettersConcat(init, last);
    }
  }

  lemma {:induction false} LettersCollapse(s: string)
    ensures Letters(Collapse(s)) == Letters(s)
    decreases |s|
  {
    hide IsSpace, IsWordChar;
    if s != [] {
      WordCharNoSpace(s[0]);
      TrimStartShorter(s[1..]);
      if IsSpace(s[0]) {
        LettersCollapse(TrimStart(s[1..]));
        LettersTrimStart(s[1..]);
        WordCharNoSpace(' ');
        assert (" " + Collapse(TrimStart(s[1..])))[1..] == Collapse(TrimStart(s[1..]));
      } else {
        LettersCollapse(s[1..]);
        assert ([s[0]] + Collapse(s[1..]))[1..] == Collapse(s[1..]);
      }
    }
  }

  lemma {:induction false} LettersBlank(s: string)
    ensures Letters(Blank(s)) == Letters(s)
  {
    hide IsSpace;
    if s != [] {
      assert Blank(s)[1..] == Blank(s[1..]);
      LettersBlank(s[1..]);
    }
  }

  /** Normalising loses no letter or digit and keeps their order. */
  lemma NormalizeKeepsLetters(s: string)
    ensures Letters(Normalize(s)) == Letters(Lower(s))
  {
    var t := Collapse(Blank(Lower(s)));
    LettersTrimEnd(TrimStart(t));
    LettersTrimStart(t);
    LettersCollapse(Blank(Lower(s)));
    LettersBlank(Lower(s));
  }

  // ----- scoring -----

  function FirstSpace(s: string): (i: nat)
    ensures i <= |s|
    ensures i < |s| ==> s[i] == ' '
  {
    if s == [] || s[0] == ' ' then 0 else 1 + FirstSpace(s[1..])
  }

  /** s.split(' '). */
  function Split(s: string): seq<string>
    decreases |s|
  {
    var i := FirstSpace(s);
    if i == |s| then [s] else [s[..i]] + Split(s[i + 1..])
  }

  /** The parts longer than one character. */
  function LongOnes(parts: seq<string>): seq<string> {
    if parts == [] then []
    else (if |parts[0]| > 1 then [parts[0]] else []) + LongOnes(parts[1..])
  }

  function Tokens(s: string): seq<string> {
    LongOnes(Split(s))
  }

  function TokenSet(tokens: seq<string>): set<string> {
    set t | t in tokens
  }

  /** How many of the tokens are in the set, repeats counted. */
  function Overlap(tokens: seq<string>, known: set<string>): (n: nat)
    ensures n <= |tokens|
  {
    if tokens == [] then 0 else (if tokens[0] in known then 1 else 0) + Overlap(tokens[1..], known)
  }

  predicate FoundAt(a: string, b: string, i: nat) {
    i + |b| <= |a| && a[i..i + |b|] == b
  }

  /** a.includes(b). */
  predicate Includes(a: string, b: string) {
    exists i :: 0 <= i <= |a| && FoundAt(a, b, i)
  }

  /** The share of the tokens of b found in a, against the longer of the two lists; 0 when either is empty. */
  function Ratio(a: string, b: string): (r: real)
    ensures 0.0 <= r <= 1.0
  {
    var (known, tokens) := (TokenSet(Tokens(a)), Tokens(b));
    if known == {} || tokens == [] then 0.0
    else
      var (n, d) := (Overlap(tokens, known), Max(|known|, |tokens|));
      ShareInUnit(n, d);
      n as real / d as real
  }

  lemma NotPositive(q: real, y: real)
    requires 0.0 < y && q * y <= 0.0
    ensures q <= 0.0
  {
  }

  lemma ShareInUnit(n: nat, d: nat)
    requires n <= d && 0 < d
    ensures 0.0 <= n as real / d as real <= 1.0
  {
    var (x, y) := (n as real, d as real);
    var q := x / y;
    assert q * y == x;
    NotPositive(q - 1.0, y);
    NotPositive(-q, y);
  }

  /** scoreVendorName, on names as typed. */
  function Score(raw: string, vendorName: string): int {
    var (a, b) := (Normalize(raw), Normalize(vendorName));
    if a == [] || b == [] then 0
    else if a == b then 100
    else if a <= b || b <= a then 85
    else if Includes(b, a) || Includes(a, b) then 70
    else if TokenSet(Tokens(a)) == {} || Tokens(b) == [] then 0
    else
      var ratio := Ratio(a, b);
      if ratio >= 0.6 then Round(55.0 + ratio * 20.0)
      else if ratio >= 0.4 then Round(40.0 + ratio * 20.0)
      else 0
  }

  lemma PrefixIncluded(a: string, b: string)
    requires a <= b
    ensures Includes(b, a)
  {
    assert FoundAt(b, a, 0);
  }

  /** The score of a token match: 67 to 75 above the upper ratio, 48 to 52 below it. */
  lemma TokenScores(r: real)
    ensures 0.6 <= r <= 1.0 ==> 67 <= Round(55.0 + r * 20.0) <= 75
    ensures 0.4 <= r < 0.6 ==> 48 <= Round(40.0 + r * 20.0) <= 52
  {
  }

  /** The words of a text, joined again. */
  function Joined(parts: seq<string>): string {
    if parts == [] then "" else if |parts| == 1 then parts[0] else parts[0] + " " + Joined(parts[1..])
  }

  /** Splitting cuts at every space and nowhere else. */
  lemma {:induction false} SplitWords(s: string)
    ensures Split(s) != [] && Joined(Split(s)) == s
    ensures forall part | part in Split(s) :: ' ' !in part
    decreases |s|
  {
    var i := FirstSpace(s);
    NoSpaceBefore(s);
    if i < |s| {
      SplitWords(s[i + 1..]);
      assert s == s[..i] + " " + s[i + 1..];
      assert Split(s)[1..] == Split(s[i + 1..]);
    } else {
      assert s[..i] == s;
    }
  }

  lemma {:induction false} NoSpaceBefore(s: string)
    ensures ' ' !in s[..FirstSpace(s)]
  {
    if s != [] && s[0] != ' ' {
      NoSpaceBefore(s[1..]);
      assert s[..FirstSpace(s)] == [s[0]] + s[1..][..FirstSpace(s[1..])];
    }
  }

  /** The tokens are the words of more than one character. */
  lemma {:induction false} LongOnesAre(parts: seq<string>)
    ensures forall t :: t in LongOnes(parts) <==> t in parts && |t| > 1
  {
    if parts != [] {
      LongOnesAre(parts[1..]);
      assert parts == [parts[0]] + parts[1..];
    }
  }

  /** As many tokens as there are such words, repeats counted. */
  lemma {:induction false} LongOnesCount(parts: seq<string>)
    ensures |LongOnes(parts)| == |set i | 0 <= i < |parts| && |parts[i]| > 1|
  {
    var long := set i | 0 <= i < |parts| && |parts[i]| > 1;
    if parts == [] {
      assert long == {};
    } else {
      var rest := parts[1..];
      LongOnesCount(rest);
      var tail := set i | 0 <= i < |rest| && |rest[i]| > 1;
      Shifted(tail, set i | 1 <= i < |parts| && |parts[i]| > 1);
      assert parts == [parts[0]] + rest;
      assert long == (set i | 1 <= i < |parts| && |parts[i]| > 1) + if |parts[0]| > 1 then {0} else {};
    }
  }

  /** Moving positions by one keeps their number. */
  lemma {:induction false} Shifted(a: set<int>, b: set<int>)
    requires forall i :: i in a <==> i + 1 in b
    ensures |a| == |b|
    decreases a
  {
    if i :| i in a {
      Shifted(a - {i}, b - {i + 1});
      assert a == (a - {i}) + {i} && b == (b - {i + 1}) + {i + 1};
    } else {
      assert forall j | j in b :: j - 1 in a;
      assert forall i :: i !in a;
      assert a == {} && forall j :: j !in b;
      assert b == {};
    }
  }

  /** The overlap counts the positions whose token the other name has. */
  lemma {:induction false} OverlapCounts(tokens: seq<string>, known: set<string>)
    ensures Overlap(tokens, known) == |set i | 0 <= i < |tokens| && tokens[i] in known|
  {
    var found := set i | 0 <= i < |tokens| && tokens[i] in known;
    if tokens == [] {
      assert found == {};
    } else {
      var rest := tokens[1..];
      OverlapCounts(rest, known);
      Shifted(set i | 0 <= i < |rest| && rest[i] in known, set i | 1 <= i < |tokens| && tokens[i] in known);
      assert found == (set i | 1 <= i < |tokens| && tokens[i] in known) + if tokens[0] in known then {0} else {};
    }
  }

  /** The ratio times the larger number of tokens is the number of the vendor's tokens found. */
  lemma RatioShares(a: string, b: string)
    ensures var (tokens, known) := (Tokens(b), set t | t in Split(a) && |t| > 1);
      Ratio(a, b) * (if |known| >= |tokens| then |known| else |tokens|) as real
        == |set i | 0 <= i < |tokens| && tokens[i] in known| as real
  {
    hide Split, LongOnes, Ratio, Overlap;
    var (tokens, known) := (Tokens(b), TokenSet(Tokens(a)));
    LongOnesAre(Split(a));
    assert known == set t | t in Split(a) && |t| > 1;
    OverlapCounts(tokens, known);
    RatioTimes(a, b);
  }

  lemma RatioTimes(a: string, b: string)
    ensures var (tokens, known) := (Tokens(b), TokenSet(Tokens(a)));
      Ratio(a, b) * Max(|known|, |tokens|) as real == Overlap(tokens, known) as real
  {
    hide Tokens, TokenSet, Overlap;
    var (tokens, known) := (Tokens(b), TokenSet(Tokens(a)));
    NoOverlap(tokens, known);
    if known != {} && tokens != [] { QuotientTimes(Overlap(tokens, known), Max(|known|, |tokens|)); }
  }

  lemma {:induction false} NoOverlap(tokens: seq<string>, known: set<string>)
    ensures known == {} || tokens == [] ==> Overlap(tokens, known) == 0
  {
    if tokens != [] { NoOverlap(tokens[1..], known); }
  }

  lemma QuotientTimes(n: nat, d: nat)
    requires 0 < d
    ensures (n as real / d as real) * d as real == n as real
  {
  }

  /** Every tier of the score. */
  lemma ScoreTiers(raw: string, vendorName: string)
    ensures var (a, b, s) := (Normalize(raw), Normalize(vendorName), Score(raw, vendorName));
      && (a == "" || b == "" ==> s == 0)
      && (a != "" && a == b ==> s == 100)
      && (a != "" && b != "" && a != b && (a <= b || b <= a) ==> s == 85)
      && (a != "" && b != "" && !(a <= b) && !(b <= a) && (Includes(a, b) || Includes(b, a)) ==> s == 70)
      && (a != "" && b != "" && !Includes(a, b) && !Includes(b, a) ==>
            && (Ratio(a, b) >= 0.6 ==> -0.5 <= 55.0 + 20.0 * Ratio(a, b) - s as real < 0.5)
            && (0.4 <= Ratio(a, b) < 0.6 ==> -0.5 <= 40.0 + 20.0 * Ratio(a, b) - s as real < 0.5)
            && (Ratio(a, b) < 0.4 ==> s == 0))
  {
    hide Normalize, Ratio, Includes;
    var (a, b) := (Normalize(raw), Normalize(vendorName));
    if a <= b { PrefixIncluded(a, b); }
    if b <= a { PrefixIncluded(b, a); }
    NoTokensNoRatio(a, b);
  }

  /**
   * A vendor qualifies exactly when both names have content and they are equal, or one contains
   * the other, or at least 60 per cent of the tokens agree.
   */
  lemma QualifiesWhen(raw: string, vendorName: string)
    ensures var (a, b) := (Normalize(raw), Normalize(vendorName));
      Score(raw, vendorName) >= THRESHOLD <==>
        a != [] && b != [] && (a == b || Includes(a, b) || Includes(b, a) || Ratio(a, b) >= 0.6)
    ensures 0 <= Score(raw, vendorName) <= 100
    ensures Score(raw, vendorName) == 100 <==> Normalize(raw) == Normalize(vendorName) != []
    ensures Score(raw, vendorName) == 85 <==>
      var (a, b) := (Normalize(raw), Normalize(vendorName)); a != [] && b != [] && a != b && (a <= b || b <= a)
  {
    hide Normalize, Ratio, Includes;
    var (a, b) := (Normalize(raw), Normalize(vendorName));
    if a <= b { PrefixIncluded(a, b); }
    if b <= a { PrefixIncluded(b, a); }
    TokenScores(Ratio(a, b));
    NoTokensNoRatio(a, b);
  }

  lemma NoTokensNoRatio(a: string, b: string)
    ensures TokenSet(Tokens(a)) == {} || Tokens(b) == [] ==> Ratio(a, b) == 0.0
  {
  }

  /**
   * The order of kinds in the scorer's comment does not hold: a token match, which contains
   * neither name in the other, outranks containment exactly when its ratio is at least 0.775.
   */
  lemma TokensOutrankContainment(raw: string, vendorName: string)
    requires var (a, b) := (Normalize(raw), Normalize(vendorName));
      a != [] && b != [] && !Includes(a, b) && !Includes(b, a)
    ensures Score(raw, vendorName) > 70 <==> Ratio(Normalize(raw), Normalize(vendorName)) >= 0.775
  {
    hide Normalize, Ratio, Includes;
    var (a, b) := (Normalize(raw), Normalize(vendorName));
    if a <= b { PrefixIncluded(a, b); }
    if b <= a { PrefixIncluded(b, a); }
    TokenScores(Ratio(a, b));
    NoTokensNoRatio(a, b);
  }

  lemma TwoTokens(s: string, t: string)
    requires |s| == |t| == 2 && ' ' !in s && ' ' !in t
    ensures Tokens(s + " " + t) == [s, t]
  {
    var u := s + " " + t;
    assert u[0] == s[0] && u[1..][0] == s[1] && u[1..][1..][0] == ' ' && u[1..][1..] == " " + t;
    assert FirstSpace(u[1..][1..]) == 0 && FirstSpace(u[1..]) == 1 && FirstSpace(u) == 2;
    assert u[..2] == s && u[3..] == t;
    assert t[1..][0] == t[1] && t[1..][1..] == [];
    assert FirstSpace(t[1..][1..]) == 0 && FirstSpace(t[1..]) == 1 && FirstSpace(t) == 2;
    assert Split(t) == [t] && Split(u) == [s] + [t];
    assert LongOnes([]) == [] && [t][1..] == [] && LongOnes([t]) == [t];
    assert [s, t][1..] == [t];
  }

  lemma SwappedTidy()
    ensures Normalize("ab cd") == "ab cd" && Normalize("cd ab") == "cd ab"
  {
    hide Normalize;
    NormalizeIdempotent("ab cd");
    NormalizeIdempotent("cd ab");
  }

  lemma SwappedRatio()
    ensures Ratio("ab cd", "cd ab") == 1.0 && TokenSet(Tokens("ab cd")) != {} && Tokens("cd ab") != []
  {
    hide Tokens, TokenSet, Overlap;
    assert "ab" + " " + "cd" == "ab cd" && "cd" + " " + "ab" == "cd ab";
    TwoTokens("ab", "cd");
    TwoTokens("cd", "ab");
    FullOverlap("ab", "cd");
  }

  lemma SwappedApart()
    ensures !Includes("ab cd", "cd ab") && !Includes("cd ab", "ab cd")
  {
    var (a, b) := ("ab cd", "cd ab");
    assert a[0..0 + |b|][0] == 'a' && b[0..0 + |a|][0] == 'c';
  }

  /** For instance, two words the other way round score 75, above any containment. */
  lemma WordOrderOutranks()
    ensures Score("ab cd", "cd ab") == 75
  {
    hide Normalize, Ratio, Tokens, TokenSet, Includes;
    SwappedTidy();
    SwappedRatio();
    SwappedApart();
    RoundUnique(55.0 + 1.0 * 20.0, 75);
  }

  lemma FullOverlap(s: string, t: string)
    requires s != t
    ensures TokenSet([s, t]) == {s, t} && |TokenSet([s, t])| == 2 && Overlap([t, s], TokenSet([s, t])) == 2
  {
    assert [t, s][1..] == [s] && [s][1..] == [];
  }

  // ----- choosing a vendor -----

  datatype Vendor = Vendor(id: string, name: string)

  /** The vendor at i qualifies, none scores more, and none before it as much. */
  predicate IsBest(raw: string, vendors: seq<Vendor>, i: nat)
    requires i < |vendors|
  {
    && Score(raw, vendors[i].name) >= THRESHOLD
    && (forall j | 0 <= j < |vendors| :: Score(raw, vendors[j].name) <= Score(raw, vendors[i].name))
    && (forall j | 0 <= j < i :: Score(raw, vendors[j].name) < Score(raw, vendors[i].name))
  }

  /** The vendor chosen is the leftmost of maximal qualifying score, and there is none only if none qualifies. */
  predicate Chooses(raw: string, vendors: seq<Vendor>, choice: Option<Vendor>) {
    match choice
    case None => forall j | 0 <= j < |vendors| :: Score(raw, vendors[j].name) < THRESHOLD
    case Some(v) => exists i :: 0 <= i < |vendors| && IsBest(raw, vendors, i) && v == vendors[i]
  }

  /** The loop in uploadAndExtract; without an extracted name no vendor is looked at. */
  method UploadVendor(rawName: Option<string>, vendors: seq<Vendor>) returns (choice: Option<Vendor>)
    ensures Chooses(if rawName.Some? then rawName.value else "", vendors, choice)
  {
    hide Score;
    var raw := if rawName.Some? then rawName.value else "";
    choice := None;
    if raw == [] {
      EmptyNeverMatches(vendors);
      return;
    }
    var bestScore := 0;
    ghost var at := 0;
    for i := 0 to |vendors|
      invariant choice.None? ==> forall j | 0 <= j < i :: Score(raw, vendors[j].name) < THRESHOLD
      invariant choice.Some? ==> at < i && choice.value == vendors[at] && bestScore == Score(raw, vendors[at].name) >= THRESHOLD
      invariant choice.Some? ==> forall j | 0 <= j < i :: Score(raw, vendors[j].name) <= bestScore
      invariant choice.Some? ==> forall j | 0 <= j < at :: Score(raw, vendors[j].name) < bestScore
    {
      var score := Score(raw, vendors[i].name);
      if score < THRESHOLD {
        continue;
      }
      if choice.None? || score > bestScore {
        choice, bestScore, at := Some(vendors[i]), score, i;
      }
    }
    if choice.Some? { assert IsBest(raw, vendors, at); }
  }

  /** bestVendorMatch on the client. */
  method BestVendorMatch(raw: string, vendors: seq<Vendor>) returns (choice: Option<Vendor>)
    ensures Chooses(raw, vendors, choice)
  {
    hide Score;
    var best: Option<(Vendor, int)> := None;
    ghost var at := 0;
    for i := 0 to |vendors|
      invariant best.None? ==> forall j | 0 <= j < i :: Score(raw, vendors[j].name) < THRESHOLD
      invariant best.Some? ==> at < i && best.value == (vendors[at], Score(raw, vendors[at].name)) && best.value.1 >= THRESHOLD
      invariant best.Some? ==> forall j | 0 <= j < i :: Score(raw, vendors[j].name) <= best.value.1
      invariant best.Some? ==> forall j | 0 <= j < at :: Score(raw, vendors[j].name) < best.value.1
    {
      var v := vendors[i];
      var score := Score(raw, v.name);
      if score < THRESHOLD {
        continue;
      }
      if best.None? || score > best.value.1 {
        best, at := Some((v, score)), i;
      }
    }
    if best.Some? { assert IsBest(raw, vendors, at); }
    choice := if best.Some? then Some(best.value.0) else None;
  }

  lemma EmptyNeverMatches(vendors: seq<Vendor>)
    ensures forall j | 0 <= j < |vendors| :: Score("", vendors[j].name) < THRESHOLD
  {
    assert Tidy("");
    NormalizeIdempotent("");
  }

  /** The choice is unique, so server and client pick the same vendor. */
  lemma ChoiceUnique(raw: string, vendors: seq<Vendor>, a: Option<Vendor>, b: Option<Vendor>)
    requires Chooses(raw, vendors, a) && Chooses(raw, vendors, b)
    ensures a == b
  {
    hide Score;
    if a.Some? && b.Some? {
      var i :| 0 <= i < |vendors| && IsBest(raw, vendors, i) && a.value == vendors[i];
      var j :| 0 <= j < |vendors| && IsBest(raw, vendors, j) && b.value == vendors[j];
      assert i == j;
    }
  }
}
