/**
 * Base32 as totp.ts writes and reads it: a loop that shifts bits into a 32-bit value which is
 * never masked. The reference is the bit-string reading of section 6 of RFC 4648, unpadded.
 */
module Base32 {
  import opened Prelude
  import opened Bits

  // ----- the alphabet -----

  const ALPHABET := "ABCDEFGHIJKLMNOPQRSTUVWXYZ234567"

  function Symbol(i: int): char
    requires 0 <= i < 32
  {
    if i < 26 then (i + 'A' as int) as char else (i - 26 + '2' as int) as char
  }

  /** ALPHABET.indexOf(ch). */
  function IndexOf(ch: char): (i: int)
    ensures -1 <= i < 32
    ensures 0 <= i ==> Symbol(i) == ch
  {
    if 'A' <= ch <= 'Z' then ch as int - 'A' as int
    else if '2' <= ch <= '7' then ch as int - '2' as int + 26
    else -1
  }

  lemma AlphabetSymbols(i: int)
    requires 0 <= i < 32
    ensures ALPHABET[i] == Symbol(i) && IndexOf(Symbol(i)) == i && Symbol(i) != '='
    ensures UpperChar(Symbol(i)) == Symbol(i)
  {
  }

  predicate InAlphabet(s: string) {
    forall ch | ch in s :: 0 <= IndexOf(ch)
  }

  // ----- RFC 4648 -----

  function BitsOf(bytes: seq<byte>): (bits: seq<bool>)
    ensures |bits| == 8 * |bytes|
  {
    if bytes == [] then [] else BitsOf(bytes[..|bytes| - 1]) + ToBits(bytes[|bytes| - 1], 8)
  }

  function GroupSymbol(bits: seq<bool>): char
    requires |bits| == 5
  {
    SmallPowers();
    Symbol(Val(bits))
  }

  /** Groups of five bits from the left; a short last group is filled with zero bits on the right. */
  function Encode(bits: seq<bool>): string {
    if bits == [] then []
    else if |bits| < 5 then [GroupSymbol(bits + Zeros(5 - |bits|))]
    else [GroupSymbol(bits[..5])] + Encode(bits[5..])
  }

  /** The bits of the symbols of a text over the alphabet. */
  function SymbolBits(s: string): (bits: seq<bool>)
    requires InAlphabet(s)
    ensures |bits| == 5 * |s|
  {
    if s == [] then [] else SymbolBits(s[..|s| - 1]) + ToBits(IndexOf(s[|s| - 1]), 5)
  }

  /** Groups of eight bits from the left; a short last group is dropped. */
  function Decode(bits: seq<bool>): seq<byte> {
    if |bits| < 8 then []
    else
      SmallPowers();
      [Val(bits[..8])] + Decode(bits[8..])
  }

  lemma {:induction false} EncodeConcat(a: seq<bool>, b: seq<bool>)
    requires |a| % 5 == 0
    ensures Encode(a + b) == Encode(a) + Encode(b)
    decreases |a|
  {
    hide GroupSymbol, Zeros;
    if a == [] {
      assert a + b == b;
    } else {
      var (group, rest) := (a[..5], a[5..]);
      assert (a + b)[..5] == group && (a + b)[5..] == rest + b;
      EncodeConcat(rest, b);
      Assoc([GroupSymbol(group)], Encode(rest), Encode(b));
    }
  }

  lemma {:induction false} DecodeConcat(a: seq<bool>, b: seq<bool>)
    requires |a| % 8 == 0
    ensures Decode(a + b) == Decode(a) + Decode(b)
    decreases |a|
  {
    if a == [] {
      assert a + b == b;
    } else {
      var (group, rest) := (a[..8], a[8..]);
      assert (a + b)[..8] == group && (a + b)[8..] == rest + b;
      DecodeConcat(rest, b);
      Assoc([Val(group)], Decode(rest), Decode(b));
    }
  }

  lemma EncodeGroup(g: seq<bool>)
    requires |g| == 5
    ensures 0 <= Val(g) < 32 && Encode(g) == [Symbol(Val(g))]
  {
    SmallPowers();
    assert g[..5] == g && g[5..] == [];
  }

  lemma EncodeShort(g: seq<bool>)
    requires 0 < |g| < 5
    ensures Encode(g) == Encode(g + Zeros(5 - |g|))
  {
    EncodeGroup(g + Zeros(5 - |g|));
  }

  lemma DecodeGroup(g: seq<bool>)
    requires |g| == 8
    ensures Val(g) < 256 && Decode(g) == [Val(g)]
  {
    SmallPowers();
    assert g[..8] == g && g[8..] == [];
  }

  // ----- the encoder -----

  /** A group of five bits is read out of the wrapped value as its symbol. */
  lemma ReadSymbol(a: seq<bool>, group: seq<bool>, low: seq<bool>)
    requires |a| % 5 == 0 && |group| == 5 && |low| <= 7
    ensures var i := And31(ShiftRight(Pattern(Val(a + group + low)), |low|));
      0 <= i < 32 && Encode(a + group) == Encode(a) + [Symbol(i)]
  {
    SmallPowers();
    LiveBits(a, group, low);
    EncodeConcat(a, group);
    EncodeGroup(group);
  }

  /** The five bits below the first `sent` of the live value. */
  lemma NextSymbol(all: seq<bool>, sent: nat)
    requires sent + 5 <= |all| <= sent + 12 && sent % 5 == 0
    ensures var i := And31(ShiftRight(Pattern(Val(all)), |all| - sent - 5));
      0 <= i < 32 && Encode(all[..sent + 5]) == Encode(all[..sent]) + [Symbol(i)] && (sent + 5) % 5 == 0
  {
    hide Val, Pow2, ShiftRight, Pattern, And31, Encode, Symbol;
    var (a, group, low) := (all[..sent], all[sent..sent + 5], all[sent + 5..]);
    assert all == a + group + low && all[..sent + 5] == a + group;
    ReadSymbol(a, group, low);
  }

  lemma LowFive(v: nat, x: nat, m: nat)
    requires v == x * 32 + m && m < 32
    ensures And31(Pattern(v)) == m
  {
  }

  lemma ReadLast(a: seq<bool>, group: seq<bool>)
    requires |a| % 5 == 0 && |group| == 5
    ensures var i := And31(Pattern(Val(a + group)));
      0 <= i < 32 && Encode(a + group) == Encode(a) + [Symbol(i)]
  {
    SmallPowers();
    ValConcat(a, group);
    EncodeConcat(a, group);
    EncodeGroup(group);
    LowFive(Val(a + group), Val(a), Val(group));
  }

  /** The index the encoder's last step computes, as the number of the padded bits. */
  lemma PaddedIndex(all: seq<bool>, k: nat)
    ensures ShiftLeft(Pattern(Val(all)), k) == Pattern(Val(all + Zeros(k)))
  {
    hide Val, Pow2, Zeros;
    ValConcat(all, Zeros(k));
    WrapTimes(Val(all), Pow2(k));
  }

  /** The last symbol: the remaining bits moved up by 5 - bits. */
  lemma LastSymbol(all: seq<bool>, sent: nat)
    requires sent < |all| < sent + 5 && sent % 5 == 0
    ensures var i := And31(ShiftLeft(Pattern(Val(all)), 5 - (|all| - sent)));
      0 <= i < 32 && Encode(all) == Encode(all[..sent]) + [Symbol(i)]
  {
    hide Val, Pow2, ShiftLeft, Pattern, And31, Encode, Symbol, Zeros;
    var (a, rest) := (all[..sent], all[sent..]);
    var k := 5 - |rest|;
    PaddedIndex(all, k);
    assert all == a + rest && all + Zeros(k) == a + (rest + Zeros(k));
    EncodeConcat(a, rest);
    EncodeShort(rest);
    EncodeConcat(a, rest + Zeros(k));
    ReadLast(a, rest + Zeros(k));
  }

  /** toBase32. */
  method ToBase32(bytes: seq<byte>) returns (out: string)
    ensures out == Encode(BitsOf(bytes))
  {
    hide Val, ToBits, Encode, Pow2, Symbol, BitsOf, ShiftIn, ShiftLeft, ShiftRight, Pattern, And31;
    var bits := 0;
    var value := 0;
    out := "";
    ghost var all: seq<bool> := [];
    ghost var sent := 0;
    EncodeNone();
    BitsOfNone(bytes);
    for i := 0 to |bytes|
      invariant all == BitsOf(bytes[..i])
      invariant 0 <= bits < 5 && |all| == sent + bits && 0 <= sent && sent % 5 == 0
      invariant value == Pattern(Val(all))
      invariant out == Encode(all[..sent])
    {
      ByteIn(all, bytes[i]);
      BitsOfStep(bytes, i);
      ghost var done := all[..sent];
      all := all + ToBits(bytes[i], 8);
      assert all[..sent] == done;
      value := ShiftIn(value, 8, bytes[i]);
      bits := bits + 8;
      while 5 <= bits
        invariant 0 <= bits <= 12 && |all| == sent + bits && 0 <= sent && sent % 5 == 0
        invariant out == Encode(all[..sent])
      {
        NextSymbol(all, sent);
        out := out + [Symbol(And31(ShiftRight(value, bits - 5)))];
        bits := bits - 5;
        sent := sent + 5;
      }
    }
    if 0 < bits {
      LastSymbol(all, sent);
      out := out + [Symbol(And31(ShiftLeft(value, 5 - bits)))];
    } else {
      assert all[..|all|] == all;
    }
  }

  lemma BitsOfNone(bytes: seq<byte>)
    ensures BitsOf(bytes[..0]) == [] && bytes[..|bytes|] == bytes
  {
  }

  lemma BitsOfStep(bytes: seq<byte>, i: nat)
    requires i < |bytes|
    ensures BitsOf(bytes[..i + 1]) == BitsOf(bytes[..i]) + ToBits(bytes[i], 8)
  {
    assert bytes[..i + 1][..i] == bytes[..i];
  }

  lemma EncodeNone()
    ensures Encode([]) == [] && Pattern(Val([])) == 0
  {
  }

  /** Shifting a byte into the wrapped value keeps it the wrapped number of all bits. */
  lemma ByteIn(all: seq<bool>, b: byte)
    ensures b < Pow2(8) && ShiftIn(Pattern(Val(all)), 8, b) == Pattern(Val(all + ToBits(b, 8)))
  {
    SmallPowers();
    ValToBits(b, 8);
    ValConcat(all, ToBits(b, 8));
    ShiftInWraps(Val(all), 8, b);
  }

  // ----- the decoder -----

  /** replace(/=+$/, ''). */
  function StripPadding(s: string): string {
    if s != [] && s[|s| - 1] == '=' then StripPadding(s[..|s| - 1]) else s
  }

  /** The characters of a text that are in the alphabet. */
  function Keep(s: string): (k: string)
    ensures InAlphabet(k)
  {
    if s == [] then []
    else
      var k := Keep(s[..|s| - 1]);
      if 0 <= IndexOf(s[|s| - 1]) then k + [s[|s| - 1]] else k
  }

  /** What a text decodes to: the bytes in the bits of its alphabet characters, ignoring case. */
  function Reading(s: string): seq<byte> {
    Decode(SymbolBits(Keep(Upper(s))))
  }

  /** A byte is read out of the wrapped value. */
  lemma ReadByte(a: seq<bool>, group: seq<bool>, low: seq<bool>)
    requires |a| % 8 == 0 && |group| == 8 && |low| <= 7
    ensures var b := And255(ShiftRight(Pattern(Val(a + group + low)), |low|));
      0 <= b < 256 && Decode(a + group) == Decode(a) + [b]
  {
    SmallPowers();
    LiveBits(a, group, low);
    DecodeConcat(a, group);
    DecodeGroup(group);
  }

  lemma NextByte(all: seq<bool>, sent: nat)
    requires sent + 8 <= |all| <= sent + 15 && sent % 8 == 0
    ensures var b := And255(ShiftRight(Pattern(Val(all)), |all| - sent - 8));
      0 <= b < 256 && Decode(all[..sent + 8]) == Decode(all[..sent]) + [b] && (sent + 8) % 8 == 0
  {
    hide Val, Pow2, ShiftRight, Pattern, And255, Decode;
    var (a, group, low) := (all[..sent], all[sent..sent + 8], all[sent + 8..]);
    assert all == a + group + low && all[..sent + 8] == a + group;
    ReadByte(a, group, low);
  }

  lemma SymbolIn(all: seq<bool>, i: nat)
    requires i < 32
    ensures i < Pow2(5) && ShiftIn(Pattern(Val(all)), 5, i) == Pattern(Val(all + ToBits(i, 5)))
  {
    SmallPowers();
    ValToBits(i, 5);
    ValConcat(all, ToBits(i, 5));
    ShiftInWraps(Val(all), 5, i);
  }

  /** Bits after the last whole byte do not count. */
  lemma DecodeTail(bits: seq<bool>, k: nat)
    requires k % 8 == 0 && k <= |bits| < k + 8
    ensures Decode(bits) == Decode(bits[..k])
  {
    assert bits == bits[..k] + bits[k..];
    DecodeConcat(bits[..k], bits[k..]);
  }

  lemma DecodeNone()
    ensures Decode([]) == [] && Pattern(Val([])) == 0
  {
  }

  /** fromBase32. */
  method FromBase32(input: string) returns (out: seq<byte>)
    ensures out == Decode(SymbolBits(Keep(Upper(StripPadding(input)))))
  {
    hide Val, ToBits, Decode, Pow2, ShiftIn, ShiftRight, Pattern, And255, Upper, StripPadding, Keep, SymbolBits, IndexOf;
    var clean := Upper(StripPadding(input));
    var bits := 0;
    var value := 0;
    out := [];
    ghost var all: seq<bool> := [];
    ghost var sent := 0;
    DecodeNone();
    KeepNothing();
    for i := 0 to |clean|
      invariant all == SymbolBits(Keep(clean[..i]))
      invariant 0 <= bits < 8 && |all| == sent + bits && 0 <= sent && sent % 8 == 0
      invariant value == Pattern(Val(all))
      invariant out == Decode(all[..sent])
    {
      var idx := IndexOf(clean[i]);
      KeepStep(clean, i);
      if idx < 0 {
        continue;
      }
      SymbolIn(all, idx);
      ghost var done := all[..sent];
      all := all + ToBits(idx, 5);
      assert all[..sent] == done;
      value := ShiftIn(value, 5, idx);
      bits := bits + 5;
      if 8 <= bits {
        NextByte(all, sent);
        out := out + [And255(ShiftRight(value, bits - 8))];
        bits := bits - 8;
        sent := sent + 8;
      }
    }
    assert clean[..|clean|] == clean;
    DecodeTail(all, sent);
  }

  lemma KeepNothing()
    ensures Keep([]) == [] && InAlphabet([]) && SymbolBits([]) == []
  {
  }

  lemma KeepStep(s: string, i: nat)
    requires i < |s|
    ensures SymbolBits(Keep(s[..i + 1])) == SymbolBits(Keep(s[..i]))
      + if 0 <= IndexOf(s[i]) then ToBits(IndexOf(s[i]), 5) else []
  {
    var k := Keep(s[..i + 1]);
    assert s[..i + 1][..i] == s[..i];
    if 0 <= IndexOf(s[i]) { assert k[..|k| - 1] == Keep(s[..i]); }
  }

  // ----- lenient reading -----

  lemma {:induction false} KeepConcat(a: string, b: string)
    ensures Keep(a + b) == Keep(a) + Keep(b)
  {
    if b == [] {
      assert a + b == a;
    } else {
      assert (a + b)[..|a + b| - 1] == a + b[..|b| - 1];
      KeepConcat(a, b[..|b| - 1]);
    }
  }

  lemma {:induction false} KeepAll(s: string)
    requires InAlphabet(s)
    ensures Keep(s) == s && Upper(s) == s
  {
    if s != [] {
      var (init, ch) := (s[..|s| - 1], s[|s| - 1]);
      assert ch in s && forall c | c in init :: c in s;
      KeepAll(init);
      AlphabetSymbols(IndexOf(ch));
      assert s == init + [ch];
      assert Upper(s) == Upper(init) + [UpperChar(ch)];
    }
  }

  lemma UpperConcat(a: string, b: string)
    ensures Upper(a + b) == Upper(a) + Upper(b)
  {
  }

  /** Trailing padding is not in the alphabet, so stripping it changes nothing. */
  lemma {:induction false} PaddingIgnored(s: string)
    ensures Keep(Upper(StripPadding(s))) == Keep(Upper(s))
  {
    if s != [] && s[|s| - 1] == '=' {
      var init := s[..|s| - 1];
      PaddingIgnored(init);
      assert s == init + "=";
      UpperConcat(init, "=");
      KeepConcat(Upper(init), Upper("="));
      assert Upper("=") == "=" && Keep("=") == [] by { assert "="[..0] == ""; }
    }
  }

  /**
   * fromBase32 reads any ASCII text as the text upper-cased with everything outside the alphabet
   * removed; in particular padding, spaces and dashes anywhere are harmless.
   */
  lemma Lenient(s: string)
    ensures Decode(SymbolBits(Keep(Upper(StripPadding(s))))) == Reading(s)
    ensures Reading(s) == Reading(Keep(Upper(s)))
  {
    PaddingIgnored(s);
    KeepAll(Keep(Upper(s)));
  }

  lemma NoiseIgnored(a: string, noise: char, b: string)
    requires IndexOf(UpperChar(noise)) < 0
    ensures Reading(a + [noise] + b) == Reading(a + b)
  {
    UpperConcat(a + [noise], b);
    UpperConcat(a, [noise]);
    UpperConcat(a, b);
    KeepConcat(Upper(a + [noise]), Upper(b));
    KeepConcat(Upper(a), Upper([noise]));
    KeepConcat(Upper(a), Upper(b));
    assert Upper([noise]) == [UpperChar(noise)] && Keep([UpperChar(noise)]) == [] by {
      assert [UpperChar(noise)][..0] == [];
    }
  }

  // ----- round trips -----

  lemma {:induction false} SymbolBitsConcat(a: string, b: string)
    requires InAlphabet(a) && InAlphabet(b)
    ensures InAlphabet(a + b) && SymbolBits(a + b) == SymbolBits(a) + SymbolBits(b)
  {
    hide IndexOf, ToBits;
    if b == [] {
      assert a + b == a;
    } else {
      var init := b[..|b| - 1];
      assert (a + b)[..|a + b| - 1] == a + init;
      assert forall c | c in init :: c in b;
      SymbolBitsConcat(a, init);
      Assoc(SymbolBits(a), SymbolBits(init), ToBits(IndexOf(b[|b| - 1]), 5));
    }
  }

  lemma SymbolBitsGroup(g: seq<bool>)
    requires |g| == 5
    ensures InAlphabet(Encode(g)) && SymbolBits(Encode(g)) == g
  {
    EncodeGroup(g);
    AlphabetSymbols(Val(g));
    var s := [Symbol(Val(g))];
    assert s[..0] == [];
    ToBitsVal(g);
    assert SymbolBits(s) == [] + ToBits(Val(g), 5);
  }

  /** How many zero bits fill n bits up to a multiple of five. */
  function Fill(n: nat): (f: nat)
    ensures f < 5 && (n + f) % 5 == 0
  {
    if n % 5 == 0 then 0 else 5 - n % 5
  }

  lemma FillUnique(n: nat, f: nat)
    requires f < 5 && (n + f) % 5 == 0
    ensures Fill(n) == f
  {
  }

  lemma FillWhole(n: nat, f: nat)
    requires f < 5 && f <= 5 * n
    ensures Fill(5 * n - f) == f
  {
    FillUnique(5 * n - f, f);
  }

  /** The symbols of an encoding spell its bits, filled with zeros to a multiple of five. */
  lemma {:induction false} SymbolBitsEncode(bits: seq<bool>)
    ensures InAlphabet(Encode(bits))
    ensures SymbolBits(Encode(bits)) == bits + Zeros(Fill(|bits|))
    decreases |bits|
  {
    hide Encode, SymbolBits, Fill, Zeros, IndexOf, Val, InAlphabet;
    EncodeNone();
    KeepNothing();
    if bits == [] {
    } else if |bits| < 5 {
      FillUnique(|bits|, 5 - |bits|);
      EncodeShort(bits);
      SymbolBitsGroup(bits + Zeros(5 - |bits|));
    } else {
      var (g, rest) := (bits[..5], bits[5..]);
      assert bits == g + rest;
      SymbolBitsEncode(rest);
      FillUnique(|bits|, Fill(|rest|));
      SymbolBitsGroup(g);
      EncodeConcat(g, rest);
      SymbolBitsConcat(Encode(g), Encode(rest));
    }
  }

  lemma {:induction false} DecodeBitsOf(bytes: seq<byte>)
    ensures Decode(BitsOf(bytes)) == bytes
  {
    if bytes != [] {
      var (init, b) := (bytes[..|bytes| - 1], bytes[|bytes| - 1]);
      DecodeBitsOf(init);
      DecodeConcat(BitsOf(init), ToBits(b, 8));
      DecodeGroup(ToBits(b, 8));
      SmallPowers();
      ValToBits(b, 8);
    }
  }

  /** Decoding what was encoded returns the bytes, for every byte sequence. */
  lemma RoundTrip(bytes: seq<byte>)
    ensures Reading(Encode(BitsOf(bytes))) == bytes
    ensures Decode(SymbolBits(Keep(Upper(StripPadding(Encode(BitsOf(bytes))))))) == bytes
  {
    hide Encode, Decode, BitsOf, SymbolBits, Keep, Upper, StripPadding, Fill, Zeros, IndexOf;
    var bits := BitsOf(bytes);
    var text := Encode(bits);
    SymbolBitsEncode(bits);
    KeepAll(text);
    Lenient(text);
    DecodeFilled(bytes, Zeros(Fill(|bits|)));
    DecodeBitsOf(bytes);
  }

  lemma DecodeFilled(bytes: seq<byte>, fill: seq<bool>)
    requires |fill| < 5
    ensures Decode(BitsOf(bytes) + fill) == Decode(BitsOf(bytes))
  {
    hide Decode, BitsOf;
    var all := BitsOf(bytes) + fill;
    assert all[..|BitsOf(bytes)|] == BitsOf(bytes);
    DecodeTail(all, |BitsOf(bytes)|);
  }

  lemma {:induction false} BitsOfConcat(a: seq<byte>, b: seq<byte>)
    ensures BitsOf(a + b) == BitsOf(a) + BitsOf(b)
  {
    if b == [] {
      assert a + b == a;
    } else {
      assert (a + b)[..|a + b| - 1] == a + b[..|b| - 1];
      BitsOfConcat(a, b[..|b| - 1]);
    }
  }

  lemma {:induction false} BitsOfDecode(bits: seq<bool>)
    ensures BitsOf(Decode(bits)) == bits[..|bits| - |bits| % 8]
    decreases |bits|
  {
    hide Val, BitsOf, ToBits;
    if 8 <= |bits| {
      var (g, rest) := (bits[..8], bits[8..]);
      BitsOfDecode(rest);
      DecodeGroup(g);
      ToBitsVal(g);
      var one: seq<byte> := [Val(g)];
      BitsOfNone(one);
      BitsOfStep(one, 0);
      BitsOfConcat(one, Decode(rest));
      assert Decode(bits) == one + Decode(rest);
      assert |bits| % 8 == |rest| % 8;
      assert bits[..|bits| - |bits| % 8] == g + rest[..|rest| - |rest| % 8];
    } else {
      assert bits[..0] == [];
      BitsOfNone([]);
    }
  }

  lemma {:induction false} EncodeSymbolBits(s: string)
    requires InAlphabet(s)
    ensures Encode(SymbolBits(s)) == s
  {
    hide Encode, Val, ToBits, IndexOf, Pow2;
    EncodeNone();
    if s != [] {
      var (init, ch) := (s[..|s| - 1], s[|s| - 1]);
      assert ch in s && forall c | c in init :: c in s;
      EncodeSymbolBits(init);
      SmallPowers();
      ValToBits(IndexOf(ch), 5);
      EncodeConcat(SymbolBits(init), ToBits(IndexOf(ch), 5));
      EncodeGroup(ToBits(IndexOf(ch), 5));
    }
  }

  /** The bits of a text that do not fill a byte. */
  function Leftover(s: string): seq<bool>
    requires InAlphabet(s)
  {
    SymbolBits(s)[5 * |s| - 5 * |s| % 8..]
  }

  /**
   * Which texts are canonical: re-encoding the decoded bytes gives the text back exactly when
   * fewer than five bits are left over and they are all zero.
   */
  lemma Canonical(s: string)
    requires InAlphabet(s)
    ensures Encode(BitsOf(Reading(s))) == s <==> 5 * |s| % 8 < 5 && Leftover(s) == Zeros(5 * |s| % 8)
  {
    hide Encode, Decode, BitsOf, SymbolBits, Keep, Upper, Fill, Zeros, IndexOf, InAlphabet;
    KeepAll(s);
    EncodeSymbolBits(s);
    var all := SymbolBits(s);
    var r := 5 * |s| % 8;
    var whole := all[..|all| - r];
    assert all == whole + Leftover(s);
    BitsOfDecode(all);
    SymbolBitsEncode(whole);
    if r < 5 {
      FillWhole(|s|, r);
      SameSymbols(Encode(whole), s);
      assert all[|whole|..] == Leftover(s) && (whole + Zeros(r))[|whole|..] == Zeros(r);
    } else {
      assert |SymbolBits(Encode(whole))| < |all|;
    }
  }

  /** A text is determined by the bits of its symbols. */
  lemma SameSymbols(s: string, t: string)
    requires InAlphabet(s) && InAlphabet(t)
    ensures SymbolBits(s) == SymbolBits(t) <==> s == t
  {
    EncodeSymbolBits(s);
    EncodeSymbolBits(t);
  }
}
