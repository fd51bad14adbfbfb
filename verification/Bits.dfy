/** Bit strings, most significant bit first, and the 32-bit arithmetic of JavaScript shifts. */
module Bits {

  type byte = n: int | 0 <= n < 256

  function Pow2(k: nat): (p: nat)
    ensures 1 <= p
  {
    if k == 0 then 1 else 2 * Pow2(k - 1)
  }

  function Bit(b: bool): int {
    if b then 1 else 0
  }

  /** The number a bit string writes. */
  function Val(bits: seq<bool>): (v: nat)
    ensures v < Pow2(|bits|)
  {
    if bits == [] then 0 else 2 * Val(bits[..|bits| - 1]) + Bit(bits[|bits| - 1])
  }

  /** The low `width` bits of a number. */
  function ToBits(n: nat, width: nat): (bits: seq<bool>)
    ensures |bits| == width
  {
    if width == 0 then [] else ToBits(n / 2, width - 1) + [n % 2 == 1]
  }

  lemma {:induction false} ValToBits(n: nat, width: nat)
    requires n < Pow2(width)
    ensures Val(ToBits(n, width)) == n
  {
    if 0 < width {
      ValToBits(n / 2, width - 1);
      var bits := ToBits(n, width);
      assert bits[..|bits| - 1] == ToBits(n / 2, width - 1);
    }
  }

  lemma {:induction false} ToBitsVal(bits: seq<bool>)
    ensures ToBits(Val(bits), |bits|) == bits
  {
    if bits != [] {
      ToBitsVal(bits[..|bits| - 1]);
      assert Val(bits) / 2 == Val(bits[..|bits| - 1]);
    }
  }

  lemma Doubled(x: int, p: int)
    ensures x * (2 * p) == 2 * (x * p)
  {
  }

  lemma {:induction false} ValConcat(a: seq<bool>, b: seq<bool>)
    ensures Val(a + b) == Val(a) * Pow2(|b|) + Val(b)
  {
    if b == [] {
      assert a + b == a;
    } else {
      var init := b[..|b| - 1];
      ValConcat(a, init);
      assert (a + b)[..|a + b| - 1] == a + init;
      assert Pow2(|b|) == 2 * Pow2(|init|);
      Doubled(Val(a), Pow2(|init|));
      assert Val(a + b) == 2 * Val(a + init) + Bit(b[|b| - 1]);
    }
  }

  function Zeros(n: nat): (z: seq<bool>)
    ensures |z| == n && Val(z) == 0
  {
    if n == 0 then [] else
      var z := Zeros(n - 1) + [false];
      assert z[..|z| - 1] == Zeros(n - 1);
      z
  }

  const TWO32 := 0x1_0000_0000

  lemma QuotientNatural(n: nat, d: nat)
    requires 0 < d
    ensures 0 <= n / d
  {
  }

  /** The 32-bit pattern of a number. */
  function Pattern(v: nat): (w: nat)
    ensures w < TWO32
  {
    v % TWO32
  }

  /** value & 31. */
  function And31(value: nat): (low: nat)
    ensures low < 32
  {
    value % 32
  }

  /** value & 255. */
  function And255(value: nat): (low: byte) {
    value % 256
  }

  /** value << k on the 32-bit pattern. */
  function ShiftLeft(value: nat, k: nat): nat {
    Pattern(value * Pow2(k))
  }

  /** value >>> k on the 32-bit pattern. */
  function ShiftRight(value: nat, k: nat): nat {
    QuotientNatural(value, Pow2(k));
    value / Pow2(k)
  }

  /** (value << k) | low on the 32-bit pattern: the shifted value has k clear low bits. */
  function ShiftIn(value: nat, k: nat, low: nat): (r: nat)
    requires low < Pow2(k)
  {
    ShiftLeft(value, k) + low
  }

  /** The eight powers the codecs shift by. */
  lemma SmallPowers()
    ensures Pow2(0) == 1 && Pow2(1) == 2 && Pow2(2) == 4 && Pow2(3) == 8 && Pow2(4) == 16
    ensures Pow2(5) == 32 && Pow2(6) == 64 && Pow2(7) == 128 && Pow2(8) == 256
  {
    assert Pow2(2) == 4;
    assert Pow2(4) == 16;
    assert Pow2(6) == 64;
  }

  /** Quotient and remainder are unique. */
  lemma DivMod(w: int, q: int, p: nat, l: nat)
    requires w == q * p + l && l < p
    ensures w / p == q && w % p == l
  {
    var d := w / p - q;
    assert d * p == l - w % p;
    assert d == 0;
  }

  /** Shifting in k bits and wrapping is shifting in the unbounded number and wrapping. */
  lemma ShiftInWraps(v: nat, k: nat, low: nat)
    requires (k == 5 || k == 8) && low < Pow2(k)
    ensures ShiftIn(Pattern(v), k, low) == Pattern(v * Pow2(k) + low)
  {
    SmallPowers();
    var (p, c) := (Pow2(k), if k == 5 then 134217728 else 16777216);
    assert p * c == TWO32;
    ShiftWrap(v, p, c, low);
  }

  lemma ShiftWrap(v: nat, p: nat, c: nat, low: nat)
    requires low < p && 0 < c && p * c == TWO32
    ensures v % TWO32 * p % TWO32 + low == (v * p + low) % TWO32
  {
    var (j, u) := (v / TWO32, v % TWO32);
    var (i, w) := (u / c, u % c);
    SplitTimes(c, i, w, p);
    SplitTimes(TWO32, j, u, p);
    TimesBelow(w, c, p);
    DivMod(u * p, i, TWO32, w * p);
    DivMod(v * p + low, j * p + i, TWO32, w * p + low);
  }

  lemma SplitTimes(c: int, i: int, w: int, p: int)
    ensures (c * i + w) * p == i * (p * c) + w * p
    ensures (c * i + w) * p == c * (i * p) + w * p
  {
  }

  lemma TimesBelow(w: nat, c: nat, p: nat)
    requires w < c
    ensures 0 <= w * p <= p * c - p
  {
    var d := c - 1 - w;
    SplitTimes(1, w + 1, d, p);
    SplitTimes(1, w, 1, p);
    NaturalTimes(d, p);
    NaturalTimes(w, p);
  }

  lemma NaturalTimes(a: nat, b: nat)
    ensures 0 <= a * b
  {
  }

  lemma WrapTimes(v: nat, p: nat)
    ensures Pattern(Pattern(v) * p) == Pattern(v * p)
  {
    var (j, u) := (v / TWO32, v % TWO32);
    var (i, rem) := (u * p / TWO32, u * p % TWO32);
    SplitTimes(TWO32, j, u, p);
    DivMod(v * p, j * p + i, TWO32, rem);
  }

  /** Reading m-valued live digits above p-valued low ones out of a value that has wrapped at 32 bits. */
  lemma Live(v: nat, high: nat, mid: nat, low: nat, p: nat, m: nat, k: nat)
    requires p * m * k == TWO32 && mid < m && low < p
    requires v == (high * m + mid) * p + low
    ensures v % TWO32 / p % m == mid
  {
    var (j, w) := (v / TWO32, v % TWO32);
    var rest := high - k * j;
    assert TWO32 * j == (m * (k * j)) * p;
    assert w == (rest * m + mid) * p + low;
    DivMod(w, rest * m + mid, p, low);
    DivMod(rest * m + mid, rest, m, mid);
  }

  lemma Room(r: nat, w: nat) returns (k: nat)
    requires r <= 7 && (w == 5 || w == 8)
    ensures Pow2(r) * Pow2(w) * k == TWO32
  {
    SmallPowers();
    k := TWO32 / (Pow2(r) * Pow2(w));
  }

  /** Reading w live bits that stand r bits above the bottom. */
  lemma LiveBits(a: seq<bool>, mid: seq<bool>, low: seq<bool>)
    requires (|mid| == 5 || |mid| == 8) && |low| <= 7
    ensures ShiftRight(Pattern(Val(a + mid + low)), |low|) % Pow2(|mid|) == Val(mid)
  {
    ValConcat(a, mid);
    ValConcat(a + mid, low);
    var (p, m) := (Pow2(|low|), Pow2(|mid|));
    var k := Room(|low|, |mid|);
    Live(Val(a + mid + low), Val(a), Val(mid), Val(low), p, m, k);
  }
}
