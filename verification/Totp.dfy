/**
 * One-time codes (totp.ts: hotp, verifyTotp). HMAC-SHA1 is a parameter: any function from key and
 * message to twenty bytes. Truncation is section 5.3 of RFC 4226, the window section 5.2 of RFC 6238.
 */
module Totp {
  import opened Prelude
  import opened Bits
  import opened Base32

  type Hmac = (seq<byte>, seq<byte>) -> seq<byte>

  ghost predicate TwentyBytes(hmac: Hmac) {
    forall key, message :: |hmac(key, message)| == 20
  }

  const STEP := 30
  const MODULUS := 1000000

  /** The low k bytes of a number, most significant first. */
  function BigEndian(n: nat, k: nat): (bytes: seq<byte>)
    ensures |bytes| == k
  {
    if k == 0 then [] else BigEndian(n / 256, k - 1) + [n % 256]
  }

  /** The number some bytes write, most significant first. */
  function Number(bytes: seq<byte>): nat {
    if bytes == [] then 0 else 256 * Number(bytes[..|bytes| - 1]) + bytes[|bytes| - 1]
  }

  function Pow256(k: nat): nat {
    if k == 0 then 1 else 256 * Pow256(k - 1)
  }

  /** The counter's message bytes write the counter, so different counters give different messages. */
  lemma {:induction false} BigEndianReads(n: nat, k: nat)
    requires n < Pow256(k)
    ensures Number(BigEndian(n, k)) == n
  {
    if 0 < k {
      BigEndianReads(n / 256, k - 1);
      var bytes := BigEndian(n, k);
      assert bytes[..|bytes| - 1] == BigEndian(n / 256, k - 1);
    }
  }

  /** The four bytes from `offset`, joined with shifts; the top bit is masked off. */
  function Truncate(mac: seq<byte>): (bin: nat)
    requires |mac| == 20
  {
    var offset := mac[|mac| - 1] as int % 16;
    var at := (i: int) requires 0 <= i < 20 => mac[i] as int;
    at(offset) % 128 * 0x1000000 + at(offset + 1) * 0x10000 + at(offset + 2) * 0x100 + at(offset + 3)
  }

  /** Dynamic truncation is the big-endian number of four bytes inside the digest, modulo 2^31. */
  lemma TruncateIsBigEndian(mac: seq<byte>)
    requires |mac| == 20
    ensures var offset := mac[19] as int % 16;
      offset + 4 <= |mac| && Truncate(mac) == Number(mac[offset..offset + 4]) % 0x8000_0000
  {
    var offset := mac[19] as int % 16;
    var (a, b, c, d) := (mac[offset] as int, mac[offset + 1] as int, mac[offset + 2] as int, mac[offset + 3] as int);
    NumberOfFour(mac[offset], mac[offset + 1], mac[offset + 2], mac[offset + 3]);
    assert mac[offset..offset + 4] == [mac[offset], mac[offset + 1], mac[offset + 2], mac[offset + 3]];
    TopBit(a, b * 0x10000 + c * 0x100 + d);
  }

  lemma NumberNext(bytes: seq<byte>, b: byte)
    ensures Number(bytes + [b]) == 256 * Number(bytes) + b
  {
  }

  lemma NumberOfFour(a: byte, b: byte, c: byte, d: byte)
    ensures Number([a, b, c, d]) == a as int * 0x1000000 + b as int * 0x10000 + c as int * 0x100 + d
  {
    NumberNext([], a);
    NumberNext([a], b);
    NumberNext([a, b], c);
    NumberNext([a, b, c], d);
    assert [] + [a] == [a] && [a] + [b] == [a, b] && [a, b] + [c] == [a, b, c] && [a, b, c] + [d] == [a, b, c, d];
  }

  lemma TopBit(a: nat, rest: nat)
    requires a < 256 && rest < 0x1000000
    ensures (a * 0x1000000 + rest) % 0x8000_0000 == a % 128 * 0x1000000 + rest
  {
    assert a * 0x1000000 == (a / 128) * 0x8000_0000 + a % 128 * 0x1000000;
  }

  // ----- printing -----

  /** s.padStart(width, '0'). */
  function PadStart(s: string, width: nat): (p: string)
    ensures |p| == Max(|s|, width)
    decreases width - |s|
  {
    if width <= |s| then s else PadStart("0" + s, width)
  }

  predicate AllDigits(s: string) {
    forall ch | ch in s :: IsDigit(ch)
  }

  /** The number a digit string writes. */
  function ReadDecimal(s: string): nat
    requires AllDigits(s)
  {
    if s == [] then 0
    else
      assert IsDigit(s[|s| - 1]) && forall c | c in s[..|s| - 1] :: c in s;
      10 * ReadDecimal(s[..|s| - 1]) + (s[|s| - 1] as int - '0' as int)
  }

  function Pow10(k: nat): nat {
    if k == 0 then 1 else 10 * Pow10(k - 1)
  }

  lemma {:induction false} DecimalReads(n: nat, k: nat)
    requires n < Pow10(k)
    ensures AllDigits(Decimal(n)) && ReadDecimal(Decimal(n)) == n && |Decimal(n)| <= Max(k, 1)
  {
    var s := Decimal(n);
    if n < 10 {
      assert s[..0] == [];
    } else {
      DecimalReads(n / 10, k - 1);
      assert s[..|s| - 1] == Decimal(n / 10);
    }
  }

  lemma {:induction false} LeadingZero(s: string)
    requires AllDigits(s)
    ensures AllDigits("0" + s) && ReadDecimal("0" + s) == ReadDecimal(s)
  {
    var z := "0" + s;
    if s == [] {
      assert z[..0] == [];
    } else {
      assert forall c | c in s[..|s| - 1] :: c in s;
      LeadingZero(s[..|s| - 1]);
      assert z[..|z| - 1] == "0" + s[..|s| - 1];
    }
  }

  lemma {:induction false} PadReads(s: string, width: nat)
    requires AllDigits(s)
    ensures AllDigits(PadStart(s, width)) && ReadDecimal(PadStart(s, width)) == ReadDecimal(s)
    decreases width - |s|
  {
    if |s| < width {
      LeadingZero(s);
      PadReads("0" + s, width);
    }
  }

  // ----- codes -----

  /** The code for a counter, with the secret read leniently. */
  function Code(hmac: Hmac, secret: string, counter: nat): string
    requires |hmac(Reading(secret), BigEndian(counter, 8))| == 20
  {
    PadStart(Decimal(Truncate(hmac(Reading(secret), BigEndian(counter, 8))) % MODULUS), 6)
  }

  predicate SixDigits(s: string) {
    |s| == 6 && AllDigits(s)
  }

  /** Every code is six digits and writes the truncated number modulo a million. */
  lemma CodeIsSixDigits(hmac: Hmac, secret: string, counter: nat)
    requires |hmac(Reading(secret), BigEndian(counter, 8))| == 20
    ensures SixDigits(Code(hmac, secret, counter))
    ensures ReadDecimal(Code(hmac, secret, counter))
      == Truncate(hmac(Reading(secret), BigEndian(counter, 8))) % MODULUS
  {
    var n := Truncate(hmac(Reading(secret), BigEndian(counter, 8))) % MODULUS;
    Million();
    DecimalReads(n, 6);
    PadReads(Decimal(n), 6);
  }

  lemma Million()
    ensures Pow10(6) == MODULUS
  {
    assert Pow10(2) == 100;
    assert Pow10(4) == 10000;
  }

  /** hotp; a counter outside 64 bits makes the buffer write throw. */
  method Hotp(hmac: Hmac, secret: string, counter: int) returns (code: Option<string>)
    requires TwentyBytes(hmac)
    ensures code == if 0 <= counter < 0x1_0000_0000_0000_0000 then Some(Code(hmac, secret, counter)) else None
  {
    if counter < 0 || 0x1_0000_0000_0000_0000 <= counter {
      return None;
    }
    var key := FromBase32(secret);
    Lenient(secret);
    var mac := hmac(key, BigEndian(counter, 8));
    code := Some(PadStart(Decimal(Truncate(mac) % MODULUS), 6));
  }

  // ----- the window -----

  /** code.replace(/\s/g, ''). */
  function Squeeze(s: string): string {
    if s == [] then [] else (if IsSpace(s[0]) then [] else [s[0]]) + Squeeze(s[1..])
  }

  lemma {:induction false} SqueezeConcat(a: string, b: string)
    ensures Squeeze(a + b) == Squeeze(a) + Squeeze(b)
  {
    hide IsSpace;
    if a == [] {
      assert a + b == b;
    } else {
      assert (a + b)[1..] == a[1..] + b;
      SqueezeConcat(a[1..], b);
      Assoc(if IsSpace(a[0]) then [] else [a[0]], Squeeze(a[1..]), Squeeze(b));
    }
  }

  /** What was typed counts without its white space, wherever it stands, and with everything else. */
  lemma {:induction false} SpacesIgnored(a: string, ch: char, b: string)
    ensures IsSpace(ch) ==> Squeeze(a + [ch] + b) == Squeeze(a + b)
    ensures !IsSpace(ch) ==> Squeeze(a + [ch] + b) == Squeeze(a) + [ch] + Squeeze(b)
    ensures Squeeze("") == ""
  {
    hide IsSpace;
    SqueezeConcat(a + [ch], b);
    SqueezeConcat(a, [ch]);
    SqueezeConcat(a, b);
    assert [ch][1..] == [];
  }

  /** Some counter within the window of `now` has this code. */
  ghost predicate Accepted(hmac: Hmac, secret: string, code: string, now: nat, window: nat)
    requires TwentyBytes(hmac)
  {
    exists c: nat :: now - window <= c <= now + window && Code(hmac, secret, c) == Squeeze(code)
  }

  /** verifyTotp at a given second; near the epoch a negative counter makes it throw. */
  method VerifyTotp(hmac: Hmac, secret: string, code: string, seconds: nat, window: nat) returns (ok: Option<bool>)
    requires TwentyBytes(hmac)
    requires seconds / 30 + window < 0x1_0000_0000_0000_0000
    ensures !(|Squeeze(code)| == 6 && forall ch | ch in Squeeze(code) :: '0' <= ch <= '9') ==> ok == Some(false)
    ensures SixDigits(Squeeze(code)) && seconds / 30 < window ==> ok == None
    ensures SixDigits(Squeeze(code)) && window <= seconds / 30 ==>
      ok.Some? && (ok.value <==> Accepted(hmac, secret, code, seconds / 30, window))
  {
    hide Code, Squeeze;
    var trimmed := Squeeze(code);
    if !SixDigits(trimmed) {
      return Some(false);
    }
    var now := seconds / STEP;
    var i := -(window as int);
    while i <= window
      invariant -(window as int) <= i <= window + 1
      invariant now < window ==> i == -(window as int)
      invariant forall c: nat | now - window <= c < now + i :: Code(hmac, secret, c) != trimmed
    {
      var expected := Hotp(hmac, secret, now + i);
      if expected.None? {
        return None;
      }
      if expected.value == trimmed {
        return Some(true);
      }
      i := i + 1;
    }
    ok := Some(false);
  }

  /** A code for counter k is inside a window of one step exactly from 30 (k - 1) to 30 (k + 2) seconds. */
  lemma StepWindow(k: nat, seconds: nat)
    ensures seconds / STEP - 1 <= k <= seconds / STEP + 1 <==> 30 * (k - 1) <= seconds < 30 * (k + 2)
  {
  }

  lemma DigitIsNoSpace(ch: char)
    requires IsDigit(ch)
    ensures !IsSpace(ch)
  {
  }

  lemma {:induction false} SqueezeDigits(s: string)
    requires AllDigits(s)
    ensures Squeeze(s) == s
  {
    hide IsSpace;
    if s != [] {
      assert s[0] in s && forall c | c in s[1..] :: c in s;
      DigitIsNoSpace(s[0]);
      SqueezeDigits(s[1..]);
    }
  }

  /**
   * With a window of one step, the code of counter k is accepted at every second from 30 (k - 1)
   * up to 30 (k + 2); at any other second it is accepted only where a neighbouring counter
   * happens to have the same code.
   */
  lemma OwnCodeAccepted(hmac: Hmac, secret: string, k: nat, seconds: nat)
    requires TwentyBytes(hmac) && 30 <= seconds
    ensures var now := seconds / 30;
      Accepted(hmac, secret, Code(hmac, secret, k), now, 1) <==>
        30 * (k - 1) <= seconds < 30 * (k + 2)
        || Code(hmac, secret, k) in {Code(hmac, secret, now - 1), Code(hmac, secret, now), Code(hmac, secret, now + 1)}
  {
    hide Code, Squeeze;
    var now := seconds / STEP;
    CodeIsSixDigits(hmac, secret, k);
    SqueezeDigits(Code(hmac, secret, k));
    StepWindow(k, seconds);
  }

  /** Only what the secret spells matters: case, spacing and padding do not. */
  lemma SecretSpelling(hmac: Hmac, secret: string, counter: nat)
    requires TwentyBytes(hmac)
    ensures Code(hmac, Keep(Upper(secret)), counter) == Code(hmac, secret, counter)
  {
    Lenient(secret);
  }

  /** A secret made from bytes keys the HMAC with exactly those bytes. */
  lemma SecretBytes(hmac: Hmac, bytes: seq<byte>, counter: nat)
    requires TwentyBytes(hmac)
    ensures Code(hmac, Encode(BitsOf(bytes)), counter)
      == PadStart(Decimal(Truncate(hmac(bytes, BigEndian(counter, 8))) % MODULUS), 6)
  {
    RoundTrip(bytes);
  }
}
