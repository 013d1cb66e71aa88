/** Digits, and the strings of digits that ksprintf writes and kstrtol reads. */
module Numerals {
  import opened Base

  const LONG_MAX := 0x7FFF_FFFF_FFFF_FFFF

  function DigitChar(d: nat, uppercase: bool): char
    requires d < 16
  {
    if uppercase then "0123456789ABCDEF"[d] else "0123456789abcdef"[d]
  }

  /** char_to_digit */
  function CharToDigit(c: char): (d: int)
    ensures -1 <= d < 16
  {
    if '0' <= c <= '9' then c as int - '0' as int
    else if 'a' <= c <= 'f' then c as int - 'a' as int + 10
    else if 'A' <= c <= 'F' then c as int - 'A' as int + 10
    else -1
  }

  lemma DigitRoundTrip(d: nat, uppercase: bool)
    requires d < 16
    ensures CharToDigit(DigitChar(d, uppercase)) == d
  {
  }

  predicate IsDigit(c: char, base: nat) { 0 <= CharToDigit(c) < base }

  predicate AllDigits(s: string, base: nat) {
    forall c <- s :: IsDigit(c, base)
  }

  /** The value of a digit string, most significant digit first. */
  function Value(s: string, base: nat): (v: nat)
    requires AllDigits(s, base)
  {
    if s == [] then 0
    else
      assert IsDigit(s[|s| - 1], base);
      Value(s[..|s| - 1], base) * base + CharToDigit(s[|s| - 1])
  }

  lemma ValueOfAppend(s: string, c: char, base: nat)
    requires AllDigits(s, base) && IsDigit(c, base)
    ensures AllDigits(s + [c], base) && Value(s + [c], base) == Value(s, base) * base + CharToDigit(c)
  {
    assert (s + [c])[..|s|] == s;
  }

  /** The numeral of `v`: no leading zero, and "0" for zero. */
  function Numeral(v: nat, base: nat, uppercase: bool): (s: string)
    requires 2 <= base <= 16
    ensures |s| > 0
  {
    if v < base then [DigitChar(v, uppercase)]
    else Numeral(v / base, base, uppercase) + [DigitChar(v % base, uppercase)]
  }

  lemma DigitIsRead(s: string, d: nat, base: nat, uppercase: bool)
    requires 2 <= base <= 16 && d < base && AllDigits(s, base)
    ensures AllDigits(s + [DigitChar(d, uppercase)], base)
    ensures Value(s + [DigitChar(d, uppercase)], base) == Value(s, base) * base + d
  {
    DigitRoundTrip(d, uppercase);
    hide DigitChar, CharToDigit;
    ValueOfAppend(s, DigitChar(d, uppercase), base);
  }

  lemma {:induction false} NumeralValue(v: nat, base: nat, uppercase: bool)
    requires 2 <= base <= 16
    ensures AllDigits(Numeral(v, base, uppercase), base)
    ensures Value(Numeral(v, base, uppercase), base) == v
  {
    hide DigitChar, CharToDigit, AllDigits, Value, Numeral;
    NumeralCases(v, base, uppercase);
    if v < base {
      NoDigits(base);
      DigitIsRead([], v, base, uppercase);
      assert [] + [DigitChar(v, uppercase)] == [DigitChar(v, uppercase)];
    } else {
      NumeralValue(v / base, base, uppercase);
      DivisionIdentity(v, base);
      DigitIsRead(Numeral(v / base, base, uppercase), v % base, base, uppercase);
    }
  }

  lemma NumeralCases(v: nat, base: nat, uppercase: bool)
    requires 2 <= base <= 16
    ensures v < base ==> Numeral(v, base, uppercase) == [DigitChar(v, uppercase)]
    ensures v >= base ==>
      v / base < v && Numeral(v, base, uppercase) == Numeral(v / base, base, uppercase) + [DigitChar(v % base, uppercase)]
  {
  }

  lemma NoDigits(base: nat)
    ensures AllDigits([], base) && Value([], base) == 0
  {
  }

  lemma DivisionIdentity(v: nat, d: nat)
    requires d > 0
    ensures v == v / d * d + v % d
  {
  }

  /** Leading zeros change nothing. */
  lemma {:induction false} ValueOfZeros(n: nat, s: string, base: nat)
    requires 2 <= base <= 16 && AllDigits(s, base)
    ensures AllDigits(seq(n, _ => '0') + s, base)
    ensures Value(seq(n, _ => '0') + s, base) == Value(s, base)
    decreases |s|, n
  {
    var z := seq(n, _ => '0') + s;
    if s == [] {
      if n > 0 {
        assert z[..|z| - 1] == seq(n - 1, _ => '0') + s;
        ValueOfZeros(n - 1, s, base);
      }
    } else {
      assert z[..|z| - 1] == seq(n, _ => '0') + s[..|s| - 1];
      ValueOfZeros(n, s[..|s| - 1], base);
    }
  }

  lemma {:induction false} PrefixValue(s: string, n: nat, base: nat)
    requires base >= 1 && AllDigits(s, base) && n <= |s|
    ensures Value(s[..n], base) <= Value(s, base)
    decreases |s|
  {
    if n == |s| {
      assert s[..n] == s;
    } else {
      hide CharToDigit;
      PrefixValue(s[..|s| - 1], n, base);
      assert s[..|s| - 1][..n] == s[..n] && IsDigit(s[|s| - 1], base);
      TimesAtLeastOne(Value(s[..|s| - 1], base), base);
    }
  }

  lemma TimesAtLeastOne(a: nat, b: nat)
    requires b >= 1
    ensures a <= a * b
  {
  }

  // ---- 64-step shift-subtract division ----

  function Pow2(n: nat): (p: nat)
    ensures p > 0
  {
    if n == 0 then 1 else 2 * Pow2(n - 1)
  }

  lemma Pow2Of16()
    ensures Pow2(16) == 0x1_0000
  {
    assert Pow2(1) == 2 && Pow2(2) == 4;
    hide Pow2;
    Pow2Sum(2, 2);
    Pow2Sum(4, 4);
    Pow2Sum(8, 8);
  }

  lemma Pow2Of32()
    ensures Pow2(32) == TWO32
  {
    hide Pow2;
    Pow2Of16();
    Pow2Sum(16, 16);
  }

  lemma Pow2Of64()
    ensures Pow2(64) == TWO64 && Pow2(32) == TWO32
  {
    hide Pow2;
    Pow2Of32();
    Pow2Sum(32, 32);
  }

  lemma {:induction false} Pow2Sum(a: nat, b: nat)
    ensures Pow2(a + b) == Pow2(a) * Pow2(b)
  {
    if b > 0 { Pow2Sum(a, b - 1); }
  }

  /** Bit `i` joins the part of the value already shifted in. */
  lemma ShiftIn(value: nat, i: nat)
    ensures value / Pow2(i) == 2 * (value / Pow2(i + 1)) + value / Pow2(i) % 2
  {
    var p := Pow2(i);
    HalfOfQuotient(value, p);
  }

  lemma HalfOfQuotient(value: nat, p: nat)
    requires p > 0
    ensures value / p / 2 == value / (2 * p)
  {
    var q, r := value / p, value % p;
    var h, l := q / 2, q % 2;
    DivisionIdentity(value, p);
    assert q == 2 * h + l;
    assert (2 * h + l) * p == h * (2 * p) + l * p;
    TimesBit(l, p);
    QuotientIsUnique(value, 2 * p, h, l * p + r);
  }

  lemma TimesBit(l: nat, p: nat)
    requires l < 2
    ensures l * p <= p
  {
  }

  lemma TimesMonotone(a: nat, b: nat, d: nat)
    requires a <= b
    ensures a * d <= b * d
  {
  }

  lemma QuotientIsUnique(value: nat, d: nat, q: nat, r: nat)
    requires d > 0 && value == q * d + r && r < d
    ensures value / d == q && value % d == r
  {
    var q', r' := value / d, value % d;
    DivisionIdentity(value, d);
    assert (q + 1) * d == q * d + d && (q' + 1) * d == q' * d + d;
    if q < q' { TimesMonotone(q + 1, q', d); }
    if q' < q { TimesMonotone(q' + 1, q, d); }
  }

  /** kdivmod_u64: the same routine in ksprintf.c and kstrtol.c. No intermediate value leaves 64 bits. */
  method DivMod(value: nat, base: nat) returns (quotient: nat, remainder: nat)
    requires value < TWO64 && 0 < base < TWO32
    ensures quotient == value / base && remainder == value % base
  {
    quotient := 0;
    var carry: nat := 0;
    var i := 64;
    Pow2Of64();
    DivisionStart(value, base);
    hide Pow2, DivisionState;
    while i > 0
      invariant 0 <= i <= 64
      invariant DivisionState(value, base, i, quotient, carry)
    {
      i := i - 1;
      DivisionStep(value, base, i, quotient, carry);
      carry := 2 * carry + value / Pow2(i) % 2;
      if carry >= base {
        carry := carry - base;
        quotient := quotient + Pow2(i);      // |= 1 << i: quotient is a multiple of 2^(i+1)
      }
    }
    DivisionEnd(value, base, quotient, carry);
    remainder := carry;
  }

  /** The top 64 - i bits of `value` have been divided: `quotient` holds their quotient, in place. */
  ghost predicate DivisionState(value: nat, base: nat, i: nat, quotient: nat, carry: nat) {
    && carry < base && quotient < TWO64
    && exists high: nat :: quotient == high * Pow2(i) && value / Pow2(i) == high * base + carry
  }

  lemma DivisionStart(value: nat, base: nat)
    requires value < TWO64 && base > 0
    ensures DivisionState(value, base, 64, 0, 0)
  {
    Pow2Of64();
    QuotientIsUnique(value, Pow2(64), 0, value);
    assert 0 == 0 * Pow2(64) && value / Pow2(64) == 0 * base + 0;
  }

  lemma DivisionEnd(value: nat, base: nat, quotient: nat, carry: nat)
    requires base > 0 && DivisionState(value, base, 0, quotient, carry)
    ensures quotient == value / base && carry == value % base
  {
    var high: nat :| quotient == high * Pow2(0) && value / Pow2(0) == high * base + carry;
    assert Pow2(0) == 1 && value / 1 == value;
    QuotientIsUnique(value, base, high, carry);
  }

  lemma DivisionStep(value: nat, base: nat, i: nat, quotient: nat, carry: nat)
    requires value < TWO64 && 0 < base < TWO32 && i < 64 && DivisionState(value, base, i + 1, quotient, carry)
    ensures var c := 2 * carry + value / Pow2(i) % 2;
      && c < TWO64 && quotient % Pow2(i + 1) == 0
      && DivisionState(value, base, i, if c >= base then quotient + Pow2(i) else quotient, if c >= base then c - base else c)
  {
    var p, c := Pow2(i), 2 * carry + value / Pow2(i) % 2;
    var high: nat :| quotient == high * Pow2(i + 1) && value / Pow2(i + 1) == high * base + carry;
    ShiftIn(value, i);
    var found: nat := if c >= base then 1 else 0;
    assert Pow2(i + 1) == 2 * p;
    QuotientIsUnique(quotient, 2 * p, high, 0);
    OneMoreBit(value / p, value / (2 * p), base, high, carry, found, p);
    QuotientFits(value, base, p, 2 * high + found, c - found * base);
    hide Pow2;
    assert (if c >= base then quotient + p else quotient) == (2 * high + found) * p;
    assert (if c >= base then c - base else c) == c - found * base;
  }

  lemma OneMoreBit(upper: nat, shifted: nat, base: nat, high: nat, carry: nat, found: nat, p: nat)
    requires shifted == high * base + carry && upper == 2 * shifted + upper % 2 && found <= 1
    ensures upper == (2 * high + found) * base + (2 * carry + upper % 2 - found * base)
    ensures high * (2 * p) + found * p == (2 * high + found) * p
  {
    Distribute(2 * high, found, base);
    Distribute(2 * high, found, p);
    assert (2 * high) * base == 2 * (high * base);
    assert high * (2 * p) == (2 * high) * p;
  }

  lemma Distribute(a: nat, b: nat, d: nat)
    ensures (a + b) * d == a * d + b * d
  {
  }

  lemma QuotientFits(value: nat, base: nat, p: nat, high: nat, rest: nat)
    requires p > 0 && base > 0 && value / p == high * base + rest
    ensures high * p <= value
  {
    TimesAtLeastOne(high, base);
    TimesMonotone(high, value / p, p);
    DivisionIdentity(value, p);
  }
}
