/** ksprintf.c: writing numbers and formatted text. */
module Sprintf {
  import opened Base
  import opened Numerals

  // ---- What is written ----

  /** kitoa, kitoa64: the sign, then the magnitude (also for the least value, whose negation wraps to itself). */
  function SignedText(v: int): (s: string)
    ensures |s| > 0
  {
    if v < 0 then "-" + Numeral(-v, 10, false) else Numeral(v, 10, false)
  }

  function Repeat(c: char, n: nat): (s: string)
    ensures |s| == n
  {
    seq(n, _ => c)
  }

  /** kprint_padded: zero padding goes between the sign and the digits. */
  function Padded(s: string, width: nat, pad: char): (t: string)
    ensures |t| == if width > |s| then width else |s|
  {
    if width <= |s| then s
    else if s != [] && s[0] == '-' && pad == '0' then "-" + Repeat('0', width - |s|) + s[1..]
    else Repeat(pad, width - |s|) + s
  }

  // ---- kuitoa, kuitoa64 ----

  function Reversed(s: string): (r: string)
    ensures |r| == |s| && forall i :: 0 <= i < |s| ==> r[i] == s[|s| - 1 - i]
  {
    seq(|s|, i requires 0 <= i < |s| => s[|s| - 1 - i])
  }

  /** The digits that a quotient still has to give: none when nothing is left. */
  function Front(rest: nat, base: nat, uppercase: bool): string
    requires 2 <= base <= 16
  {
    if rest == 0 then [] else Numeral(rest, base, uppercase)
  }

  /** The digits taken so far, last first, complete the numeral of what is left. */
  ghost predicate Digits(value: nat, base: nat, uppercase: bool, rest: nat, taken: string)
    requires 2 <= base <= 16
  {
    Numeral(value, base, uppercase) == Front(rest, base, uppercase) + Reversed(taken)
  }

  /** The numeral of a number: the digits of its quotient, and its last digit. */
  lemma NumeralStep(rest: nat, base: nat, uppercase: bool)
    requires 2 <= base <= 16
    ensures Numeral(rest, base, uppercase) == Front(rest / base, base, uppercase) + [DigitChar(rest % base, uppercase)]
  {
    hide DigitChar;
    if rest < base { QuotientIsUnique(rest, base, 0, rest); } else { NextIsPositive(rest, base); }
  }

  lemma TakeDigit(value: nat, base: nat, uppercase: bool, rest: nat, taken: string)
    requires 2 <= base <= 16 && rest > 0 && Digits(value, base, uppercase, rest, taken)
    ensures Digits(value, base, uppercase, rest / base, taken + [DigitChar(rest % base, uppercase)])
  {
    hide DigitChar, Numeral;
    NumeralStep(rest, base, uppercase);
    Regroup(Front(rest / base, base, uppercase), DigitChar(rest % base, uppercase), taken);
  }

  lemma Regroup(front: string, c: char, taken: string)
    ensures front + [c] + Reversed(taken) == front + Reversed(taken + [c])
  {
    assert Reversed(taken + [c]) == [c] + Reversed(taken);
  }

  lemma NextIsPositive(rest: nat, base: nat)
    requires base > 0 && rest >= base
    ensures rest / base > 0
  {
    DivisionIdentity(rest, base);
  }

  function Pow(base: nat, n: nat): nat {
    if n == 0 then 1 else base * Pow(base, n - 1)
  }

  /** A numeral has at most n digits exactly if the number is below base^n. */
  lemma {:induction false} LengthIff(v: nat, base: nat, uppercase: bool, n: nat)
    requires 2 <= base <= 16 && n > 0
    ensures |Numeral(v, base, uppercase)| <= n <==> v < Pow(base, n)
    decreases n
  {
    hide DigitChar;
    if n == 1 {
      assert Pow(base, 0) == 1 && Pow(base, 1) == base;
    } else if v < base {
      PowIsPositive(base, n - 1);
      TimesMonotone(1, Pow(base, n - 1), base);
    } else {
      LengthIff(v / base, base, uppercase, n - 1);
      QuotientBelow(v, base, Pow(base, n - 1));
    }
  }

  lemma {:induction false} PowIsPositive(base: nat, n: nat)
    requires base > 0
    ensures Pow(base, n) > 0
  {
    if n > 0 {
      PowIsPositive(base, n - 1);
      TimesMonotone(1, Pow(base, n - 1), base);
    }
  }

  lemma QuotientBelow(v: nat, base: nat, p: nat)
    requires base > 0
    ensures v / base < p <==> v < base * p
  {
    DivisionIdentity(v, base);
    var q := v / base;
    if q < p { TimesMonotone(q + 1, p, base); } else { TimesMonotone(p, q, base); }
  }

  lemma {:induction false} PowSum(base: nat, m: nat, n: nat)
    ensures Pow(base, m + n) == Pow(base, m) * Pow(base, n)
  {
    if m > 0 {
      PowSum(base, m - 1, n);
      Associative(base, Pow(base, m - 1), Pow(base, n));
    }
  }

  lemma Associative(a: nat, b: nat, c: nat)
    ensures a * (b * c) == a * b * c
  {
  }

  lemma {:induction false} PowGrows(b: nat, c: nat, n: nat)
    requires b <= c
    ensures Pow(b, n) <= Pow(c, n)
  {
    if n > 0 {
      PowGrows(b, c, n - 1);
      TimesMonotone(b, c, Pow(b, n - 1));
      TimesMonotone(Pow(b, n - 1), Pow(c, n - 1), c);
    }
  }

  const THREE_TO_32 := 1853020188851841

  lemma ThirtyTwo(base: nat)
    requires 2 <= base <= 4
    ensures Pow(base, 32) == if base == 2 then TWO32 else if base == 3 then THREE_TO_32 else TWO64
  {
    if base == 2 {
      Doublings(2, 4, 16, 256, 65536);
    } else if base == 3 {
      Doublings(3, 9, 81, 6561, 43046721);
    } else {
      Doublings(4, 16, 256, 65536, TWO32);
    }
  }

  lemma Doublings(base: nat, two: nat, four: nat, eight: nat, sixteen: nat)
    requires base * base == two && two * two == four && four * four == eight && eight * eight == sixteen
    ensures Pow(base, 32) == sixteen * sixteen
  {
    assert Pow(base, 1) == base && Pow(base, 2) == base * base;
    hide Pow;
    PowSum(base, 2, 2);
    PowSum(base, 4, 4);
    PowSum(base, 8, 8);
    PowSum(base, 16, 16);
  }

  /** The 32-byte scratch holds every 32-bit number from base 2 on, and every 64-bit one from base 4 on. */
  lemma ScratchIsLargeEnough(value: nat, base: nat, uppercase: bool)
    requires 2 <= base <= 16 && (value < TWO32 || (base >= 4 && value < TWO64))
    ensures |Numeral(value, base, uppercase)| <= 32
  {
    hide Numeral, Pow;
    var least := if value < TWO32 then 2 else 4;
    ThirtyTwo(least);
    PowGrows(least, base, 32);
    LengthIff(value, base, uppercase, 32);
  }

  /** Which 64-bit numbers overrun the scratch: from 2^32 on in base 2, from 3^32 on in base 3, none in higher bases. */
  lemma OverrunsIff(value: nat, base: nat, uppercase: bool)
    requires value < TWO64 && 2 <= base <= 16
    ensures |Numeral(value, base, uppercase)| > 32 <==>
      (base == 2 && value >= TWO32) || (base == 3 && value >= THREE_TO_32)
  {
    hide Numeral;
    if base >= 4 {
      ScratchIsLargeEnough(value, base, uppercase);
    } else {
      LengthIff(value, base, uppercase, 32);
      ThirtyTwo(base);
    }
  }

  /** The second loop of both: the scratch, backwards, and the terminator. */
  method EmitReversed(temp: array<char>, n: nat, buffer: array<char>, at: nat)
    requires n <= temp.Length && at + n < buffer.Length && temp != buffer
    modifies buffer
    ensures buffer[at..at + n] == Reversed(temp[..n]) && buffer[at + n] == '\0'
    ensures forall p :: 0 <= p < buffer.Length && (p < at || p > at + n) ==> buffer[p] == old(buffer[p])
  {
    var i, j := n, 0;
    while i > 0
      invariant 0 <= i <= n && j == n - i
      invariant forall p :: at <= p < at + j ==> buffer[p] == temp[n - 1 - (p - at)]
      invariant forall p :: 0 <= p < buffer.Length && (p < at || p >= at + j) ==> buffer[p] == old(buffer[p])
    {
      i := i - 1;
      buffer[at + j] := temp[i];
      j := j + 1;
    }
    buffer[at + j] := '\0';
  }

  /** What both conversions leave at `at`: the numeral, terminated; the rest of the buffer is untouched. */
  twostate predicate Written(buffer: array<char>, at: nat, text: string)
    reads buffer
  {
    && at + |text| < buffer.Length
    && buffer[at..at + |text|] == text && buffer[at + |text|] == '\0'
    && forall p :: 0 <= p < buffer.Length && (p < at || p > at + |text|) ==> buffer[p] == old(buffer[p])
  }

  lemma StartDigits(value: nat, base: nat, uppercase: bool)
    requires 2 <= base <= 16 && value > 0
    ensures Digits(value, base, uppercase, value, [])
  {
    assert Reversed([]) == [];
  }

  lemma EndDigits(value: nat, base: nat, uppercase: bool, taken: string)
    requires 2 <= base <= 16 && Digits(value, base, uppercase, 0, taken)
    ensures Numeral(value, base, uppercase) == Reversed(taken)
  {
    assert [] + Reversed(taken) == Reversed(taken);
  }

  /** The scratch is never full when another digit is due. */
  lemma Room(value: nat, base: nat, uppercase: bool, rest: nat, taken: string)
    requires 2 <= base <= 16 && rest > 0 && Digits(value, base, uppercase, rest, taken)
    ensures |taken| < |Numeral(value, base, uppercase)|
  {
  }

  /** One turn of kuitoa's digit loop, with the C operators / and %. */
  method Digit32(ghost value: nat, base: nat, uppercase: bool, rest: nat, temp: array<char>, i: nat) returns (next: nat)
    requires 2 <= base <= 16 && rest > 0 && i <= temp.Length
    requires |Numeral(value, base, uppercase)| <= temp.Length && Digits(value, base, uppercase, rest, temp[..i])
    modifies temp
    ensures i < temp.Length && next < rest && Digits(value, base, uppercase, next, temp[..i + 1])
  {
    hide Digits, DigitChar, Numeral;
    ghost var taken := temp[..i];
    Room(value, base, uppercase, rest, taken);
    TakeDigit(value, base, uppercase, rest, taken);
    SmallerQuotient(rest, base);
    next := rest / base;
    Store(temp, i, DigitChar(rest % base, uppercase));
  }

  /** temp[i++] = c */
  method Store(temp: array<char>, i: nat, c: char)
    requires i < temp.Length
    modifies temp
    ensures temp[..i + 1] == old(temp[..i]) + [c]
  {
    temp[i] := c;
  }

  /** One turn of kuitoa64's digit loop, with kdivmod_u64. */
  method Digit64(ghost value: nat, base: nat, uppercase: bool, rest: nat, temp: array<char>, i: nat) returns (next: nat)
    requires 2 <= base <= 16 && 0 < rest < TWO64 && i < temp.Length && Digits(value, base, uppercase, rest, temp[..i])
    modifies temp
    ensures next < rest && Digits(value, base, uppercase, next, temp[..i + 1])
  {
    hide Digits, DigitChar, Numeral;
    ghost var taken := temp[..i];
    TakeDigit(value, base, uppercase, rest, taken);
    SmallerQuotient(rest, base);
    var remainder;
    next, remainder := DivMod(rest, base);
    Store(temp, i, DigitChar(remainder, uppercase));
  }

  /** The digit loop of kuitoa. */
  method Collect32(value: nat, base: nat, temp: array<char>, uppercase: bool) returns (i: nat)
    requires value > 0 && 2 <= base <= 16 && |Numeral(value, base, uppercase)| <= temp.Length
    modifies temp
    ensures i <= temp.Length && Numeral(value, base, uppercase) == Reversed(temp[..i])
  {
    var rest: nat := value;
    i := 0;
    StartDigits(value, base, uppercase);
    assert temp[..0] == [];
    hide *;
    while rest > 0
      invariant 0 <= i <= temp.Length && Digits(value, base, uppercase, rest, temp[..i])
    {
      rest := Digit32(value, base, uppercase, rest, temp, i);
      i := i + 1;
    }
    EndDigits(value, base, uppercase, temp[..i]);
  }

  /** The digit loop of kuitoa64, up to a digit for which there is no room. */
  method Collect64(value: nat, base: nat, temp: array<char>, uppercase: bool) returns (i: nat, fits: bool)
    requires 0 < value < TWO64 && 2 <= base <= 16
    modifies temp
    ensures i <= temp.Length && (fits <==> |Numeral(value, base, uppercase)| <= temp.Length)
    ensures fits ==> Numeral(value, base, uppercase) == Reversed(temp[..i])
  {
    var rest: nat := value;
    i := 0;
    StartDigits(value, base, uppercase);
    assert temp[..0] == [];
    hide *;
    while rest > 0
      invariant 0 <= i <= temp.Length && rest <= value && Digits(value, base, uppercase, rest, temp[..i])
    {
      if i == temp.Length {
        Room(value, base, uppercase, rest, temp[..i]);
        return i, false;
      }
      rest := Digit64(value, base, uppercase, rest, temp, i);
      i := i + 1;
    }
    EndDigits(value, base, uppercase, temp[..i]);
    fits := true;
  }

  /** kuitoa */
  method Kuitoa(value: nat, base: nat, buffer: array<char>, at: nat, uppercase: bool) returns (len: nat)
    requires value < TWO32 && 2 <= base <= 16 && at + 32 < buffer.Length
    modifies buffer
    ensures len == |Numeral(value, base, uppercase)| <= 32 && Written(buffer, at, Numeral(value, base, uppercase))
  {
    if value == 0 {
      buffer[at], buffer[at + 1] := '0', '\0';
      return 1;
    }
    var temp := new char[32];
    ScratchIsLargeEnough(value, base, uppercase);
    len := Collect32(value, base, temp, uppercase);
    EmitReversed(temp, len, buffer, at);
  }

  /** kuitoa64. A number that does not fit its 32-byte scratch is written past the end of it; OverrunsIff says which. */
  method Kuitoa64(value: nat, base: nat, buffer: array<char>, at: nat, uppercase: bool) returns (len: nat, fits: bool)
    requires value < TWO64 && 2 <= base <= 16 && at + 32 < buffer.Length
    modifies buffer
    ensures fits <==> |Numeral(value, base, uppercase)| <= 32
    ensures fits ==> len == |Numeral(value, base, uppercase)| && Written(buffer, at, Numeral(value, base, uppercase))
  {
    if value == 0 {
      buffer[at], buffer[at + 1] := '0', '\0';
      return 1, true;
    }
    var temp := new char[32];
    len, fits := Collect64(value, base, temp, uppercase);
    if !fits {
      return;
    }
    EmitReversed(temp, len, buffer, at);
  }

  lemma SmallerQuotient(rest: nat, base: nat)
    requires rest > 0 && base >= 2
    ensures rest / base < rest
  {
    DivisionIdentity(rest, base);
    TimesMonotone(2, base, rest / base);
  }

  /** kitoa64 */
  method Kitoa64(value: int, buffer: array<char>) returns (len: nat)
    requires -LONG_MAX - 1 <= value <= LONG_MAX && buffer.Length >= 64
    modifies buffer
    ensures len == |SignedText(value)| <= 33 && Written(buffer, 0, SignedText(value))
  {
    if value < 0 {
      buffer[0] := '-';
      ScratchIsLargeEnough(-value, 10, false);
      var rest, fits := Kuitoa64(-value, 10, buffer, 1, false);
      assert buffer[0..1 + rest] == [buffer[0]] + buffer[1..1 + rest];
      len := 1 + rest;
    } else {
      ScratchIsLargeEnough(value, 10, false);
      var fits;
      len, fits := Kuitoa64(value, 10, buffer, 0, false);
    }
  }

  /** kitoa */
  method Kitoa(value: int, buffer: array<char>) returns (len: nat)
    requires -0x8000_0000 <= value < 0x8000_0000 && buffer.Length >= 64
    modifies buffer
    ensures len == |SignedText(value)| <= 33 && Written(buffer, 0, SignedText(value))
  {
    if value < 0 {
      buffer[0] := '-';
      var rest := Kuitoa(-value, 10, buffer, 1, false);
      assert buffer[0..1 + rest] == [buffer[0]] + buffer[1..1 + rest];
      len := 1 + rest;
    } else {
      len := Kuitoa(value, 10, buffer, 0, false);
    }
  }

  // ---- kbuf_write, kprint_padded ----

  /** `s` with `text` written over it from `at` on. */
  function Splice(s: string, at: nat, text: string): (t: string)
    requires at + |text| <= |s|
    ensures |t| == |s|
  {
    s[..at] + text + s[at + |text|..]
  }

  lemma SpliceTwice(s: string, at: nat, text: string, more: string)
    requires at + |text| + |more| <= |s|
    ensures Splice(Splice(s, at, text), at + |text|, more) == Splice(s, at, text + more)
  {
  }

  lemma SpliceNothing(s: string, at: nat)
    requires at <= |s|
    ensures Splice(s, at, []) == s
  {
  }

  /** **out = c; (*out)++ */
  method Put(out: array<char>, at: nat, c: char) returns (next: nat)
    requires at < out.Length
    modifies out
    ensures next == at + 1 && out[..] == Splice(old(out[..]), at, [c])
  {
    out[at] := c;
    next := at + 1;
  }

  /** kbuf_write */
  method Write(out: array<char>, at: nat, text: string) returns (next: nat)
    requires at + |text| <= out.Length
    modifies out
    ensures next == at + |text| && out[..] == Splice(old(out[..]), at, text)
  {
    var i := 0;
    next := at;
    SpliceNothing(out[..], at);
    assert text[..0] == [];
    while i < |text|
      invariant 0 <= i <= |text| && next == at + i
      invariant out[..] == Splice(old(out[..]), at, text[..i])
    {
      next := Put(out, next, text[i]);
      SpliceTwice(old(out[..]), at, text[..i], [text[i]]);
      assert text[..i + 1] == text[..i] + [text[i]];
      i := i + 1;
    }
    assert text[..|text|] == text;
  }

  lemma NoPad(pad: char)
    ensures Repeat(pad, 0) == []
  {
  }

  lemma OnePadMore(pad: char, n: nat)
    ensures Repeat(pad, n + 1) == Repeat(pad, n) + [pad]
  {
  }

  /** The padding loop of kprint_padded. */
  method Fill(out: array<char>, at: nat, pad: char, n: nat) returns (next: nat)
    requires at + n <= out.Length
    modifies out
    ensures next == at + n && out[..] == Splice(old(out[..]), at, Repeat(pad, n))
  {
    hide Splice, Repeat;
    var padding: nat := n;
    next := at;
    SpliceNothing(out[..], at);
    NoPad(pad);
    while padding > 0
      invariant padding <= n && next == at + (n - padding)
      invariant out[..] == Splice(old(out[..]), at, Repeat(pad, n - padding))
    {
      OnePadMore(pad, n - padding);
      SpliceTwice(old(out[..]), at, Repeat(pad, n - padding), [pad]);
      next := Put(out, next, pad);
      padding := padding - 1;
    }
  }

  /** The sign, when zero padding will follow it. */
  method PrintSign(
    out: array<char>, at: nat, text: string, pad: char, padding: nat)
    returns (next: nat, ghost sign: string, rest: string)
    requires at <= out.Length && (at < out.Length || text == [] || padding == 0)
    modifies out
    ensures sign == if text != [] && text[0] == '-' && pad == '0' && padding > 0 then "-" else []
    ensures rest == if sign == [] then text else text[1..]
    ensures next == at + |sign| <= out.Length && out[..] == Splice(old(out[..]), at, sign)
  {
    next, sign, rest := at, [], text;
    SpliceNothing(out[..], at);
    if text != [] && text[0] == '-' && pad == '0' && padding > 0 {
      next := Put(out, next, '-');
      sign, rest := "-", text[1..];
    }
  }

  /** The padding and what follows it. */
  method FillAndWrite(out: array<char>, at: nat, pad: char, padding: nat, rest: string) returns (next: nat)
    requires at + padding + |rest| <= out.Length
    modifies out
    ensures next == at + padding + |rest| && out[..] == Splice(old(out[..]), at, Repeat(pad, padding) + rest)
  {
    hide Splice;
    next := Fill(out, at, pad, padding);
    next := Write(out, next, rest);
    SpliceTwice(old(out[..]), at, Repeat(pad, padding), rest);
  }

  /** kprint_padded: `next - at` is the count it returns. */
  method PrintPadded(out: array<char>, at: nat, text: string, width: nat, pad: char) returns (next: nat)
    requires at + |Padded(text, width, pad)| <= out.Length
    modifies out
    ensures next == at + |Padded(text, width, pad)| && out[..] == Splice(old(out[..]), at, Padded(text, width, pad))
  {
    hide Splice, Repeat;
    var padding: nat := if width > |text| then width - |text| else 0;
    ghost var sign: string;
    var rest;
    next, sign, rest := PrintSign(out, at, text, pad, padding);
    PaddedPieces(text, width, pad, sign, padding, rest);
    next := FillAndWrite(out, next, pad, padding, rest);
    SpliceTwice(old(out[..]), at, sign, Repeat(pad, padding) + rest);
  }

  lemma PaddedPieces(text: string, width: nat, pad: char, sign: string, padding: nat, rest: string)
    requires padding == if width > |text| then width - |text| else 0
    requires sign == if text != [] && text[0] == '-' && pad == '0' && padding > 0 then "-" else []
    requires rest == if sign == [] then text else text[1..]
    ensures Padded(text, width, pad) == sign + (Repeat(pad, padding) + rest)
    ensures |Repeat(pad, padding)| == padding && |Padded(text, width, pad)| == |sign| + padding + |rest|
  {
    if padding == 0 {
      assert [] + (Repeat(pad, 0) + text) == text;
    } else if sign == [] {
      assert [] + (Repeat(pad, padding) + text) == Repeat(pad, padding) + text;
    } else {
      assert "-" + (Repeat(pad, padding) + rest) == "-" + Repeat(pad, padding) + rest;
    }
  }
}
