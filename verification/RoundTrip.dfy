/** What ksprintf prints, kstrtol reads back: up to two sharp edges. */
module RoundTrip {
  import opened Base
  import opened Numerals
  import opened Sprintf
  import opened Strtol
  import F = Format

  lemma {:induction false} FullRun(s: string, base: nat)
    requires AllDigits(s, base)
    ensures DigitRun(s, base) == |s|
  {
    if s != [] { FullRun(s[1..], base); }
  }

  lemma {:induction false} LeadingBlanks(n: nat, s: string)
    requires s == [] || !Blank(s[0])
    ensures Blanks(Repeat(' ', n) + s) == n
  {
    var t := Repeat(' ', n) + s;
    if n > 0 {
      assert t[1..] == Repeat(' ', n - 1) + s;
      LeadingBlanks(n - 1, s);
    } else {
      assert t == s;
    }
  }

  lemma {:induction false} NumeralStart(v: nat, base: nat, uppercase: bool)
    requires 2 <= base <= 16
    ensures var c := Numeral(v, base, uppercase)[0]; !Blank(c) && c != '-' && c != '+'
  {
    if v >= base {
      NumeralStart(v / base, base, uppercase);
    } else {
      NotASign(v, uppercase);
    }
  }

  lemma NotASign(d: nat, uppercase: bool)
    requires d < 16
    ensures var c := DigitChar(d, uppercase); !Blank(c) && c != '-' && c != '+'
  {
    forall c | c in "0123456789abcdef" || c in "0123456789ABCDEF"
      ensures !Blank(c) && c != '-' && c != '+'
    {
    }
  }

  /** A numeral behind any number of zeros is read as its value, when that fits. */
  lemma ZerosAndNumeral(n: nat, v: nat, base: nat, uppercase: bool, sign: int)
    requires 2 <= base <= 16
    ensures ParseDigits(Repeat('0', n) + Numeral(v, base, uppercase), base, sign)
      == if v > LONG_MAX then REJECTED else Parsed(sign * v, true)
  {
    var digits := Numeral(v, base, uppercase);
    var s := Repeat('0', n) + digits;
    NumeralValue(v, base, uppercase);
    ValueOfZeros(n, digits, base);
    assert seq(n, _ => '0') + digits == s;
    FullRun(s, base);
    assert s[..|s|] == s;
  }

  /** Sign and digits, behind blanks. */
  lemma SignedParse(n: nat, v: int, zeros: nat, s: string)
    requires s == Repeat(' ', n) + (if v < 0 then "-" else "") + (Repeat('0', zeros) + Numeral(if v < 0 then -v else v, 10, false))
    ensures Parse(s, 10) == if v > LONG_MAX || -v > LONG_MAX then REJECTED else Parsed(v, true)
  {
    var m := if v < 0 then -v else v;
    var digits := Repeat('0', zeros) + Numeral(m, 10, false);
    var t := (if v < 0 then "-" else "") + digits;
    NumeralStart(m, 10, false);
    assert digits[0] == if zeros > 0 then '0' else Numeral(m, 10, false)[0];
    assert s == Repeat(' ', n) + t;
    assert v >= 0 ==> t == digits;
    LeadingBlanks(n, t);
    assert s[n..] == t;
    assert v < 0 ==> t[1..] == digits;
    assert digits[0..] == digits;
    ZerosAndNumeral(zeros, m, 10, false, if v < 0 then -1 else 1);
    hide Numeral, ParseDigits, Blanks;
  }

  /** Blanks stand before the sign, zeros after it. */
  lemma PaddedShape(sign: string, digits: string, width: nat, zero: bool, blanks: nat, zeros: nat)
    requires sign == "-" || (sign == [] && (digits == [] || digits[0] != '-'))
    requires var gap := if width > |sign + digits| then width - |sign + digits| else 0;
      blanks == (if zero then 0 else gap) && zeros == if zero then gap else 0
    ensures Padded(sign + digits, width, if zero then '0' else ' ') == Repeat(' ', blanks) + sign + (Repeat('0', zeros) + digits)
  {
    var text := sign + digits;
    assert Repeat(' ', 0) == [] && Repeat('0', 0) == [];
    if width <= |text| || !zero {
      assert Repeat(' ', blanks) + text == Repeat(' ', blanks) + sign + ([] + digits);
    } else if sign == [] {
      assert text == digits;
      assert [] + sign + (Repeat('0', zeros) + digits) == Repeat('0', zeros) + digits;
    } else {
      assert text[1..] == digits;
      assert [] + sign + (Repeat('0', zeros) + digits) == "-" + Repeat('0', zeros) + digits;
    }
  }

  /**
   * Every decimal that kitoa64 and kprint_padded write is read back, for every width and both paddings, except the
   * least value.
   */
  lemma DecimalRoundTrip(v: int, width: nat, zero: bool)
    requires LONG_MIN <= v <= LONG_MAX
    ensures Parse(Padded(SignedText(v), width, if zero then '0' else ' '), 10) == if v == LONG_MIN then REJECTED else Parsed(v, true)
  {
    var m := if v < 0 then -v else v;
    NumeralStart(m, 10, false);
    var digits := Numeral(m, 10, false);
    var sign := if v < 0 then "-" else "";
    assert SignedText(v) == sign + digits;
    hide *;
    var gap: nat := if width > |sign + digits| then width - |sign + digits| else 0;
    var blanks, zeros := if zero then 0 else gap, if zero then gap else 0;
    PaddedShape(sign, digits, width, zero, blanks, zeros);
    SignedParse(blanks, v, zeros, Padded(SignedText(v), width, if zero then '0' else ' '));
  }

  /**
   * Through the format itself: `%[0]<width>d` or `%[0]<width>ld` then kstrtol in base 10 gives the value back exactly when
   * it is not the least one of 64 bits.
   */
  lemma PrintThenParse(v: int, width: nat, zero: bool, long: bool)
    requires LONG_MIN <= v <= LONG_MAX && (!long ==> -TWO32 / 2 <= v < TWO32 / 2) && width < TWO32
    ensures var printed := F.Formatted(F.DirectiveFor(width, zero, long, 'd'), 0, [SignedArg(v, long)]);
      printed.Some? && (Parse(printed.value, 10) == Parsed(v, true) <==> v != LONG_MIN)
  {
    hide Parse, F.Formatted, F.DirectiveFor, F.Converted, Padded, SignedText;
    F.DirectiveText(width, zero, long, 'd', SignedArg(v, long));
    DecimalRoundTrip(v, width, zero);
    F.DirectiveStarts(width, zero, long, 'd');
    DecimalConversion(v, F.Directive(width, zero, long, |F.DirectiveFor(width, zero, long, 'd')| - 1));
  }

  lemma DecimalConversion(v: int, d: F.Directive)
    requires LONG_MIN <= v <= LONG_MAX && (!d.long ==> -TWO32 / 2 <= v < TWO32 / 2)
    ensures F.Converted(d, 'd', SignedArg(v, d.long)) == Padded(SignedText(v), d.width, if d.zero then '0' else ' ')
  {
    hide Padded, SignedText;
    assert if d.long then F.Signed64(v % TWO64) == v else F.Signed32(v % TWO32) == v;
  }

  /** The argument that passes a signed number: its bits. */
  function SignedArg(v: int, long: bool): F.Arg { if long then F.Qword(v % TWO64) else F.Dword(v % TWO32) }

  /** Behind "0x" the padding decides: zeros belong to the number, blanks end it before it starts. */
  lemma HexParse(v: nat, width: nat, zero: bool)
    ensures var digits := Numeral(v, 16, false); var r := Parse("0x" + Padded(digits, width, if zero then '0' else ' '), 0);
      r == if v <= LONG_MAX && (zero || width <= |digits|) then Parsed(v, true) else REJECTED
  {
    var digits := Numeral(v, 16, false);
    var t := Padded(digits, width, if zero then '0' else ' ');
    NumeralStart(v, 16, false);
    PrefixedHex(t);
    PaddedHex(v, width, zero, t);
    hide *;
  }

  lemma PrefixedHex(t: string)
    ensures Parse("0x" + t, 0) == ParseDigits(t, 16, 1)
  {
    var s := "0x" + t;
    assert s[0..] == s && s[2..] == t && s[0] == '0' && s[1] == 'x';
    hide ParseDigits;
  }

  lemma PaddedHex(v: nat, width: nat, zero: bool, t: string)
    requires t == Padded(Numeral(v, 16, false), width, if zero then '0' else ' ')
    ensures ParseDigits(t, 16, 1) == if v <= LONG_MAX && (zero || width <= |Numeral(v, 16, false)|) then Parsed(v, true) else REJECTED
  {
    var digits := Numeral(v, 16, false);
    NumeralStart(v, 16, false);
    hide Numeral;
    if width <= |digits| || zero {
      var zeros: nat := if width <= |digits| then 0 else width - |digits|;
      assert Repeat('0', 0) + digits == digits;
      ZerosAndNumeral(zeros, v, 16, false, 1);
    } else {
      assert t[0] == ' ';
      assert DigitRun(t, 16) == 0;
    }
  }

  /**
   * `%[0]<width>x` or `%[0]<width>lx` then kstrtol with base detection: read back exactly when the value fits 63 bits and no blank
   * padding was added.
   */
  lemma PrintHexThenParse(v: nat, width: nat, zero: bool, long: bool)
    requires v < (if long then TWO64 else TWO32) && width < TWO32
    ensures var printed :=
        F.Formatted(F.DirectiveFor(width, zero, long, 'x'), 0, [if long then F.Qword(v) else F.Dword(v)]);
      printed.Some? && (Parse(printed.value, 0) == Parsed(v, true) <==> v <= LONG_MAX && (zero || width <= |Numeral(v, 16, false)|))
  {
    F.DirectiveText(width, zero, long, 'x', if long then F.Qword(v) else F.Dword(v));
    HexParse(v, width, zero);
    hide Parse, F.Formatted, F.DirectiveFor, Padded;
  }
}
