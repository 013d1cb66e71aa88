/**
 * What ksprintf prints, said without the functions that specify its code: digits and their value, padding, and order.
 */
module FormatMeaning {
  import opened Base
  import opened Numerals
  import opened Sprintf
  import opened Format

  // ---- Numbers ----

  /** A digit in one letter case. */
  predicate InCase(c: char, uppercase: bool) {
    c in if uppercase then "0123456789ABCDEF" else "0123456789abcdef"
  }

  /** The digits of `v`: no leading zero, in one letter case. */
  ghost predicate Spelled(digits: string, v: nat, base: nat, uppercase: bool) {
    && 2 <= base <= 16 && digits != [] && (digits[0] == '0' ==> digits == "0")
    && AllDigits(digits, base) && Value(digits, base) == v
    && forall c <- digits :: InCase(c, uppercase)
  }

  lemma DigitIsInCase(d: nat, uppercase: bool)
    requires d < 16
    ensures InCase(DigitChar(d, uppercase), uppercase)
    ensures DigitChar(d, uppercase) == '0' <==> d == 0
  {
  }

  lemma {:induction false} NumeralIsSpelled(v: nat, base: nat, uppercase: bool)
    requires 2 <= base <= 16
    ensures Spelled(Numeral(v, base, uppercase), v, base, uppercase)
    ensures (v > 0 ==> Numeral(v, base, uppercase)[0] != '0')
    decreases v
  {
    hide Numeral, Value, AllDigits, DigitChar, InCase;
    NumeralValue(v, base, uppercase);
    NumeralCases(v, base, uppercase);
    DigitIsInCase(v % base, uppercase);
    if v < base {
      DigitIsInCase(v, uppercase);
    } else {
      NumeralIsSpelled(v / base, base, uppercase);
      QuotientIsPositive(v, base);
      OneDigitMore(Numeral(v / base, base, uppercase), DigitChar(v % base, uppercase), uppercase);
    }
  }

  lemma OneDigitMore(s: string, c: char, uppercase: bool)
    requires s != [] && InCase(c, uppercase)
    requires forall d <- s :: InCase(d, uppercase)
    ensures (s + [c])[0] == s[0] && |s + [c]| > 1
    ensures forall d <- s + [c] :: InCase(d, uppercase)
  {
    hide InCase;
    forall d <- s + [c] ensures InCase(d, uppercase) {
      assert d in s || d == c;
    }
  }

  lemma QuotientIsPositive(v: nat, base: nat)
    requires 2 <= base <= v
    ensures v / base > 0
  {
  }

  /** `n` pad characters, none when `n` is negative. */
  function Pads(n: int, zero: bool): string {
    seq(if n > 0 then n else 0, _ => if zero then '0' else ' ')
  }

  /** Shorter texts are filled up on the left; zeros go between a sign and what follows it. */
  lemma PaddedIs(sign: string, s: string, width: nat, zero: bool)
    requires sign == "-" || (sign == "" && (s == "" || s[0] != '-'))
    ensures Padded(sign + s, width, if zero then '0' else ' ')
         == if zero then sign + Pads(width - |sign + s|, true) + s else Pads(width - |sign + s|, false) + sign + s
  {
    hide Padded, Pads;
    var n := width - |sign + s|;
    if n <= 0 {
      NotPadded(sign, s, width, zero);
    } else if sign == "-" && zero {
      ZeroPadded(s, width);
    } else {
      assert sign == "" ==> sign + s == s && sign + Pads(n, zero) + s == Pads(n, zero) + s;
      LeftPadded(sign + s, width, zero);
      assert Pads(n, zero) + (sign + s) == Pads(n, zero) + sign + s;
    }
  }

  lemma NotPadded(sign: string, s: string, width: nat, zero: bool)
    requires width <= |sign + s|
    ensures Padded(sign + s, width, if zero then '0' else ' ') == sign + s && Pads(width - |sign + s|, zero) == []
    ensures sign + [] + s == sign + s && [] + sign + s == sign + s
  {
  }

  lemma ZeroPadded(s: string, width: nat)
    requires width > 1 + |s|
    ensures Padded("-" + s, width, '0') == "-" + Pads(width - |"-" + s|, true) + s
  {
    assert ("-" + s)[1..] == s && Pads(width - |"-" + s|, true) == Repeat('0', width - |"-" + s|);
  }

  lemma LeftPadded(text: string, width: nat, zero: bool)
    requires width > |text| && (zero ==> text == [] || text[0] != '-')
    ensures Padded(text, width, if zero then '0' else ' ') == Pads(width - |text|, zero) + text
  {
    assert Pads(width - |text|, zero) == Repeat(if zero then '0' else ' ', width - |text|);
  }

  /** `%d` and `%ld`: the sign and the digits of the argument read as a signed number of 32 or 64 bits. */
  lemma DecimalText(v: int, width: nat, zero: bool, long: bool) returns (digits: string)
    requires width < TWO32 && if long then -TWO64 / 2 <= v < TWO64 / 2 else -TWO32 / 2 <= v < TWO32 / 2
    ensures Spelled(digits, if v < 0 then -v else v, 10, false)
    ensures var sign := if v < 0 then "-" else "";
      var a := if long then Qword(v % TWO64) else Dword(v % TWO32);
      Formatted(DirectiveFor(width, zero, long, 'd'), 0, [a]) == Some(
        if zero then sign + Pads(width - |sign + digits|, true) + digits
        else Pads(width - |sign + digits|, false) + sign + digits)
  {
    hide Numeral, Formatted, DirectiveFor, Padded, Spelled, SignedText, Converted, Pads;
    var a := if long then Qword(v % TWO64) else Dword(v % TWO32);
    digits := Numeral(if v < 0 then -v else v, 10, false);
    NumeralIsSpelled(if v < 0 then -v else v, 10, false);
    SpelledStart(digits, if v < 0 then -v else v, 10, false);
    DirectiveText(width, zero, long, 'd', a);
    DirectiveStarts(width, zero, long, 'd');
    ConvertedDecimal(Directive(width, zero, long, |DirectiveFor(width, zero, long, 'd')| - 1), v);
    PaddedIs(if v < 0 then "-" else "", digits, width, zero);
  }

  lemma SpelledStart(digits: string, v: nat, base: nat, uppercase: bool)
    requires Spelled(digits, v, base, uppercase)
    ensures digits != [] && digits[0] != '-'
  {
    assert digits[0] in digits;
  }

  lemma ConvertedDecimal(d: Directive, v: int)
    requires if d.long then -TWO64 / 2 <= v < TWO64 / 2 else -TWO32 / 2 <= v < TWO32 / 2
    ensures Converted(d, 'd', if d.long then Qword(v % TWO64) else Dword(v % TWO32)) ==
      Padded((if v < 0 then "-" else "") + Numeral(if v < 0 then -v else v, 10, false), d.width, if d.zero then '0' else ' ')
  {
    hide Padded, Numeral;
    SignedBits(v, d.long);
    assert "" + Numeral(if v < 0 then -v else v, 10, false) == Numeral(if v < 0 then -v else v, 10, false);
  }

  lemma SignedBits(v: int, long: bool)
    requires if long then -TWO64 / 2 <= v < TWO64 / 2 else -TWO32 / 2 <= v < TWO32 / 2
    ensures if long then Signed64(v % TWO64) == v else Signed32(v % TWO32) == v
  {
  }

  /** What stands in front of the digits of `%x`, `%X`, `%p` and `%b`. */
  function PrefixOf(c: char): string {
    if c == 'b' then "" else if c == 'X' then "0X" else "0x"
  }

  /**
   * `%x`, `%X`, `%p`, `%b`, and `%lx` for 64 bits: the prefix, then the digits of the argument in base 16 or 2, in the letter
   * case of the conversion; the width counts the digits alone, except for `%p`.
   */
  lemma UnsignedText(v: nat, width: nat, zero: bool, long: bool, c: char) returns (digits: string)
    requires width < TWO32 && c in {'x', 'X', 'p', 'b'} && v < if long && c == 'x' then TWO64 else TWO32
    ensures Spelled(digits, v, if c == 'b' then 2 else 16, c == 'X')
    ensures c != 'b' && v < TWO32 ==> |digits| <= 8
    ensures var a := if long && c == 'x' then Qword(v) else Dword(v);
      Formatted(DirectiveFor(width, zero, long, c), 0, [a]) ==
        Some(PrefixOf(c) + (Pads((if c == 'p' then width - 2 else width) - |digits|, zero) + digits))
  {
    hide Numeral, Formatted, DirectiveFor, Padded, Spelled, Converted, Pads, InCase;
    var base, upper := if c == 'b' then 2 else 16, c == 'X';
    var a := if long && c == 'x' then Qword(v) else Dword(v);
    digits := Numeral(v, base, upper);
    NumeralIsSpelled(v, base, upper);
    SpelledStart(digits, v, base, upper);
    if c != 'b' { EightDigits(v, upper); }
    assert Takes(c, long, a) && IsConversion(c);
    DirectiveText(width, zero, long, c, a);
    DirectiveStarts(width, zero, long, c);
    ConvertedUnsigned(Directive(width, zero, long, |DirectiveFor(width, zero, long, c)| - 1), c, v, a);
    UnsignedPadded(digits, if c == 'p' && width < 2 then 0 else if c == 'p' then width - 2 else width, zero);
    if c == 'p' && width < 2 { NoPads(-|digits|, width - 2 - |digits|, zero); }
  }

  lemma EightDigits(v: nat, uppercase: bool)
    ensures v < TWO32 ==> |Numeral(v, 16, uppercase)| <= 8
  {
    LengthIff(v, 16, uppercase, 8);
    assert Pow(16, 1) == 16 && Pow(16, 2) == 256;
    hide Pow, Numeral;
    PowSum(16, 2, 2);
    PowSum(16, 4, 4);
  }

  lemma NoPads(m: int, n: int, zero: bool)
    requires m <= 0 && n <= 0
    ensures Pads(m, zero) == Pads(n, zero)
  {
  }

  lemma UnsignedPadded(digits: string, width: nat, zero: bool)
    requires digits != [] && digits[0] != '-'
    ensures Padded(digits, width, if zero then '0' else ' ') == Pads(width - |digits|, zero) + digits
  {
    hide Padded;
    PaddedIs("", digits, width, zero);
    assert "" + digits == digits && "" + Pads(width - |digits|, true) + digits == Pads(width - |digits|, true) + digits;
    assert Pads(width - |digits|, false) + "" + digits == Pads(width - |digits|, false) + digits;
  }

  lemma ConvertedUnsigned(d: Directive, c: char, v: nat, a: Arg)
    requires c in {'x', 'X', 'p', 'b'} && Takes(c, d.long, a)
    requires a == (if d.long && c == 'x' then Qword(v) else Dword(v))
    ensures Converted(d, c, a) == PrefixOf(c) + Padded(
        Numeral(v, if c == 'b' then 2 else 16, c == 'X'),
        if c == 'p' then (if d.width < 2 then 0 else d.width - 2) else d.width, if d.zero then '0' else ' ')
  {
    hide Padded, Numeral;
    assert "" + Padded(Numeral(v, 2, false), d.width, if d.zero then '0' else ' ') ==
           Padded(Numeral(v, 2, false), d.width, if d.zero then '0' else ' ');
  }

  // ---- Strings and characters ----

  /** `%s`: the string, or "(null)", filled up with blanks on the left, whatever the padding asked for. */
  lemma StringText(s: Option<string>, width: nat, zero: bool, long: bool)
    requires width < TWO32
    ensures var shown := if s.Some? then s.value else "(null)";
      Formatted(DirectiveFor(width, zero, long, 's'), 0, [if s.Some? then Text(s.value) else NullText])
        == Some(Pads(width - |shown|, false) + shown)
  {
    hide Formatted, DirectiveFor, Padded, Pads;
    var shown := if s.Some? then s.value else "(null)";
    DirectiveText(width, zero, long, 's', if s.Some? then Text(s.value) else NullText);
    BlankPadded(shown, width);
  }

  /** `%c`: the low byte of the argument, likewise. */
  lemma CharacterText(bits: nat, width: nat, zero: bool, long: bool)
    requires width < TWO32
    ensures Formatted(DirectiveFor(width, zero, long, 'c'), 0, [Dword(bits)])
         == Some(Pads(width - 1, false) + [(bits % 256) as char])
  {
    hide Formatted, DirectiveFor, Padded, Pads;
    DirectiveText(width, zero, long, 'c', Dword(bits));
    BlankPadded([(bits % 256) as char], width);
  }

  lemma BlankPadded(s: string, width: nat)
    ensures Padded(s, width, ' ') == Pads(width - |s|, false) + s
  {
  }

  // ---- Order ----

  /** Text without a percent sign is copied as it is. */
  lemma {:induction false} PlainText(f: string, i: nat, args: seq<Arg>)
    requires '%' !in f && i <= |f|
    ensures Formatted(f, i, args) == Some(f[i..]) && !CutOff(f, i)
    decreases |f| - i
  {
    if i < |f| {
      assert f[i] in f;
      PlainText(f, i + 1, args);
      assert [f[i]] + f[i + 1..] == f[i..];
    } else {
      assert f[i..] == "";
    }
  }

  /**
   * A directive that ends in a percent sign prints one; with any other character that is no conversion it prints a percent
   * sign and that character; neither width nor padding shows. A percent sign that comes last prints itself.
   */
  lemma PercentText(width: nat, zero: bool, long: bool, c: char, args: seq<Arg>)
    requires width < TWO32 && Ends(c) && !IsConversion(c) && c != '\0'
    ensures Formatted(DirectiveFor(width, zero, long, c), 0, args) == Some(if c == '%' then "%" else ['%', c])
    ensures Formatted("%", 0, args) == Some("%")
  {
    DirectiveIsRead(width, zero, long, c);
    var f := DirectiveFor(width, zero, long, c);
    assert f[|f| - 1] == c && f[0] == '%' && |f| >= 2;
    hide DirectiveFor, ParseDirective;
    NothingLeft(f, |f|, args);
    assert Formatted("%", 1, args) == Some("");
    assert "%" + "" == "%" && ['%', c] + "" == ['%', c];
  }

  /** How many arguments the format takes from `i` on. */
  function ArgsTaken(f: string, i: nat): nat
    decreases |f| - i
  {
    if i >= |f| then 0
    else if f[i] == '%' && i + 1 < |f| then
      var d := ParseDirective(f, i + 1);
      (if IsConversion(At(f, d.end)) then 1 else 0) + ArgsTaken(f, d.end + 1)
    else ArgsTaken(f, i + 1)
  }

  /** The format ends outside a directive, also when more text follows it. */
  predicate EndsOutside(f: string, i: nat)
    decreases |f| - i
  {
    if i >= |f| then i == |f|
    else if f[i] == '%' then i + 1 < |f| && EndsOutside(f, ParseDirective(f, i + 1).end + 1)
    else EndsOutside(f, i + 1)
  }

  lemma {:induction false} SameWidth(f: string, g: string, i: nat, w: nat)
    requires i <= |f| && WidthFrom(f, i, w).1 < |f|
    ensures WidthFrom(f + g, i, w) == WidthFrom(f, i, w)
    decreases |f| - i
  {
    if Decimal(At(f, i)) { SameWidth(f, g, i + 1, Wrap32(w * 10 + (f[i] as int - '0' as int))); }
  }

  lemma SameDirective(f: string, g: string, i: nat)
    requires i < |f| && ParseDirective(f, i).end < |f|
    ensures ParseDirective(f + g, i) == ParseDirective(f, i)
    ensures At(f + g, ParseDirective(f, i).end) == At(f, ParseDirective(f, i).end)
  {
    var j := if f[i] == '0' then i + 1 else i;
    assert WidthFrom(f, j, 0).1 <= ParseDirective(f, i).end;
    SameWidth(f, g, j, 0);
  }

  lemma {:induction false} ShiftedWidth(f: string, g: string, j: nat, w: nat)
    requires j <= |g|
    ensures WidthFrom(f + g, |f| + j, w) == (WidthFrom(g, j, w).0, |f| + WidthFrom(g, j, w).1)
    decreases |g| - j
  {
    assert At(f + g, |f| + j) == At(g, j);
    if Decimal(At(g, j)) { ShiftedWidth(f, g, j + 1, Wrap32(w * 10 + (g[j] as int - '0' as int))); }
  }

  lemma ShiftedDirective(f: string, g: string, j: nat)
    requires j <= |g|
    ensures var d := ParseDirective(g, j);
      ParseDirective(f + g, |f| + j) == Directive(d.width, d.zero, d.long, |f| + d.end) && At(f + g, |f| + d.end) == At(g, d.end)
  {
    assert At(f + g, |f| + j) == At(g, j);
    var k := if At(g, j) == '0' then j + 1 else j;
    ShiftedWidth(f, g, k, 0);
    assert At(f + g, |f| + WidthFrom(g, k, 0).1) == At(g, WidthFrom(g, k, 0).1);
  }

  lemma SameHandled(d: Directive, f: string, e: Directive, g: string, args: seq<Arg>)
    requires At(f, d.end) == At(g, e.end) && d.width == e.width && d.zero == e.zero && d.long == e.long
    ensures Handled(d, f, args) == Handled(e, g, args)
  {
    hide Padded, Numeral;
  }

  lemma {:induction false} ShiftedFormat(f: string, g: string, j: nat, args: seq<Arg>)
    ensures Formatted(f + g, |f| + j, args) == Formatted(g, j, args) && CutOff(f + g, |f| + j) == CutOff(g, j)
    decreases |g| - j
  {
    hide Handled, ParseDirective;
    if j < |g| {
      assert (f + g)[|f| + j] == g[j];
      if g[j] == '%' && j + 1 < |g| {
        ShiftedDirective(f, g, j + 1);
        var d, e := ParseDirective(f + g, |f| + (j + 1)), ParseDirective(g, j + 1);
        SameHandled(d, f + g, e, g, args);
        assert |f| + j + 1 == |f| + (j + 1) && d.end + 1 == |f| + (e.end + 1);
        if Handled(e, g, args).Some? { ShiftedFormat(f, g, e.end + 1, Handled(e, g, args).value.1); }
        else { ShiftedFormat(f, g, e.end + 1, args); }
      } else {
        ShiftedFormat(f, g, j + 1, args);
      }
    }
  }

  /** The text of two formats one behind the other is the text of the first, and then of the second. */
  lemma {:induction false} FormatOfSum(f: string, g: string, i: nat, args: seq<Arg>)
    requires i <= |f| && EndsOutside(f, i) && Formatted(f, i, args).Some?
    ensures ArgsTaken(f, i) <= |args| && CutOff(f + g, i) == CutOff(g, 0)
    ensures Formatted(f + g, i, args) == Prepend(Formatted(f, i, args).value, Formatted(g, 0, args[ArgsTaken(f, i)..]))
    decreases |f| - i
  {
    hide Handled, ParseDirective;
    if i == |f| {
      ShiftedFormat(f, g, 0, args);
      assert args[0..] == args;
      PrependNothing(Formatted(g, 0, args));
    } else {
      assert (f + g)[i] == f[i];
      if f[i] == '%' {
        var d := ParseDirective(f, i + 1);
        EndIsInside(f, d.end + 1);
        SameDirective(f, g, i + 1);
        SameHandled(d, f + g, d, f, args);
        HandledTakes(d, f, args);
        FormatOfSum(f, g, d.end + 1, Handled(d, f, args).value.1);
        PrependTwice(
          Handled(d, f, args).value.0, Formatted(f, d.end + 1, Handled(d, f, args).value.1).value,
          Formatted(g, 0, args[ArgsTaken(f, i)..]));
      } else {
        FormatOfSum(f, g, i + 1, args);
        PrependTwice([f[i]], Formatted(f, i + 1, args).value, Formatted(g, 0, args[ArgsTaken(f, i)..]));
      }
    }
  }

  lemma PrependNothing(tail: Option<string>)
    ensures Prepend("", tail) == tail
  {
    if tail.Some? { assert "" + tail.value == tail.value; }
  }

  lemma PrependTwice(a: string, b: string, tail: Option<string>)
    ensures Prepend(a, Prepend(b, tail)) == Prepend(a + b, tail)
  {
    if tail.Some? { assert a + (b + tail.value) == a + b + tail.value; }
  }

  lemma EndIsInside(f: string, i: nat)
    requires EndsOutside(f, i)
    ensures i <= |f|
  {
  }

  lemma HandledTakes(d: Directive, f: string, args: seq<Arg>)
    requires Handled(d, f, args).Some?
    ensures var n := if IsConversion(At(f, d.end)) then 1 else 0;
      n <= |args| && Handled(d, f, args).value.1 == args[n..] && forall k: nat :: k <= |args[n..]| ==> args[n..][k..] == args[n + k..]
  {
    assert args[0..] == args;
  }

  /** The message of the page-fault handler: the address in hexadecimal. It fits the handler's 64 bytes. */
  lemma PageFaultMessage(address: Vaddr) returns (digits: string)
    ensures Spelled(digits, address, 16, false)
    ensures |"Page fault invoked by accessing the address 0x" + digits + "."| < 64
    ensures Formatted("Page fault invoked by accessing the address %x.", 0, [Dword(address)])
         == Some("Page fault invoked by accessing the address 0x" + digits + ".")
  {
    hide Formatted, Spelled, EndsOutside, ArgsTaken;
    var f := "Page fault invoked by accessing the address ";
    digits := ShortHex(address);
    AroundDirective(f, "%x", ".", Dword(address), "0x" + digits);
    assert f + "%x" + "." == "Page fault invoked by accessing the address %x.";
    assert f + ("0x" + digits) + "." == "Page fault invoked by accessing the address 0x" + digits + ".";
  }

  lemma ShortHex(v: Vaddr) returns (digits: string)
    ensures Spelled(digits, v, 16, false) && |digits| <= 8 && Formatted("%x", 0, [Dword(v)]) == Some("0x" + digits)
    ensures EndsOutside("%x", 0) && ArgsTaken("%x", 0) == 1
  {
    hide Formatted, Spelled;
    digits := UnsignedText(v, 0, false, false, 'x');
    DirectiveIsRead(0, false, false, 'x');
    assert DirectiveFor(0, false, false, 'x') == "%x";
    assert Pads(0 - |digits|, false) + digits == digits;
  }

  /** Plain text in front of a directive and behind it. */
  lemma AroundDirective(f: string, x: string, g: string, a: Arg, text: string)
    requires '%' !in f && '%' !in g && EndsOutside(x, 0) && ArgsTaken(x, 0) == 1 && Formatted(x, 0, [a]) == Some(text)
    ensures Formatted(f + x + g, 0, [a]) == Some(f + text + g) && !CutOff(f + x + g, 0)
  {
    hide Formatted, EndsOutside, ArgsTaken, CutOff;
    PlainText(f, 0, [a]);
    PlainText(g, 0, []);
    PlainEnds(f, 0);
    assert f[0..] == f && g[0..] == g && [a][0..] == [a] && [a][1..] == [];
    FormatOfSum(x, g, 0, [a]);
    FormatOfSum(f, x + g, 0, [a]);
    assert f + (x + g) == f + x + g && f + (text + g) == f + text + g;
  }

  lemma {:induction false} PlainEnds(f: string, i: nat)
    requires '%' !in f && i <= |f|
    ensures EndsOutside(f, i) && ArgsTaken(f, i) == 0
    decreases |f| - i
  {
    if i < |f| {
      assert f[i] in f;
      PlainEnds(f, i + 1);
    }
  }
}
