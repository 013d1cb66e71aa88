/** ksprintf.c: formats, their directives, and the text they stand for. */
module Format {
  import opened Base
  import opened Numerals
  import opened Sprintf

  /** An argument on the stack: a 32-bit or 64-bit number given by its bits, a string, or a null string. */
  datatype Arg = Dword(bits: nat) | Qword(bits: nat) | Text(s: string) | NullText

  /** What kparse_format and the `l` test find: `end` is the index of the conversion character. */
  datatype Directive = Directive(width: nat, zero: bool, long: bool, end: nat)

  predicate Decimal(c: char) { '0' <= c <= '9' }

  /** The width loop: a uint32_t, and where it stops. */
  function WidthFrom(format: string, i: nat, width: nat): (r: (nat, nat))
    ensures i <= r.1 && (i <= |format| ==> r.1 <= |format|) && (width < TWO32 ==> r.0 < TWO32)
    decreases |format| - i
  {
    if Decimal(At(format, i)) then WidthFrom(format, i + 1, Wrap32(width * 10 + (format[i] as int - '0' as int)))
    else (width, i)
  }

  function ParseDirective(format: string, i: nat): (d: Directive)
    requires i <= |format|
    ensures i <= d.end <= |format| && d.width < TWO32
  {
    var zero := At(format, i) == '0';
    var (width, j) := WidthFrom(format, if zero then i + 1 else i, 0);
    var long := At(format, j) == 'l';
    Directive(width, zero, long, if long then j + 1 else j)
  }

  function Signed32(bits: nat): int { if bits < 0x8000_0000 then bits else bits - TWO32 }
  function Signed64(bits: nat): int { if bits < 0x8000_0000_0000_0000 then bits else bits - TWO64 }

  predicate Fits(a: Arg) {
    match a
    case Dword(b) => b < TWO32
    case Qword(b) => b < TWO64
    case Text(s) => '\0' !in s
    case NullText => true
  }

  /** The kind of argument a conversion takes; none for `%` and for unknown characters. */
  predicate Takes(c: char, long: bool, a: Arg) {
    if c == 's' then a.Text? || a.NullText?
    else if long && (c == 'd' || c == 'x') then a.Qword?
    else a.Dword?
  }

  predicate IsConversion(c: char) { c in "dxXbpsc" }

  /** The text of one conversion. */
  function Converted(d: Directive, c: char, a: Arg): string
    requires IsConversion(c) && Takes(c, d.long, a)
  {
    var pad := if d.zero then '0' else ' ';
    match c
    case 'd' => Padded(SignedText(if d.long then Signed64(a.bits) else Signed32(a.bits)), d.width, pad)
    case 'x' => "0x" + Padded(Numeral(a.bits, 16, false), d.width, pad)
    case 'X' => "0X" + Padded(Numeral(a.bits, 16, true), d.width, pad)
    case 'b' => Padded(Numeral(a.bits, 2, false), d.width, pad)
    case 'p' => "0x" + Padded(Numeral(a.bits, 16, false), if d.width > 2 then d.width - 2 else 0, pad)
    case 's' => Padded(if a.Text? then a.s else "(null)", d.width, ' ')
    case _ => Padded([(a.bits % 256) as char], d.width, ' ')
  }

  /**
   * One directive: its text and the arguments left; None when the next argument is not of its kind. Where the format
   * ends inside the directive, the terminator is taken for an unknown conversion.
   */
  function Handled(d: Directive, format: string, args: seq<Arg>): Option<(string, seq<Arg>)> {
    var c := At(format, d.end);
    if IsConversion(c) then
      if args == [] || !Takes(c, d.long, args[0]) then None else Some((Converted(d, c, args[0]), args[1..]))
    else if c == '%' then Some(("%", args))
    else Some((['%', c], args))
  }

  /** The format ends inside a directive: the loop of ksprintf goes on behind the terminator. */
  predicate CutOff(format: string, i: nat)
    decreases |format| - i
  {
    if i >= |format| then i > |format|
    else if format[i] == '%' && i + 1 < |format| then CutOff(format, ParseDirective(format, i + 1).end + 1)
    else CutOff(format, i + 1)
  }

  /** What ksprintf writes for the format from `i` on, up to its end or past it. */
  function Formatted(format: string, i: nat, args: seq<Arg>): Option<string>
    decreases |format| - i
  {
    if i >= |format| then Some("")
    else if format[i] == '%' && i + 1 < |format| then
      var d := ParseDirective(format, i + 1);
      match Handled(d, format, args)
      case None => None
      case Some((text, rest)) => Prepend(text, Formatted(format, d.end + 1, rest))
    else Prepend([format[i]], Formatted(format, i + 1, args))
  }

  function Prepend(text: string, tail: Option<string>): Option<string> {
    match tail
    case None => None
    case Some(t) => Some(text + t)
  }

  // ---- kparse_format, khandle_format, ksprintf ----

  /** kparse_format, and the `l` that may follow. */
  method ReadDirective(format: string, start: nat) returns (d: Directive)
    requires start <= |format|
    ensures d == ParseDirective(format, start)
  {
    var i: nat, width: nat, zero := start, 0, false;
    if At(format, i) == '0' {
      zero := true;
      i := i + 1;
    }
    while Decimal(At(format, i))
      invariant i <= |format|
      invariant WidthFrom(format, i, width) == WidthFrom(format, if zero then start + 1 else start, 0)
      decreases |format| - i
    {
      width := Wrap32(width * 10 + (format[i] as int - '0' as int));
      i := i + 1;
    }
    var long := At(format, i) == 'l';
    if long { i := i + 1; }
    d := Directive(width, zero, long, i);
  }

  /** Print the terminated text that stands in the scratch buffer. */
  method PrintScratch(
    out: array<char>, at: nat, buffer: array<char>, len: nat, width: nat, pad: char) returns (next: nat)
    requires len <= buffer.Length && buffer != out && at + |Padded(buffer[..len], width, pad)| <= out.Length
    modifies out
    ensures next == at + |Padded(buffer[..len], width, pad)|
    ensures out[..] == Splice(old(out[..]), at, Padded(buffer[..len], width, pad))
  {
    next := PrintPadded(out, at, buffer[..len], width, pad);
  }

  /** The `d` conversion. */
  method PrintDecimal(out: array<char>, at: nat, d: Directive, a: Arg) returns (next: nat)
    requires Takes('d', d.long, a) && Fits(a) && at + |Converted(d, 'd', a)| <= out.Length
    modifies out
    ensures next == at + |Converted(d, 'd', a)| && out[..] == Splice(old(out[..]), at, Converted(d, 'd', a))
  {
    hide Padded, SignedText, Splice;
    var buffer := new char[64];
    var len;
    if d.long {
      len := Kitoa64(Signed64(a.bits), buffer);
    } else {
      len := Kitoa(Signed32(a.bits), buffer);
    }
    assert buffer[..len] == buffer[0..len];
    next := PrintScratch(out, at, buffer, len, d.width, if d.zero then '0' else ' ');
  }

  /** The `x`, `X`, `p` and `b` conversions, after their prefix. */
  method PrintUnsigned(
    out: array<char>, at: nat, long: bool, bits: nat, base: nat, uppercase: bool, width: nat, pad: char)
    returns (next: nat)
    requires (base == 16 && long && bits < TWO64) || ((base == 2 || base == 16) && !long && bits < TWO32)
    requires at + |Padded(Numeral(bits, base, uppercase), width, pad)| <= out.Length
    modifies out
    ensures next == at + |Padded(Numeral(bits, base, uppercase), width, pad)|
    ensures out[..] == Splice(old(out[..]), at, Padded(Numeral(bits, base, uppercase), width, pad))
  {
    hide Padded, Splice, Numeral;
    var buffer := new char[64];
    var len;
    if long {
      ScratchIsLargeEnough(bits, base, uppercase);
      var fits;
      len, fits := Kuitoa64(bits, base, buffer, 0, uppercase);
    } else {
      len := Kuitoa(bits, base, buffer, 0, uppercase);
    }
    assert buffer[..len] == buffer[0..len];
    next := PrintScratch(out, at, buffer, len, width, pad);
  }

  /** kbuf_write of the prefix, then the padded digits. */
  method PrintHex(
    out: array<char>, at: nat, prefix: string, long: bool, bits: nat, uppercase: bool, width: nat, pad: char)
    returns (next: nat)
    requires if long then bits < TWO64 else bits < TWO32
    requires at + |prefix + Padded(Numeral(bits, 16, uppercase), width, pad)| <= out.Length
    modifies out
    ensures next == at + |prefix + Padded(Numeral(bits, 16, uppercase), width, pad)|
    ensures out[..] == Splice(old(out[..]), at, prefix + Padded(Numeral(bits, 16, uppercase), width, pad))
  {
    hide Padded, Splice, Numeral;
    next := Write(out, at, prefix);
    next := PrintUnsigned(out, next, long, bits, 16, uppercase, width, pad);
    SpliceTwice(old(out[..]), at, prefix, Padded(Numeral(bits, 16, uppercase), width, pad));
  }

  /** The `switch` of khandle_format, for conversions that take an argument. */
  method Convert(out: array<char>, at: nat, d: Directive, c: char, a: Arg) returns (next: nat)
    requires IsConversion(c) && Takes(c, d.long, a) && Fits(a) && at + |Converted(d, c, a)| <= out.Length
    modifies out
    ensures next == at + |Converted(d, c, a)| && out[..] == Splice(old(out[..]), at, Converted(d, c, a))
  {
    hide Padded, Splice, Numeral, SignedText;
    var pad := if d.zero then '0' else ' ';
    match c {
      case 'd' => next := PrintDecimal(out, at, d, a);
      case 'x' => next := PrintHex(out, at, "0x", d.long, a.bits, false, d.width, pad);
      case 'X' => next := PrintHex(out, at, "0X", false, a.bits, true, d.width, pad);
      case 'b' => next := PrintUnsigned(out, at, false, a.bits, 2, false, d.width, pad);
      case 'p' => next := PrintHex(out, at, "0x", false, a.bits, false, if d.width > 2 then d.width - 2 else 0, pad);
      case 's' => next := PrintPadded(out, at, if a.Text? then a.s else "(null)", d.width, ' ');
      case _ => next := PrintPadded(out, at, [(a.bits % 256) as char], d.width, ' ');
    }
  }

  /**
   * khandle_format, also at the end of the format: returns the cursor, the index of the conversion character and the
   * arguments left.
   */
  method HandleFormat(out: array<char>, at: nat, format: string, i: nat, args: seq<Arg>)
    returns (next: nat, end: nat, rest: seq<Arg>)
    requires i <= |format| && Handled(ParseDirective(format, i), format, args).Some?
    requires forall a <- args :: Fits(a)
    requires at + |Handled(ParseDirective(format, i), format, args).value.0| <= out.Length
    modifies out
    ensures var r := Handled(ParseDirective(format, i), format, args).value;
      && rest == r.1 && end == ParseDirective(format, i).end
      && next == at + |r.0| && out[..] == Splice(old(out[..]), at, r.0)
  {
    hide Padded, Splice, Numeral, SignedText, ParseDirective, Converted;
    var d := ReadDirective(format, i);
    end, rest := d.end, args;
    var c := At(format, end);
    if IsConversion(c) {
      next := Convert(out, at, d, c, args[0]);
      rest := args[1..];
    } else if c == '%' {
      next := Put(out, at, '%');
    } else {
      next := Put(out, at, '%');
      next := Put(out, next, c);
      SpliceTwice(old(out[..]), at, "%", [c]);
      assert "%" + [c] == ['%', c];
    }
  }

  /** One turn of ksprintf's loop; it may step over the terminator. */
  method Turn(out: array<char>, at: nat, format: string, i: nat, args: seq<Arg>, ghost text: string)
    returns (next: nat, j: nat, rest: seq<Arg>, ghost piece: string)
    requires i < |format| && Formatted(format, i, args) == Some(text) && at + |text| <= out.Length
    requires forall a <- args :: Fits(a)
    modifies out
    ensures i < j <= |format| + 1 && (forall a <- rest :: Fits(a)) && CutOff(format, j) == CutOff(format, i)
    ensures piece <= text && Formatted(format, j, rest) == Some(text[|piece|..])
    ensures next == at + |piece| && out[..] == Splice(old(out[..]), at, piece)
  {
    hide Padded, Splice, Numeral, SignedText, Converted, ParseDirective, Handled, Fits;
    if format[i] == '%' && i + 1 < |format| {
      ghost var d := ParseDirective(format, i + 1);
      HandledInside(d, format, args);
      piece := Handled(d, format, args).value.0;
      var end;
      next, end, rest := HandleFormat(out, at, format, i + 1, args);
      j := end + 1;
    } else {
      piece := [format[i]];
      next := Put(out, at, format[i]);
      j, rest := i + 1, args;
    }
  }

  lemma HandledInside(d: Directive, format: string, args: seq<Arg>)
    ensures Handled(d, format, args).Some? ==> forall a <- Handled(d, format, args).value.1 :: a in args
  {
  }

  /**
   * ksprintf: for arguments of the kinds taken, exactly the text, one terminator, and the count of what precedes it; it
   * reads on behind the format (and nothing is said of what it writes then) exactly when the format is cut off.
   */
  method Ksprintf(buffer: array<char>, format: string, args: seq<Arg>) returns (count: nat, overread: bool)
    requires '\0' !in format && forall a <- args :: Fits(a)
    requires Formatted(format, 0, args).Some? && |Formatted(format, 0, args).value| < buffer.Length <= TWO32
    modifies buffer
    ensures overread <==> CutOff(format, 0)
    ensures !overread ==>
      var text := Formatted(format, 0, args).value;
      count == |text| && buffer[..] == Splice(old(buffer[..]), 0, text + ['\0'])
  {
    ghost var text := Formatted(format, 0, args).value;
    ghost var done: string := [];
    ghost var piece: string;
    var i, rest := 0, args;
    count := 0;
    SpliceNothing(buffer[..], 0);
    hide Splice, Formatted, Fits, CutOff;
    while i < |format|
      invariant i <= |format| + 1 && CutOff(format, i) == CutOff(format, 0) && done <= text && count == |done|
      invariant (forall a <- rest :: Fits(a))
      invariant Formatted(format, i, rest) == Some(text[|done|..])
      invariant buffer[..] == Splice(old(buffer[..]), 0, done)
      decreases |format| - i
    {
      count, i, rest, piece := Turn(buffer, count, format, i, rest, text[|done|..]);
      SpliceTwice(old(buffer[..]), 0, done, piece);
      NextPiece(text, done, piece);
      done := done + piece;
    }
    NothingLeft(format, i, rest);
    overread := i > |format|;
    if overread {
      return;
    }
    assert done == text;
    count := Finish(buffer, count, old(buffer[..]), text);
  }

  method Finish(buffer: array<char>, count: nat, ghost was: string, ghost text: string) returns (same: nat)
    requires count == |text| < buffer.Length == |was| && buffer[..] == Splice(was, 0, text)
    modifies buffer
    ensures same == count && buffer[..] == Splice(was, 0, text + ['\0'])
  {
    same := Put(buffer, count, '\0');
    SpliceTwice(was, 0, text, ['\0']);
    same := count;
  }

  lemma NextPiece(text: string, done: string, piece: string)
    requires done <= text && piece <= text[|done|..]
    ensures done + piece <= text && text[|done|..][|piece|..] == text[|done + piece|..]
  {
  }

  lemma NothingLeft(format: string, i: nat, args: seq<Arg>)
    requires i >= |format|
    ensures Formatted(format, i, args) == Some("") && (CutOff(format, i) <==> i > |format|)
  {
  }

  // ---- The count and the C string ----

  /** Length of a C string: the index of its first NUL. */
  function StrLen(s: string): (n: nat)
    ensures n <= |s| && '\0' !in s[..n] && (n < |s| ==> s[n] == '\0')
  {
    if s == [] || s[0] == '\0' then 0
    else
      var n := 1 + StrLen(s[1..]);
      assert s[..n] == [s[0]] + s[1..][..n - 1];
      n
  }

  /** No `%c` of the format takes an argument whose low byte is zero. */
  predicate NoZeroCharacter(format: string, i: nat, args: seq<Arg>)
    requires Formatted(format, i, args).Some?
    decreases |format| - i
  {
    if i >= |format| then true
    else if format[i] == '%' && i + 1 < |format| then
      var d := ParseDirective(format, i + 1);
      (At(format, d.end) == 'c' ==> args[0].bits % 256 != 0) && NoZeroCharacter(format, d.end + 1, Handled(d, format, args).value.1)
    else NoZeroCharacter(format, i + 1, args)
  }

  lemma DigitIsNotNul(d: nat, uppercase: bool)
    requires d < 16
    ensures DigitChar(d, uppercase) != '\0'
  {
    assert '\0' !in "0123456789abcdef" && '\0' !in "0123456789ABCDEF";
  }

  lemma {:induction false} NumeralHasNoNul(v: nat, base: nat, uppercase: bool)
    requires 2 <= base <= 16
    ensures '\0' !in Numeral(v, base, uppercase)
  {
    DigitIsNotNul(if v < base then v else v % base, uppercase);
    hide DigitChar;
    if v >= base { NumeralHasNoNul(v / base, base, uppercase); }
  }

  lemma PaddedHasNoNul(s: string, width: nat, pad: char)
    requires pad != '\0'
    ensures '\0' in Padded(s, width, pad) <==> '\0' in s
  {
    var t := Padded(s, width, pad);
    if width > |s| {
      if s != [] && s[0] == '-' && pad == '0' {
        assert s == [s[0]] + s[1..];
        assert '\0' in s <==> '\0' in s[1..];
        assert '\0' !in "-" + Repeat('0', width - |s|);
        assert t == "-" + Repeat('0', width - |s|) + s[1..];
      } else {
        assert '\0' !in Repeat(pad, width - |s|);
      }
    }
  }

  lemma ConvertedNul(d: Directive, c: char, a: Arg)
    requires IsConversion(c) && Takes(c, d.long, a) && Fits(a)
    ensures '\0' in Converted(d, c, a) <==> c == 'c' && a.bits % 256 == 0
  {
    var pad := if d.zero then '0' else ' ';
    hide Padded, Numeral;
    match c {
      case 'd' =>
        var v := if d.long then Signed64(a.bits) else Signed32(a.bits);
        NumeralHasNoNul(if v < 0 then -v else v, 10, false);
        PaddedHasNoNul(SignedText(v), d.width, pad);
      case 'x' => NumeralHasNoNul(a.bits, 16, false); PaddedHasNoNul(Numeral(a.bits, 16, false), d.width, pad);
      case 'X' => NumeralHasNoNul(a.bits, 16, true); PaddedHasNoNul(Numeral(a.bits, 16, true), d.width, pad);
      case 'b' => NumeralHasNoNul(a.bits, 2, false); PaddedHasNoNul(Numeral(a.bits, 2, false), d.width, pad);
      case 'p' =>
        NumeralHasNoNul(a.bits, 16, false);
        PaddedHasNoNul(Numeral(a.bits, 16, false), if d.width > 2 then d.width - 2 else 0, pad);
      case 's' => PaddedHasNoNul(if a.Text? then a.s else "(null)", d.width, ' ');
      case _ => PaddedHasNoNul([(a.bits % 256) as char], d.width, ' ');
    }
  }

  lemma {:induction false} TextNul(format: string, i: nat, args: seq<Arg>)
    requires '\0' !in format && (forall a <- args :: Fits(a)) && Formatted(format, i, args).Some? && !CutOff(format, i)
    ensures '\0' !in Formatted(format, i, args).value <==> NoZeroCharacter(format, i, args)
    decreases |format| - i
  {
    hide Converted, ParseDirective, Fits;
    if i < |format| {
      if format[i] == '%' && i + 1 < |format| {
        var d := ParseDirective(format, i + 1);
        NotInside(format, i);
        var c := format[d.end];
        if IsConversion(c) { ConvertedNul(d, c, args[0]); }
        HandledInside(d, format, args);
        TextNul(format, d.end + 1, Handled(d, format, args).value.1);
      } else {
        TextNul(format, i + 1, args);
      }
    }
  }

  lemma NotInside(format: string, i: nat)
    requires i + 1 < |format| && format[i] == '%' && !CutOff(format, i)
    ensures ParseDirective(format, i + 1).end < |format| && !CutOff(format, ParseDirective(format, i + 1).end + 1)
  {
  }

  /** The count ksprintf returns is the length of the C string it leaves exactly when no `%c` wrote a NUL of its own. */
  lemma CountIsTheLength(format: string, args: seq<Arg>, more: string)
    requires '\0' !in format && (forall a <- args :: Fits(a)) && Formatted(format, 0, args).Some? && !CutOff(format, 0)
    ensures var text := Formatted(format, 0, args).value;
      StrLen(text + ['\0'] + more) == |text| <==> NoZeroCharacter(format, 0, args)
  {
    TextNul(format, 0, args);
    var text := Formatted(format, 0, args).value;
    var all := text + ['\0'] + more;
    var n := StrLen(all);
    assert all[..|text|] == text;
    assert all[|text|] == '\0';
    assert forall p :: 0 <= p < n ==> all[p] in all[..n];
    assert n < |text| ==> text[n] == '\0';
  }

  // ---- The width written in a directive is the width used ----

  lemma OneDigitMore(format: string, i: nat, j: nat, k: nat)
    requires i <= k < j <= |format| && Decimal(format[k]) && AllDigits(format[i..j], 10) && AllDigits(format[i..k], 10)
    ensures AllDigits(format[i..k + 1], 10)
    ensures Value(format[i..k + 1], 10) == Value(format[i..k], 10) * 10 + (format[k] as int - '0' as int) <= Value(format[i..j], 10)
  {
    hide Value;
    assert format[i..k + 1] == format[i..k] + [format[k]];
    ValueOfAppend(format[i..k], format[k], 10);
    PrefixValue(format[i..j], k + 1 - i, 10);
    assert format[i..j][..k + 1 - i] == format[i..k + 1];
  }

  lemma {:induction false} WidthOfRun(format: string, i: nat, j: nat, k: nat)
    requires i <= k <= j <= |format| && (forall p :: i <= p < j ==> Decimal(format[p])) && !Decimal(At(format, j))
    requires AllDigits(format[i..j], 10) && AllDigits(format[i..k], 10) && Value(format[i..j], 10) < TWO32
    ensures WidthFrom(format, k, Value(format[i..k], 10)) == (Value(format[i..j], 10), j)
    decreases j - k
  {
    hide Value, AllDigits, Wrap32;
    if k < j {
      OneDigitMore(format, i, j, k);
      WidthOfRun(format, i, j, k + 1);
    }
  }

  lemma {:induction false} NumeralShape(v: nat)
    ensures forall c <- Numeral(v, 10, false) :: Decimal(c)
    ensures v > 0 ==> Numeral(v, 10, false)[0] != '0'
  {
    if v >= 10 { NumeralShape(v / 10); }
  }

  function WidthText(width: nat): string {
    if width == 0 then "" else Numeral(width, 10, false)
  }

  /** The directive text for a width, a padding and a length, as in `%8x` and `%08ld`; no width is written for 0. */
  function DirectiveFor(width: nat, zero: bool, long: bool, c: char): string {
    "%" + (if zero then "0" else "") + WidthText(width) + (if long then "l" else "") + [c]
  }

  lemma WidthIsRead(f: string, i: nat, width: nat)
    requires width < TWO32 && i + |WidthText(width)| < |f| && f[i..i + |WidthText(width)|] == WidthText(width)
    requires !Decimal(f[i + |WidthText(width)|])
    ensures WidthFrom(f, i, 0) == (width, i + |WidthText(width)|)
    ensures f[i] != '0'
  {
    var digits := WidthText(width);
    var j := i + |digits|;
    if width > 0 {
      NumeralShape(width);
      NumeralValue(width, 10, false);
      assert f[i] == digits[0];
    }
    hide Numeral;
    assert forall p :: i <= p < j ==> f[p] == digits[p - i];
    assert f[i..i] == [];
    assert Value("", 10) == 0;
    WidthOfRun(f, i, j, i);
  }

  lemma DirectiveStarts(width: nat, zero: bool, long: bool, c: char)
    ensures DirectiveFor(width, zero, long, c) != []
  {
  }

  /** The conversion character ends the width: it is neither a digit nor, behind no `l`, an `l`. */
  predicate Ends(c: char) { !Decimal(c) && c != 'l' }

  lemma DirectiveIsRead(width: nat, zero: bool, long: bool, c: char)
    requires width < TWO32 && Ends(c)
    ensures var f := DirectiveFor(width, zero, long, c);
      ParseDirective(f, 1) == Directive(width, zero, long, |f| - 1)
  {
    var f, digits := DirectiveFor(width, zero, long, c), WidthText(width);
    var i := if zero then 2 else 1;
    hide WidthText;
    assert f[i..i + |digits|] == digits;
    assert f[i + |digits|] == (if long then 'l' else c) && |f| == i + |digits| + if long then 2 else 1;
    assert zero ==> f[1] == '0';
    WidthIsRead(f, i, width);
  }

  /** So `%[0]<width>[l]<c>` prints its argument with that width and padding. */
  lemma DirectiveText(width: nat, zero: bool, long: bool, c: char, a: Arg)
    requires width < TWO32 && IsConversion(c) && Takes(c, long, a)
    ensures var f := DirectiveFor(width, zero, long, c);
      && !CutOff(f, 0)
      && Formatted(f, 0, [a]) == Some(Converted(Directive(width, zero, long, |f| - 1), c, a))
  {
    assert Ends(c);
    DirectiveIsRead(width, zero, long, c);
    var f := DirectiveFor(width, zero, long, c);
    assert f[|f| - 1] == c && f[0] == '%' && |f| >= 2;
    hide DirectiveFor, ParseDirective, Converted;
    NothingLeft(f, |f|, []);
    var text := Converted(Directive(width, zero, long, |f| - 1), c, a);
    assert text + "" == text;
  }
}
