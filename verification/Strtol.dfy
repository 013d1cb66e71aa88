/** kstrtol.c: reading a number, with base detection and an exact overflow test. */
module Strtol {
  import opened Base
  import opened Numerals

  /** The answer of kstrtol: its value, and what it stores through `ok`. */
  datatype Parsed = Parsed(value: int, ok: bool)

  const REJECTED := Parsed(0, false)

  predicate Blank(c: char) { c == ' ' || c == '\t' }

  /** Length of the longest prefix of blanks. */
  function Blanks(s: string): (n: nat)
    ensures n <= |s| && (forall i :: 0 <= i < n ==> Blank(s[i])) && (n < |s| ==> !Blank(s[n]))
  {
    if s != [] && Blank(s[0]) then 1 + Blanks(s[1..]) else 0
  }

  /** Length of the longest prefix of digits. */
  function DigitRun(s: string, base: nat): (n: nat)
    ensures n <= |s| && AllDigits(s[..n], base) && (n < |s| ==> !IsDigit(s[n], base))
  {
    if s != [] && IsDigit(s[0], base) then
      var n := 1 + DigitRun(s[1..], base);
      assert s[..n] == [s[0]] + s[1..][..n - 1];
      n
    else 0
  }

  /** The maximal run of digits, when there is one and its value fits in 63 bits, gives the number. */
  function ParseDigits(s: string, base: int, sign: int): Parsed {
    if base < 2 || base > 16 then REJECTED
    else
      var run := s[..DigitRun(s, base)];
      if run == [] || Value(run, base) > LONG_MAX then REJECTED else Parsed(sign * Value(run, base), true)
  }

  /** The base in force and the characters its prefix takes. */
  function DetectBase(s: string, base: int): (int, nat) {
    if base != 0 then (base, 0)
    else if At(s, 0) == '0' && (At(s, 1) == 'x' || At(s, 1) == 'X') then (16, 2)
    else if At(s, 0) == '0' then (8, 1)
    else (10, 0)
  }

  function ParseUnsigned(s: string, base: int, sign: int): Parsed {
    var (b, skipped) := DetectBase(s, base);
    ParseDigits(s[skipped..], b, sign)
  }

  /** The sign, and what stands behind blanks and sign. */
  function Signed(s: string): (int, string) {
    var t := s[Blanks(s)..];
    if t != [] && t[0] == '-' then (-1, t[1..])
    else if t != [] && t[0] == '+' then (1, t[1..])
    else (1, t)
  }

  /** What kstrtol answers. */
  function Parse(s: string, base: int): Parsed {
    var (sign, t) := Signed(s);
    ParseUnsigned(t, base, sign)
  }

  /** accumulate: accepts a digit exactly when the new value still fits. */
  method Accumulate(value: nat, base: nat, digit: nat) returns (ok: bool, next: nat)
    requires value <= LONG_MAX && 2 <= base <= 16 && digit < base
    ensures ok <==> value * base + digit <= LONG_MAX
    ensures next == if ok then value * base + digit else value
  {
    var limit, limitRem := DivMod(LONG_MAX, base);
    LimitTest(value, base, digit, limit, limitRem);
    if value > limit {
      return false, value;
    }
    if value == limit && digit > limitRem {
      return false, value;
    }
    return true, value * base + digit;
  }

  lemma LimitTest(value: nat, base: nat, digit: nat, limit: nat, limitRem: nat)
    requires base > 0 && digit < base && limit == LONG_MAX / base && limitRem == LONG_MAX % base
    ensures value * base + digit <= LONG_MAX <==> value < limit || (value == limit && digit <= limitRem)
  {
    DivisionIdentity(LONG_MAX, base);
    if value > limit {
      TimesMonotone(limit + 1, value, base);
    } else if value < limit {
      TimesMonotone(value + 1, limit, base);
    }
    assert (limit + 1) * base == limit * base + base && (value + 1) * base == value * base + base;
  }

  /** The scan loop of kstrtol. */
  method Scan(s: string, base: nat, sign: int) returns (r: Parsed)
    requires 2 <= base <= 16 && (sign == 1 || sign == -1)
    ensures r == ParseDigits(s, base, sign)
  {
    var value, p, parsed := 0, 0, false;
    while At(s, p) != '\0'
      invariant 0 <= p <= |s| && AllDigits(s[..p], base) && p <= DigitRun(s, base)
      invariant value == Value(s[..p], base) <= LONG_MAX && (parsed <==> p > 0)
      decreases |s| - p
    {
      var digit := CharToDigit(s[p]);
      RunContinues(s, base, p);
      if digit < 0 || digit >= base {
        break;
      }
      assert s[..p + 1] == s[..p] + [s[p]];
      ValueOfAppend(s[..p], s[p], base);
      var ok;
      ok, value := Accumulate(value, base, digit);
      if !ok {
        PrefixValue(s[..DigitRun(s, base)], p + 1, base);
        assert s[..DigitRun(s, base)][..p + 1] == s[..p + 1];
        return REJECTED;
      }
      parsed := true;
      p := p + 1;
    }
    RunEnds(s, base, p);
    if !parsed {
      return REJECTED;
    }
    return Parsed(value * sign, true);
  }

  lemma RunContinues(s: string, base: nat, p: nat)
    requires p < |s| && p <= DigitRun(s, base)
    ensures IsDigit(s[p], base) <==> p < DigitRun(s, base)
  {
    var n := DigitRun(s, base);
    if p < n {
      assert s[..n][p] == s[p];
    }
  }

  lemma RunEnds(s: string, base: nat, p: nat)
    requires p <= DigitRun(s, base)
    requires p == |s| || !IsDigit(s[p], base)
    ensures p == DigitRun(s, base)
  {
    if p < |s| { RunContinues(s, base, p); }
  }

  /** skip_spaces */
  method SkipSpaces(s: string) returns (p: nat)
    ensures p == Blanks(s)
  {
    p := 0;
    while Blank(At(s, p))
      invariant 0 <= p <= Blanks(s)
      decreases |s| - p
    {
      p := p + 1;
    }
  }

  /** What stands from `p` on, once the sign has been taken. */
  method AfterSign(s: string, p: nat, base: int, sign: int) returns (r: Parsed)
    requires p <= |s| && (sign == 1 || sign == -1)
    ensures r == ParseUnsigned(s[p..], base, sign)
  {
    hide DigitRun, Value, AllDigits;
    var (b, skipped) := DetectBase(s[p..], base);
    if b < 2 || b > 16 {
      return REJECTED;
    }
    assert s[p + skipped..] == s[p..][skipped..];
    r := Scan(s[p + skipped..], b, sign);
  }

  /** kstrtol */
  method Strtol(s: string, base: int) returns (r: Parsed)
    ensures r == Parse(s, base)
  {
    hide ParseUnsigned, DetectBase;
    var p := SkipSpaces(s);
    var sign := 1;
    if At(s, p) == '-' {
      sign := -1;
      p := p + 1;
      assert s[p..] == s[p - 1..][1..];
    } else if At(s, p) == '+' {
      p := p + 1;
      assert s[p..] == s[p - 1..][1..];
    }
    r := AfterSign(s, p, base, sign);
  }

  // ---- What is accepted ----

  /** Blanks, a sign, the prefix of a base, a non-empty run of its digits, and what follows the run. */
  datatype Parts = Parts(blanks: string, sign: string, prefix: string, digits: string, rest: string)

  /** The prefix a call in `base` allows in front of digits of base `b`. */
  predicate PrefixFits(base: int, b: nat, prefix: string, digits: string) {
    if base != 0 then prefix == [] && b == base
    else
      || (prefix in {"0x", "0X"} && b == 16)
      || (prefix == "0" && b == 8)
      || (prefix == [] && b == 10 && (digits == [] || digits[0] != '0'))
  }

  /** The characters behind blanks and sign are spelled by the other parts, in base `b`. */
  ghost predicate SpellsNumber(t: string, base: int, b: nat, x: Parts) {
    && t == x.prefix + (x.digits + x.rest)
    && 2 <= b <= 16 && PrefixFits(base, b, x.prefix, x.digits)
    && x.digits != [] && AllDigits(x.digits, b) && (x.rest == [] || !IsDigit(x.rest[0], b))
    && Value(x.digits, b) <= LONG_MAX
  }

  function Factor(sign: string): int { if sign == "-" then -1 else 1 }

  /** `s` is spelled by these parts, and `v` is the value they spell. */
  ghost predicate Spells(s: string, base: int, b: nat, x: Parts, v: int) {
    var t := x.prefix + (x.digits + x.rest);
    && s == x.blanks + (x.sign + t) && (forall c <- x.blanks :: c in " \t") && x.sign in {"", "-", "+"}
    && SpellsNumber(t, base, b, x) && v == Factor(x.sign) * Value(x.digits, b)
  }

  /**
   * For every string and base: kstrtol accepts exactly the strings that spell a number which fits, and answers that
   * number.
   */
  lemma AcceptedIffSpelled(s: string, base: int, v: int)
    ensures Parse(s, base) == Parsed(v, true) <==> exists b: nat, x: Parts :: Spells(s, base, b, x, v)
    ensures !Parse(s, base).ok ==> Parse(s, base) == REJECTED
  {
    hide Parse, Spells;
    if Parse(s, base) == Parsed(v, true) {
      var b, x := PartsOf(s, base, v);
    }
    forall b: nat, x: Parts | Spells(s, base, b, x, v) ensures Parse(s, base) == Parsed(v, true) {
      SpelledIsAccepted(s, base, b, x, v);
    }
    RefusedIsZero(s, base);
  }

  lemma RefusedIsZero(s: string, base: int)
    ensures !Parse(s, base).ok ==> Parse(s, base) == REJECTED
  {
  }

  lemma PartsOf(s: string, base: int, v: int) returns (b: nat, x: Parts)
    requires Parse(s, base) == Parsed(v, true)
    ensures Spells(s, base, b, x, v)
  {
    hide ParseUnsigned, Signed, SpellsNumber, AllDigits, Value, Blanks, SignText, Factor;
    BodyOf(s);
    BlanksAre(s);
    var (sign, t) := Signed(s);
    var y;
    b, y := NumberPartsOf(t, base, sign, v);
    x := y.(blanks := s[..Blanks(s)], sign := SignText(s));
    SameNumber(t, base, b, y, x);
  }

  lemma SameNumber(t: string, base: int, b: nat, y: Parts, x: Parts)
    requires SpellsNumber(t, base, b, y) && x.prefix == y.prefix && x.digits == y.digits && x.rest == y.rest
    ensures SpellsNumber(t, base, b, x)
  {
  }

  lemma BlanksAre(s: string)
    ensures forall c <- s[..Blanks(s)] :: c in " \t"
  {
    hide Blanks;
  }

  lemma NumberPartsOf(t: string, base: int, sign: int, v: int) returns (b: nat, x: Parts)
    requires ParseUnsigned(t, base, sign) == Parsed(v, true)
    ensures SpellsNumber(t, base, b, x) && t == x.prefix + (x.digits + x.rest) && v == sign * Value(x.digits, b)
  {
    hide DetectBase, PrefixFits, Value, AllDigits, DigitRun;
    var (found, skipped) := DetectBase(t, base);
    PrefixOf(t, base);
    b := found;
    var u := t[skipped..];
    var run := DigitRun(u, b);
    x := Parts([], [], t[..skipped], u[..run], u[run..]);
    assert u == x.digits + x.rest;
    assert x.digits[0] == u[0];
    PrefixStays(base, b, x.prefix, u, x.digits);
  }

  lemma PrefixOf(t: string, base: int)
    ensures var (b, skipped) := DetectBase(t, base);
      skipped <= |t| && t == t[..skipped] + t[skipped..] && (b >= 0 ==> PrefixFits(base, b, t[..skipped], t[skipped..]))
  {
    var (b, skipped) := DetectBase(t, base);
    if skipped == 2 { assert t[..2] == [t[0], t[1]]; }
    if skipped == 1 { assert t[..1] == [t[0]]; }
    if skipped == 0 { assert t[0..] == t; }
  }

  lemma PrefixStays(base: int, b: nat, prefix: string, u: string, digits: string)
    requires PrefixFits(base, b, prefix, u) && u != [] && digits != [] && digits[0] == u[0]
    ensures PrefixFits(base, b, prefix, digits)
  {
  }

  /** The sign character, if any. */
  function SignText(s: string): string {
    var t := s[Blanks(s)..];
    if t != [] && (t[0] == '-' || t[0] == '+') then [t[0]] else []
  }

  lemma BodyOf(s: string)
    ensures s == s[..Blanks(s)] + (SignText(s) + Signed(s).1)
    ensures SignText(s) in {"", "-", "+"} && Signed(s).0 == Factor(SignText(s))
  {
    hide Blanks;
    var t := s[Blanks(s)..];
    Halves(s, Blanks(s));
    SignSplits(t);
    assert SignText(s) == if t != [] && (t[0] == '-' || t[0] == '+') then [t[0]] else [];
  }

  lemma Halves(s: string, n: nat)
    requires n <= |s|
    ensures s == s[..n] + s[n..]
  {
  }

  lemma SignSplits(t: string)
    ensures t != [] && (t[0] == '-' || t[0] == '+') ==> t == [t[0]] + t[1..] && [t[0]] in {"-", "+"}
    ensures t == [] + t
  {
  }

  lemma SpelledIsAccepted(s: string, base: int, b: nat, x: Parts, v: int)
    requires Spells(s, base, b, x, v)
    ensures Parse(s, base) == Parsed(v, true)
  {
    var t := x.prefix + (x.digits + x.rest);
    NumberStarts(t, base, b, x);
    SignIs(s, x.blanks, x.sign, t);
    NumberIsRead(t, base, b, x, Factor(x.sign));
    hide ParseUnsigned, Signed, SpellsNumber;
  }

  lemma NumberStarts(t: string, base: int, b: nat, x: Parts)
    requires SpellsNumber(t, base, b, x)
    ensures t != [] && !Blank(t[0]) && t[0] != '-' && t[0] != '+'
  {
    DigitsStart(x.digits[0], b);
    assert (x.digits + x.rest)[0] == x.digits[0];
    assert t[0] == if x.prefix == [] then x.digits[0] else x.prefix[0];
  }

  lemma SignIs(s: string, blanks: string, sign: string, t: string)
    requires s == blanks + (sign + t) && (forall c <- blanks :: Blank(c)) && sign in {"", "-", "+"}
    requires t != [] && !Blank(t[0]) && t[0] != '-' && t[0] != '+'
    ensures Signed(s) == (Factor(sign), t)
  {
    var u := sign + t;
    assert sign != [] ==> u[0] == sign[0] && u[1..] == t;
    assert sign == [] ==> u == t;
    SkippedBlanks(blanks, u);
    assert s[|blanks|..] == u;
  }

  lemma NumberIsRead(t: string, base: int, b: nat, x: Parts, sign: int)
    requires SpellsNumber(t, base, b, x)
    ensures ParseUnsigned(t, base, sign) == Parsed(sign * Value(x.digits, b), true)
  {
    Detected(base, b, x, t);
    RunIs(x.digits, x.rest, b);
    assert (x.digits + x.rest)[..|x.digits|] == x.digits;
    hide DetectBase, PrefixFits, DigitRun;
  }

  lemma DigitsStart(c: char, b: nat)
    requires b <= 16 && IsDigit(c, b)
    ensures !Blank(c) && c != '-' && c != '+' && c != 'x' && c != 'X'
  {
  }

  lemma Detected(base: int, b: nat, x: Parts, t: string)
    requires t == x.prefix + (x.digits + x.rest) && PrefixFits(base, b, x.prefix, x.digits)
    requires 2 <= b <= 16 && x.digits != [] && AllDigits(x.digits, b)
    ensures DetectBase(t, base) == (b, |x.prefix|) && t[|x.prefix|..] == x.digits + x.rest
  {
    DigitsStart(x.digits[0], b);
    assert t[|x.prefix|] == x.digits[0];
    if base == 0 && x.prefix != [] { assert t[0] == x.prefix[0] && (|x.prefix| == 2 ==> t[1] == x.prefix[1]); }
  }

  lemma {:induction false} SkippedBlanks(blanks: string, t: string)
    requires (forall c <- blanks :: Blank(c)) && t != [] && !Blank(t[0])
    ensures Blanks(blanks + t) == |blanks|
  {
    if blanks == [] {
      assert blanks + t == t;
    } else {
      assert (blanks + t)[1..] == blanks[1..] + t;
      SkippedBlanks(blanks[1..], t);
    }
  }

  lemma {:induction false} RunIs(digits: string, rest: string, b: nat)
    requires AllDigits(digits, b) && (rest == [] || !IsDigit(rest[0], b))
    ensures DigitRun(digits + rest, b) == |digits|
  {
    if digits == [] {
      assert digits + rest == rest;
    } else {
      assert (digits + rest)[1..] == digits[1..] + rest;
      RunIs(digits[1..], rest, b);
    }
  }

  // ---- Against the C standard ----

  const LONG_MIN := -LONG_MAX - 1

  /** "0x" or "0X" and a hexadecimal digit. */
  predicate HexForm(t: string) {
    At(t, 0) == '0' && (At(t, 1) == 'x' || At(t, 1) == 'X') && |t| > 2 && IsDigit(t[2], 16)
  }

  /**
   * Where strtol of ISO C (section 7.22.1.4) takes its digits from, behind blanks and sign, and their base: in bases 0 and 16
   * behind a hexadecimal prefix, otherwise at once, so that a leading 0 is itself a digit.
   */
  function StandardText(t: string, base: nat): (string, nat) {
    if (base == 0 || base == 16) && HexForm(t) then (t[2..], 16)
    else if base == 0 then (t, if At(t, 0) == '0' then 8 else 10)
    else (t, base)
  }

  function StandardRun(t: string, base: nat): (string, nat) {
    var (u, b) := StandardText(t, base);
    (u[..DigitRun(u, b)], b)
  }

  /**
   * What strtol answers: the value of the run as a 64-bit long; the nearest one, and a range error, when it does not
   * fit.
   */
  function Standard(t: string, base: nat, sign: int): Parsed
    requires base == 0 || 2 <= base <= 16
  {
    var (run, b) := StandardRun(t, base);
    if run == [] then REJECTED else InLong(sign * Value(run, b))
  }

  function InLong(v: int): Parsed {
    if v > LONG_MAX then Parsed(LONG_MAX, false) else if v < LONG_MIN then Parsed(LONG_MIN, false) else Parsed(v, true)
  }

  /** Both accept, with one value, or neither does. */
  predicate Agree(p: Parsed, q: Parsed) { p.ok == q.ok && (p.ok ==> p.value == q.value) }

  /** A leading 0 with neither an octal digit nor a hexadecimal constant behind it. */
  predicate LoneZero(t: string) {
    At(t, 0) == '0' && !HexForm(t) && (|t| == 1 || !IsDigit(t[1], 8))
  }

  /** The least 64-bit value. */
  predicate IsLeast(t: string, base: nat, sign: int)
    requires base == 0 || 2 <= base <= 16
  {
    Standard(t, base, sign) == Parsed(LONG_MIN, true)
  }

  /** A hexadecimal prefix where the base says 16 already, in front of a number other than 0. */
  predicate PrefixedHex(t: string, base: nat) {
    base == 16 && HexForm(t) && Value(StandardRun(t, base).0, 16) != 0
  }

  /**
   * In each base kstrtol accepts what the standard accepts, with the same value, exactly outside three cases: in base 0 a lone
   * zero, which it takes for a prefix without digits; the least value, which its range test refuses; and in base 16 a prefixed
   * number, of which it reads the 0 in front of the x.
   */
  lemma MeetsStandardIff(s: string, base: nat)
    requires base == 0 || 2 <= base <= 16
    ensures var (sign, t) := Signed(s);
      Agree(Parse(s, base), Standard(t, base, sign)) <==>
      !(base == 0 && LoneZero(t)) && !IsLeast(t, base, sign) && !PrefixedHex(t, base)
    ensures var (sign, t) := Signed(s);
      && (base == 0 && LoneZero(t) ==> Parse(s, base) == REJECTED && Standard(t, base, sign) == Parsed(0, true))
      && (PrefixedHex(t, base) ==> Parse(s, base) == Parsed(0, true))
      && (IsLeast(t, base, sign) && !PrefixedHex(t, base) ==> Parse(s, base) == REJECTED)
  {
    var (sign, t) := Signed(s);
    var (u, b) := StandardText(t, base);
    RangeIff(u, b, sign);
    if base == 0 {
      BaseZeroRun(t, sign);
      if LoneZero(t) { LonelyZero(t, sign); }
    } else {
      assert t[0..] == t;
      if base == 16 && HexForm(t) {
        NotADigit(t[1]);
        ZeroThenRest(t, 16, sign);
        FirstDigit(u, 16);
      }
    }
    hide Parse, Signed;
  }

  lemma NotADigit(c: char)
    requires c == 'x' || c == 'X'
    ensures !IsDigit(c, 16)
  {
  }

  lemma FirstDigit(u: string, b: nat)
    requires u != [] && IsDigit(u[0], b)
    ensures u[..DigitRun(u, b)] != []
  {
  }

  /** On one digit run the two range tests differ in the least value only. */
  lemma RangeIff(u: string, b: nat, sign: int)
    requires 2 <= b <= 16 && (sign == 1 || sign == -1)
    ensures var run := u[..DigitRun(u, b)]; var q := if run == [] then REJECTED else InLong(sign * Value(run, b));
      && (Agree(ParseDigits(u, b, sign), q) <==> q != Parsed(LONG_MIN, true))
      && (q == Parsed(LONG_MIN, true) ==> ParseDigits(u, b, sign) == REJECTED)
  {
  }

  /** What base detection makes of the run: nothing is lost, unless a zero stands alone. */
  lemma BaseZeroRun(t: string, sign: int)
    ensures var (u, b) := StandardText(t, 0);
      ParseUnsigned(t, 0, sign) == if LoneZero(t) then REJECTED else ParseDigits(u, b, sign)
  {
    assert t[0..] == t;
    if At(t, 0) == '0' && !HexForm(t) {
      var u := t[1..];
      assert t == ['0'] + u;
      if At(t, 1) == 'x' || At(t, 1) == 'X' {
        assert t[2..] == u[1..] && u[0] == t[1];
        NoRun(t[2..], 16);
        NotADigit(t[1]);
      } else if |t| == 1 || !IsDigit(t[1], 8) {
        NoRun(u, 8);
      } else {
        LeadingZero(u, sign);
      }
    }
  }

  lemma NoRun(u: string, b: nat)
    requires u == [] || !IsDigit(u[0], b)
    ensures forall sign :: ParseDigits(u, b, sign) == REJECTED
  {
    assert u[..0] == [];
  }

  /** An octal run starts with its 0, which adds nothing to its value. */
  lemma LeadingZero(u: string, sign: int)
    requires u != [] && IsDigit(u[0], 8)
    ensures ParseDigits(['0'] + u, 8, sign) == ParseDigits(u, 8, sign)
  {
    var t := ['0'] + u;
    assert t[1..] == u && IsDigit('0', 8);
    var n := DigitRun(u, 8);
    assert t[..n + 1] == seq(1, _ => '0') + u[..n];
    ValueOfZeros(1, u[..n], 8);
  }

  lemma LonelyZero(t: string, sign: int)
    requires LoneZero(t)
    ensures ParseDigits(t, 8, sign) == Parsed(0, true) && t != []
  {
    ZeroThenRest(t, 8, sign);
  }

  lemma ZeroThenRest(t: string, b: nat, sign: int)
    requires t != [] && t[0] == '0' && 2 <= b <= 16 && (|t| == 1 || !IsDigit(t[1], b))
    ensures ParseDigits(t, b, sign) == Parsed(0, true)
  {
    assert t == "0" + t[1..];
    RunIs("0", t[1..], b);
    assert t[..1] == "0" && "0"[..0] == [];
    assert Value("0", b) == 0;
  }

  /** Examples: "0" is refused in base 0 and read in base 10, the least value is refused in both. */
  lemma ZeroIsRefused()
    ensures Parse("0", 0) == REJECTED && Parse("0", 10) == Parsed(0, true)
  {
    hide DigitRun, Value, ParseDigits, Blanks, AllDigits;
    var s := "0";
    assert s[0..] == s;
    PlainStart([], s, 1);
    assert [] + s == s;
    BaseZeroRun(s, 1);
    ZeroThenRest(s, 10, 1);
  }

  lemma PlainStart(minus: string, t: string, sign: int)
    requires (minus == "-" && sign == -1) || (minus == [] && sign == 1)
    requires t != [] && !Blank(t[0]) && t[0] != '-' && t[0] != '+'
    ensures Signed(minus + t) == (sign, t)
  {
    var s := minus + t;
    assert s[0..] == s && (minus == [] ==> s == t) && (minus != [] ==> s[0] == '-' && s[1..] == t);
  }

  lemma EightAndZeros(n: nat)
    ensures AllDigits("8" + seq(n, _ => '0'), 16) && Value("8" + seq(n, _ => '0'), 16) == 8 * Pow2(4 * n)
  {
    if n == 0 {
      assert "8" + seq(0, _ => '0') == "8" && "8"[..0] == [] && Pow2(0) == 1;
    } else {
      EightAndZeros(n - 1);
      ValueOfAppend("8" + seq(n - 1, _ => '0'), '0', 16);
      assert "8" + seq(n - 1, _ => '0') + ['0'] == "8" + seq(n, _ => '0');
      Pow2Sum(4 * n - 4, 4);
      assert Pow2(2) == 4 && Pow2(4) == 16;
    }
  }

  lemma EightZeros(digits: string)
    requires digits == "8000000000000000"
    ensures AllDigits(digits, 16) && Value(digits, 16) == LONG_MAX + 1
  {
    EightAndZeros(15);
    assert digits == "8" + seq(15, _ => '0');
    Pow2Of64();
    Pow2Sum(60, 4);
    assert Pow2(2) == 4 && Pow2(4) == 16;
  }

  /** Example: the least value is refused, in base 10 and in base 0, where the standard reads it. */
  lemma LeastIsRefused()
    ensures var s := "-0x8000000000000000"; var (sign, t) := Signed(s);
      Parse(s, 0) == REJECTED && Standard(t, 0, sign) == Parsed(LONG_MIN, true)
  {
    hide DigitRun, Value, ParseDigits, Blanks, AllDigits, Parse;
    var s, t, digits := "-0x8000000000000000", "0x8000000000000000", "8000000000000000";
    assert s == "-" + t && t[2..] == digits;
    PlainStart("-", t, -1);
    EightZeros(digits);
    RunIs(digits, [], 16);
    assert digits + [] == digits && digits[..16] == digits;
    assert HexForm(t) && StandardRun(t, 0) == (digits, 16);
    MeetsStandardIff(s, 0);
  }
}
