/**
 * Display and parsing of on-chain integer amounts.
 *
 * The decimal library is modelled by its exact results: a value is a coefficient over a power of
 * ten, and a division keeps 20 decimal places, rounding half up, as the library does by default.
 */
module Amounts {
  import opened Options
  import opened Decimal
  import opened Sequences

  const DIVISION_PLACES: nat := 20
  const MAX_EXPONENT: nat := 1_000_000

  // ---------------------------------------------------------------------------------------------
  // Exact decimals
  // ---------------------------------------------------------------------------------------------

  /** The non-negative number `coef / 10^scale`. */
  datatype Big = Big(coef: nat, scale: nat)

  /** `coef / 10^scale` in units of `10^-places`, rounded half up. */
  function HalfUp(coef: nat, scale: nat, places: nat): nat {
    if scale <= places then coef * Pow10(places - scale)
    else Quot(coef + Pow10(scale - places) / 2, Pow10(scale - places))
  }

  function DivPow10(b: Big, k: nat): Big {
    var scale := b.scale + k;
    if scale <= DIVISION_PLACES then Big(b.coef, scale)
    else Big(HalfUp(b.coef, scale, DIVISION_PLACES), DIVISION_PLACES)
  }

  predicate AtLeast(b: Big, whole: nat) { whole * Pow10(b.scale) <= b.coef }

  function WholePart(units: nat, places: nat): nat { Quot(units, Pow10(places)) }

  /** The `places` fraction digits of a number of `10^-places` units. */
  function FractionText(units: nat, places: nat): (f: string)
    ensures |f| == places && AllDigits(f) && Value(f) == Rem(units, Pow10(places))
  {
    Padded(Rem(units, Pow10(places)), places)
  }

  /** Digits, and the fraction behind a point if there is one. */
  function Plain(whole: string, frac: string): string { if frac == "" then whole else whole + "." + frac }

  /** A number of `10^-places` units written with exactly `places` fraction digits. */
  function FixedText(units: nat, places: nat): string {
    Plain(Digits(WholePart(units, places)), FractionText(units, places))
  }

  function ToFixed(b: Big, places: nat): string { FixedText(HalfUp(b.coef, b.scale, places), places) }

  // ---------------------------------------------------------------------------------------------
  // Text helpers
  // ---------------------------------------------------------------------------------------------

  predicate IsSpace(c: char) {
    || '\t' <= c <= '\r' || c == ' ' || c == '\U{00A0}' || c == '\U{1680}' || '\U{2000}' <= c <= '\U{200A}'
    || c == '\U{2028}' || c == '\U{2029}' || c == '\U{202F}' || c == '\U{205F}' || c == '\U{3000}' || c == '\U{FEFF}'
  }

  function Trim(s: string): string {
    if s == "" then s
    else if IsSpace(s[0]) then Trim(s[1..])
    else if IsSpace(s[|s| - 1]) then Trim(s[..|s| - 1])
    else s
  }

  function Without(s: string, c: char): string {
    if s == "" then "" else (if s[0] == c then "" else [s[0]]) + Without(s[1..], c)
  }

  function DropTrailingZeros(s: string): (t: string)
    ensures t <= s && (t == "" || t[|t| - 1] != '0')
    ensures forall i :: |t| <= i < |s| ==> s[i] == '0'
  {
    if s != "" && s[|s| - 1] == '0' then DropTrailingZeros(s[..|s| - 1]) else s
  }

  function PadEnd(s: string, width: int): (t: string)
    ensures s <= t && (|t| == width || (t == s && width <= |s|))
    ensures forall i :: |s| <= i < |t| ==> t[i] == '0'
  {
    if |s| < width then s + Zeros(width - |s|) else s
  }

  // ---------------------------------------------------------------------------------------------
  // Printing
  // ---------------------------------------------------------------------------------------------

  predicate CommaDecimal(locale: string) { "de" <= locale || "fr" <= locale || "es" <= locale }

  /** A separator before every third digit counted from the right. */
  function Group(digits: string, sep: char): string {
    if |digits| <= 3 then digits else Group(digits[..|digits| - 3], sep) + [sep] + digits[|digits| - 3..]
  }

  function GroupInteger(intPart: string, locale: string): string {
    var sep := if CommaDecimal(locale) then '.' else ',';
    if intPart != "" && intPart[0] == '-' then "-" + Group(intPart[1..], sep) else Group(intPart, sep)
  }

  /** The fraction digits shown: trailing zeros dropped if asked, then padded to the minimum. */
  function Fraction(frac: string, trim: bool, minDigits: int): string {
    PadEnd(if trim then DropTrailingZeros(frac) else frac, minDigits)
  }

  function FormatNumber(value: string, locale: string, trim: bool, minDigits: int): string {
    var dot := IndexOf(value, '.');
    var frac := Fraction(if dot == |value| then "" else value[dot + 1..], trim, minDigits);
    var grouped := GroupInteger(value[..dot], locale);
    if frac == "" then grouped else grouped + (if CommaDecimal(locale) then "," else ".") + frac
  }

  lemma PaddedSo(start: string, frac: string, width: int)
    requires start <= frac && forall i :: |start| <= i < |frac| ==> frac[i] == '0'
    requires |frac| == width || (frac == start && width <= |frac|)
    ensures frac == PadEnd(start, width)
  {
  }

  /** `formatNumberString`: pads the fraction one zero at a time. */
  method FormatNumberString(value: string, locale: string, trim: bool, minDigits: int) returns (text: string)
    ensures text == FormatNumber(value, locale, trim, minDigits)
  {
    var dot := IndexOf(value, '.');
    var fracPart := if dot == |value| then "" else value[dot + 1..];
    var frac := fracPart;
    if trim {
      frac := DropTrailingZeros(frac);
    }
    ghost var start := frac;
    hide GroupInteger, CommaDecimal, DropTrailingZeros, IndexOf, PadEnd;
    while |frac| < minDigits
      invariant start <= frac && forall i :: |start| <= i < |frac| ==> frac[i] == '0'
      invariant |frac| <= minDigits || frac == start
    {
      frac := frac + "0";
    }
    PaddedSo(start, frac, minDigits);
    var grouped := GroupInteger(value[..dot], locale);
    if frac == "" {
      return grouped;
    }
    text := grouped + (if CommaDecimal(locale) then "," else ".") + frac;
  }

  datatype DisplayOptions = DisplayOptions(trim: bool, compact: bool, locale: string, minDigits: int,
                                           maxDigits: Option<int>)

  datatype Unit = Unit(exponent: nat, suffix: char)

  const UNITS: seq<Unit> := [Unit(12, 'T'), Unit(9, 'B'), Unit(6, 'M'), Unit(3, 'K')]

  /** Position in `UNITS` of the largest unit the value reaches; past the end if none. */
  function UnitIndex(b: Big, i: nat): (k: nat)
    requires i <= |UNITS|
    ensures i <= k <= |UNITS|
    decreases |UNITS| - i
  {
    if i == |UNITS| || AtLeast(b, Pow10(UNITS[i].exponent)) then i else UnitIndex(b, i + 1)
  }

  /** Fraction digits shown after scaling to a unit. */
  function CompactPlaces(scaled: Big): nat {
    if AtLeast(scaled, 100) then 0 else if AtLeast(scaled, 10) then 1 else 2
  }

  /** The integer a raw amount text denotes. */
  function ParseRaw(raw: string): Option<int> {
    var s := Trim(raw);
    var unsigned := if s != "" && s[0] == '-' then s[1..] else s;
    if unsigned == "" || !AllDigits(unsigned) then None
    else Some(if unsigned == s then Value(s) else 0 - Value(unsigned))
  }

  function Magnitude(n: int): nat { if n < 0 then 0 - n else n }

  function Signed(negative: bool, text: string): string { if negative then "-" + text else text }

  function CompactText(abs: Big, unit: Unit, locale: string, trim: bool): string {
    var scaled := DivPow10(abs, unit.exponent);
    FormatNumber(ToFixed(scaled, CompactPlaces(scaled)), locale, trim, 0) + [unit.suffix]
  }

  function ToDisplay(raw: string, decimals: int, opts: DisplayOptions): Result<string> {
    if decimals < 0 then Err("Invalid decimals") else
    match ParseRaw(raw)
    case None => Err("Invalid raw amount")
    case Some(n) =>
      if MAX_EXPONENT < decimals then Err("Invalid exponent") else
      var abs := DivPow10(Big(Magnitude(n), 0), decimals);
      var negative := n < 0 && abs.coef > 0;
      var k := if opts.compact then UnitIndex(abs, 0) else |UNITS|;
      if k < |UNITS| then Ok(Signed(negative, CompactText(abs, UNITS[k], opts.locale, opts.trim))) else
      var places := if opts.maxDigits.Some? then opts.maxDigits.value else decimals;
      if places < 0 || MAX_EXPONENT < places then Err("Invalid decimal places")
      else Ok(Signed(negative, FormatNumber(ToFixed(abs, places), opts.locale, opts.trim, opts.minDigits)))
  }

  /** `toDisplay`: tries the compact units from the largest down. */
  method Display(raw: string, decimals: int, opts: DisplayOptions) returns (r: Result<string>)
    ensures r == ToDisplay(raw, decimals, opts)
  {
    hide FormatNumber, FixedText, HalfUp, DivPow10, ParseRaw, CompactPlaces, AtLeast, Pow10;
    if decimals < 0 {
      return Err("Invalid decimals");
    }
    var n := ParseRaw(raw);
    if n.None? {
      return Err("Invalid raw amount");
    }
    if MAX_EXPONENT < decimals {
      return Err("Invalid exponent");
    }
    var abs := DivPow10(Big(Magnitude(n.value), 0), decimals);
    var negative := n.value < 0 && abs.coef > 0;
    if opts.compact {
      for i := 0 to |UNITS|
        invariant UnitIndex(abs, 0) == UnitIndex(abs, i)
      {
        if AtLeast(abs, Pow10(UNITS[i].exponent)) {
          var scaled := DivPow10(abs, UNITS[i].exponent);
          var rounded := ToFixed(scaled, CompactPlaces(scaled));
          var formatted := FormatNumberString(rounded, opts.locale, opts.trim, 0);
          return Ok(Signed(negative, formatted + [UNITS[i].suffix]));
        }
      }
    }
    var places := if opts.maxDigits.Some? then opts.maxDigits.value else decimals;
    if places < 0 || MAX_EXPONENT < places {
      return Err("Invalid decimal places");
    }
    var formatted := FormatNumberString(ToFixed(abs, places), opts.locale, opts.trim, opts.minDigits);
    return Ok(Signed(negative, formatted));
  }

  // ---------------------------------------------------------------------------------------------
  // Parsing
  // ---------------------------------------------------------------------------------------------

  function Unsigned(s: string): string { if s != "" && s[0] == '-' then s[1..] else s }

  function IntPart(u: string): string { u[..IndexOf(u, '.')] }

  function FracPart(u: string): string {
    var dot := IndexOf(u, '.');
    if dot == |u| then "" else u[dot + 1..]
  }

  /** An optional minus, digits, and optionally a point and more digits; at least one digit in all. */
  predicate AmountShape(s: string) {
    var u := Unsigned(s);
    AllDigits(IntPart(u)) && AllDigits(FracPart(u)) && (IntPart(u) != "" || FracPart(u) != "")
  }

  function OrZero(digits: string): (w: string)
    requires AllDigits(digits)
    ensures AllDigits(w) && Value(w) == Value(digits)
  {
    if digits == "" then Zeros(1) else digits
  }

  function ToRaw(input: string, decimals: int): Result<string> {
    if decimals < 0 then Err("Invalid decimals") else
    var s := Trim(input);
    if s == "" then Err("Amount is required")
    else if !AmountShape(s) then Err("Invalid amount") else
    var u := Unsigned(s);
    var frac := FracPart(u);
    if |frac| > decimals then Err("Too many decimals") else
    var padded := PadEnd(frac, decimals);
    PadEndDigits(frac, decimals);
    var n := Value(OrZero(IntPart(u)) + padded);
    Ok(Signed(s[0] == '-' && n > 0, Digits(n)))
  }

  lemma PadEndDigits(s: string, width: int)
    requires AllDigits(s)
    ensures AllDigits(PadEnd(s, width))
    ensures Value(PadEnd(s, width)) == Value(s) * Pow10(|PadEnd(s, width)| - |s|)
  {
    if |s| < width {
      ValueConcat(s, Zeros(width - |s|));
    }
  }

  function IntText(n: int): string { Signed(n < 0, Digits(Magnitude(n))) }

  // ---------------------------------------------------------------------------------------------
  // Parsing is exact
  // ---------------------------------------------------------------------------------------------

  /** The magnitude `toRaw` computes: the digits before and after the point, scaled. */
  function ScaledValue(u: string, decimals: nat): nat
    requires AllDigits(IntPart(u)) && AllDigits(FracPart(u)) && |FracPart(u)| <= decimals
  {
    Value(IntPart(u)) * Pow10(decimals) + Value(FracPart(u)) * Pow10(decimals - |FracPart(u)|)
  }

  lemma CombinedValue(i: string, f: string, decimals: nat)
    requires AllDigits(i) && AllDigits(f) && |f| <= decimals
    ensures AllDigits(OrZero(i) + PadEnd(f, decimals))
    ensures Value(OrZero(i) + PadEnd(f, decimals)) == Value(i) * Pow10(decimals) + Value(f) * Pow10(decimals - |f|)
  {
    PadEndDigits(f, decimals);
    ValueConcat(OrZero(i), PadEnd(f, decimals));
  }

  lemma SignText(negative: bool, m: nat)
    ensures Signed(negative && m > 0, Digits(m)) == IntText(if negative then 0 - m else m)
  {
  }

  /** The result of an accepted input, by its scaled value. */
  lemma AcceptedValue(input: string, decimals: nat)
    requires AmountShape(Trim(input)) && |FracPart(Unsigned(Trim(input)))| <= decimals
    ensures var s := Trim(input);
            var n := ScaledValue(Unsigned(s), decimals);
            ToRaw(input, decimals) == Ok(Signed(s[0] == '-' && n > 0, Digits(n)))
  {
    var u := Unsigned(Trim(input));
    CombinedValue(IntPart(u), FracPart(u), decimals);
    assert ScaledValue(u, decimals) == Value(OrZero(IntPart(u)) + PadEnd(FracPart(u), decimals));
    hide ScaledValue, IndexOf, Trim, Value, Digits, Pow10, PadEnd, OrZero;
  }

  /**
   * What `toRaw` accepts and what it returns: an input is accepted exactly when it has the shape of
   * an amount with at most `decimals` fraction digits, and the result is the canonical text, without
   * leading zeros or negative zero, of the exact scaled integer.
   */
  lemma ToRawIsExact(input: string, decimals: int)
    ensures ToRaw(input, decimals).Ok? <==> Readable(Trim(input), decimals)
    ensures Readable(Trim(input), decimals) ==>
              ToRaw(input, decimals) == Ok(IntText(SignedScaledValue(Trim(input), decimals)))
  {
    hide ToRaw, ScaledValue, Digits, IntText, Trim, Unsigned, IntPart, FracPart, Value;
    AcceptedIff(input, decimals);
    if Readable(Trim(input), decimals) {
      NotEmptyShape(Trim(input));
      AcceptedValue(input, decimals);
      SignText(Trim(input)[0] == '-', ScaledValue(Unsigned(Trim(input)), decimals));
    }
  }

  lemma AcceptedIff(input: string, decimals: int)
    ensures ToRaw(input, decimals).Ok? <==> Readable(Trim(input), decimals)
  {
    hide Trim, IndexOf, Value, Digits;
  }

  lemma NotEmptyShape(s: string)
    requires AmountShape(s)
    ensures s != ""
  {
  }

  predicate Readable(s: string, decimals: int) {
    decimals >= 0 && AmountShape(s) && |FracPart(Unsigned(s))| <= decimals
  }

  function SignedScaledValue(s: string, decimals: nat): int
    requires Readable(s, decimals)
  {
    var m := ScaledValue(Unsigned(s), decimals);
    if s[0] == '-' then 0 - m else m
  }

  // ---------------------------------------------------------------------------------------------
  // Reading a formatted number back
  // ---------------------------------------------------------------------------------------------

  lemma {:induction false} WithoutConcat(a: string, b: string, c: char)
    ensures Without(a + b, c) == Without(a, c) + Without(b, c)
  {
    if a == "" {
      assert a + b == b;
    } else {
      WithoutConcat(a[1..], b, c);
      assert (a + b)[1..] == a[1..] + b && (a + b)[0] == a[0];
      Associates(if a[0] == c then "" else [a[0]], Without(a[1..], c), Without(b, c));
    }
  }

  lemma {:induction false} WithoutAbsent(s: string, c: char)
    requires c !in s
    ensures Without(s, c) == s
  {
    if s != "" {
      WithoutAbsent(s[1..], c);
    }
  }

  /** Grouping only inserts separators. */
  lemma {:induction false} GroupIsInverse(digits: string, sep: char)
    requires AllDigits(digits) && !IsDigit(sep)
    ensures Without(Group(digits, sep), sep) == digits
  {
    hide Without;
    if |digits| <= 3 {
      WithoutAbsent(digits, sep);
    } else {
      var n := |digits| - 3;
      GroupIsInverse(digits[..n], sep);
      var front := Group(digits[..n], sep);
      hide Group;
      WithoutSeparator(front, digits[n..], sep);
      assert digits[..n] + digits[n..] == digits;
    }
  }

  lemma WithoutSeparator(a: string, b: string, sep: char)
    requires sep !in b
    ensures Without(a + [sep] + b, sep) == Without(a, sep) + b
  {
    assert Without([sep], sep) == "";
    hide Without;
    WithoutConcat(a + [sep], b, sep);
    WithoutConcat(a, [sep], sep);
    WithoutAbsent(b, sep);
  }

  /** Padding to a width is the same before and after trailing zeros are dropped and a minimum is kept. */
  lemma FractionPads(frac: string, trim: bool, minDigits: int, width: nat)
    requires AllDigits(frac) && |frac| <= width && minDigits <= width
    ensures AllDigits(Fraction(frac, trim, minDigits))
    ensures |Fraction(frac, trim, minDigits)| <= width
    ensures PadEnd(Fraction(frac, trim, minDigits), width) == PadEnd(frac, width)
  {
    hide DropTrailingZeros, PadEnd;
    var t := if trim then DropTrailingZeros(frac) else frac;
    var f := PadEnd(t, minDigits);
    SameWhenPadded(frac, t, f, PadEnd(f, width), PadEnd(frac, width));
  }

  /** Texts that agree up to trailing zeros agree once padded to one width. */
  lemma SameWhenPadded(frac: string, t: string, f: string, a: string, b: string)
    requires t <= frac && (forall i :: |t| <= i < |frac| ==> frac[i] == '0')
    requires t <= f && (forall i :: |t| <= i < |f| ==> f[i] == '0')
    requires f <= a && (forall i :: |f| <= i < |a| ==> a[i] == '0')
    requires frac <= b && (forall i :: |frac| <= i < |b| ==> b[i] == '0')
    requires |a| == |b|
    ensures a == b
  {
    forall i | 0 <= i < |a| ensures a[i] == b[i] {
      if i < |t| {
        assert a[i] == f[i] == t[i] == frac[i] == b[i];
      } else {
        assert a[i] == if i < |f| then f[i] else '0';
        assert b[i] == if i < |frac| then frac[i] else '0';
      }
    }
  }

  lemma TrimNoop(s: string)
    requires s != "" && !IsSpace(s[0]) && !IsSpace(s[|s| - 1])
    ensures Trim(s) == s
  {
  }

  lemma PlainParts(whole: string, frac: string)
    requires Canonical(whole) && AllDigits(frac)
    ensures IntPart(Plain(whole, frac)) == whole && FracPart(Plain(whole, frac)) == frac
  {
    var u := Plain(whole, frac);
    assert forall i :: 0 <= i < |whole| ==> u[i] == whole[i] && IsDigit(whole[i]);
    if frac == "" {
      assert IndexOf(u, '.') == |whole|;
    } else {
      assert u[|whole|] == '.';
      assert IndexOf(u, '.') == |whole|;
      assert u[|whole| + 1..] == frac;
    }
    assert u[..|whole|] == whole;
  }

  /** `toRaw` on a plain signed number with few enough fraction digits, and with too many. */
  lemma ReadPlain(negative: bool, whole: string, frac: string, decimals: nat, n: nat)
    requires Canonical(whole) && AllDigits(frac) && |frac| <= decimals && AllDigits(PadEnd(frac, decimals))
    requires n == Scale(Value(whole), decimals) + Value(PadEnd(frac, decimals))
    ensures ToRaw(Signed(negative, Plain(whole, frac)), decimals) == Ok(Signed(negative && n > 0, Digits(n)))
  {
    hide Trim, AmountShape, Unsigned, IntPart, FracPart, Plain, Digits, Signed, PadEnd, Value, Pow10;
    SignedShape(negative, whole, frac);
    ValueConcat(whole, PadEnd(frac, decimals));
  }

  lemma ReadTooLong(negative: bool, whole: string, frac: string, decimals: nat)
    requires Canonical(whole) && AllDigits(frac) && |frac| > decimals
    ensures ToRaw(Signed(negative, Plain(whole, frac)), decimals).Err?
  {
    hide Trim, AmountShape, Unsigned, IntPart, FracPart, Plain, Digits, Signed, PadEnd, Value, Pow10;
    SignedShape(negative, whole, frac);
  }

  lemma SignedShape(negative: bool, whole: string, frac: string)
    requires Canonical(whole) && AllDigits(frac)
    ensures var s := Signed(negative, Plain(whole, frac));
            && s != "" && Trim(s) == s && AmountShape(s) && (s[0] == '-' <==> negative)
            && IntPart(Unsigned(s)) == whole && FracPart(Unsigned(s)) == frac
  {
    var u := Plain(whole, frac);
    PlainParts(whole, frac);
    assert u[0] == whole[0] && IsDigit(whole[0]);
    assert IsDigit(u[|u| - 1]);
    TrimNoop(Signed(negative, u));
  }

  /** The en-US rendering without its commas is the plain number. */
  lemma FormatIsPlain(units: nat, places: nat, trim: bool, minDigits: int)
    ensures Without(FormatNumber(FixedText(units, places), "en-US", trim, minDigits), ',')
         == Plain(Digits(WholePart(units, places)), Fraction(FractionText(units, places), trim, minDigits))
    ensures AllDigits(Fraction(FractionText(units, places), trim, minDigits))
  {
    FormatOfParts(FixedText(units, places), Digits(WholePart(units, places)), FractionText(units, places), trim,
      minDigits);
  }

  lemma FormatOfParts(value: string, whole: string, frac: string, trim: bool, minDigits: int)
    requires Canonical(whole) && AllDigits(frac) && value == Plain(whole, frac)
    ensures Without(FormatNumber(value, "en-US", trim, minDigits), ',') == Plain(whole, Fraction(frac, trim, minDigits))
    ensures AllDigits(Fraction(frac, trim, minDigits))
  {
    FixedParts(whole, frac, value);
    FractionDigits(frac, trim, minDigits);
    UngroupedNumber(whole, Fraction(frac, trim, minDigits));
  }

  lemma EnglishSeparators()
    ensures !CommaDecimal("en-US")
  {
    assert "en-US"[0] == 'e' && "en-US"[1] == 'n';
    assert "de"[0] == 'd' && "fr"[0] == 'f' && "es"[1] == 's';
  }

  lemma FractionDigits(frac: string, trim: bool, minDigits: int)
    requires AllDigits(frac)
    ensures AllDigits(Fraction(frac, trim, minDigits))
  {
  }

  lemma UngroupedNumber(whole: string, f: string)
    requires Canonical(whole) && AllDigits(f)
    ensures GroupInteger(whole, "en-US") == Group(whole, ',') && !CommaDecimal("en-US")
    ensures Without(if f == "" then Group(whole, ',') else Group(whole, ',') + "." + f, ',') == Plain(whole, f)
  {
    EnglishSeparators();
    assert IsDigit(whole[0]);
    GroupIsInverse(whole, ',');
    WithoutAbsent(f, ',');
    WithoutConcat(Group(whole, ',') + ".", f, ',');
    WithoutConcat(Group(whole, ','), ".", ',');
    assert Without(".", ',') == ".";
  }

  lemma FixedParts(whole: string, frac: string, value: string)
    requires Canonical(whole) && AllDigits(frac) && value == Plain(whole, frac)
    ensures var dot := IndexOf(value, '.');
            value[..dot] == whole && (if dot == |value| then "" else value[dot + 1..]) == frac
  {
    PlainParts(whole, frac);
  }

  /** Padding a `places`-digit fraction to `decimals` digits multiplies it by a power of ten. */
  lemma UnitsScale(units: nat, places: nat, decimals: nat)
    requires places <= decimals
    ensures AllDigits(PadEnd(FractionText(units, places), decimals))
    ensures Scale(WholePart(units, places), decimals) + Value(PadEnd(FractionText(units, places), decimals))
         == Scale(units, decimals - places)
  {
    hide Pow10, Value, PadEnd, Quot, Rem, FractionText, Scale;
    PadEndDigits(FractionText(units, places), decimals);
    ScaledPadding(FractionText(units, places), decimals);
    ScaleSplit(units, places, decimals - places);
  }

  lemma ScaledPadding(f: string, decimals: nat)
    requires AllDigits(f) && |f| <= decimals && AllDigits(PadEnd(f, decimals))
    ensures Value(PadEnd(f, decimals)) == Scale(Value(f), decimals - |f|)
  {
    hide Pow10, Value, PadEnd;
    PadEndDigits(f, decimals);
  }

  /** A number of units in units `10^k` times smaller. */
  function Scale(units: nat, k: nat): nat { units * Pow10(k) }

  lemma ScaleSplit(units: nat, places: nat, k: nat)
    ensures Scale(Quot(units, Pow10(places)), places + k) + Scale(Rem(units, Pow10(places)), k) == Scale(units, k)
  {
    Pow10Sum(places, k);
    var one, p := Pow10(places), Pow10(k);
    hide Pow10;
    ScaleSum(Quot(units, one), one, Rem(units, one), p);
  }

  lemma ScaleSum(q: nat, one: nat, r: nat, p: nat)
    ensures q * (one * p) + r * p == (q * one + r) * p
  {
  }

  lemma WithoutSign(negative: bool, text: string)
    ensures Without(Signed(negative, text), ',') == Signed(negative, Without(text, ','))
  {
    WithoutConcat("-", text, ',');
    assert Without("-", ',') == "-";
  }

  /**
   * Formatting then reading: a number of `10^-places` units, shown in en-US and read back with
   * `decimals` places once its commas are removed, is multiplied by `10^(decimals - places)`; a
   * minimum of more fraction digits than `decimals` makes it unreadable.
   */
  lemma FormatReadsBack(negative: bool, units: nat, places: nat, trim: bool, minDigits: int, decimals: nat)
    requires places <= decimals
    ensures var text := Signed(negative, FormatNumber(FixedText(units, places), "en-US", trim, minDigits));
            var n := Scale(units, decimals - places);
            && (minDigits <= decimals ==>
                ToRaw(Without(text, ','), decimals) == Ok(Signed(negative && n > 0, Digits(n))))
            && (minDigits > decimals ==> ToRaw(Without(text, ','), decimals).Err?)
  {
    hide FormatNumber, FixedText, FractionText, WholePart, Fraction, ToRaw, Without, Value, Digits, Plain, Pow10,
      Signed, PadEnd, Scale;
    var frac, text := FractionText(units, places), FormatNumber(FixedText(units, places), "en-US", trim, minDigits);
    var whole, shown := Digits(WholePart(units, places)), Fraction(frac, trim, minDigits);
    FormatIsPlain(units, places, trim, minDigits);
    WithoutSign(negative, text);
    if minDigits <= decimals {
      FractionPads(frac, trim, minDigits, decimals);
      UnitsScale(units, places, decimals);
      ReadPlain(negative, whole, shown, decimals, Scale(units, decimals - places));
    } else {
      FractionAtLeast(frac, trim, minDigits);
      ReadTooLong(negative, whole, shown, decimals);
    }
  }

  lemma FractionAtLeast(frac: string, trim: bool, minDigits: int)
    ensures minDigits <= |Fraction(frac, trim, minDigits)|
  {
  }
}
