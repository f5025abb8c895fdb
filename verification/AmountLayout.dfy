/**
 * How a displayed amount is laid out, character by character, in every locale: the sign, the integer
 * part in groups of three, the decimal mark, the fraction digits and the suffix.
 */
module AmountLayout {
  import opened Options
  import opened Decimal
  import opened Sequences
  import opened Amounts
  import opened AmountLaws
  import opened CompactLaws

  /** Digits with `sep` at every fourth place counted from the right, and at neither end. */
  predicate GroupedBy(text: string, sep: char) {
    && text != "" && (|text| - 1) % 4 != 3
    && forall k :: 0 <= k < |text| ==> PlacedWell(text, sep, k)
  }

  /** The character at distance `k` from the right end. */
  predicate PlacedWell(text: string, sep: char, k: nat)
    requires k < |text|
  {
    var c := text[|text| - 1 - k];
    if k % 4 == 3 then c == sep else IsDigit(c)
  }

  lemma GroupAppend(front: string, sep: char, last: string)
    requires GroupedBy(front, sep) && |last| == 3 && AllDigits(last)
    ensures GroupedBy(front + [sep] + last, sep)
  {
    hide IsDigit;
    var text := front + [sep] + last;
    forall k | 0 <= k < |text| ensures PlacedWell(text, sep, k) {
      if k >= 4 {
        assert PlacedWell(front, sep, k - 4);
        assert text[|text| - 1 - k] == front[|front| - 1 - (k - 4)];
        assert k % 4 == (k - 4) % 4;
      }
    }
    assert (|text| - 1) % 4 == (|front| - 1) % 4;
  }

  lemma FewDigits(digits: string, sep: char)
    requires 0 < |digits| <= 3 && AllDigits(digits)
    ensures GroupedBy(digits, sep)
  {
    assert forall k :: 0 <= k < |digits| ==> k % 4 != 3;
  }

  /** Grouping puts a separator before every third digit from the right, and nowhere else. */
  lemma {:induction false} GroupPlaces(digits: string, sep: char)
    requires digits != "" && AllDigits(digits)
    ensures GroupedBy(Group(digits, sep), sep)
  {
    hide GroupedBy;
    if |digits| <= 3 {
      FewDigits(digits, sep);
    } else {
      GroupPlaces(digits[..|digits| - 3], sep);
      GroupAppend(Group(digits[..|digits| - 3], sep), sep, digits[|digits| - 3..]);
    }
  }

  /**
   * The fraction digits shown for `frac`: a prefix of it padded with zeros, dropping zeros only. All
   * of it is kept untrimmed; trimmed, no zero ends it beyond the minimum.
   */
  predicate FractionOf(f: string, frac: string, trim: bool, minDigits: int) {
    && AllDigits(f) && minDigits <= |f|
    && (forall i :: 0 <= i < |f| ==> f[i] == if i < |frac| then frac[i] else '0')
    && (forall i :: |f| <= i < |frac| ==> frac[i] == '0')
    && (!trim ==> |f| == if minDigits < |frac| then |frac| else minDigits)
    && (trim && f != "" && minDigits < |f| ==> f[|f| - 1] != '0')
  }

  lemma FractionLaw(frac: string, trim: bool, minDigits: int)
    requires AllDigits(frac)
    ensures FractionOf(Fraction(frac, trim, minDigits), frac, trim, minDigits)
  {
    FractionDigits(frac, trim, minDigits);
  }

  /** Locales that group by points and mark the fraction with a comma. */
  predicate PointGroups(locale: string) {
    |locale| >= 2 && (locale[..2] == "de" || locale[..2] == "fr" || locale[..2] == "es")
  }

  function GroupMark(locale: string): char { if PointGroups(locale) then '.' else ',' }

  function FractionMark(locale: string): char { if PointGroups(locale) then ',' else '.' }

  /** An integer part and the fraction behind its mark, if there is one. */
  function Number(whole: string, frac: string, locale: string): string {
    if frac == "" then whole else whole + [FractionMark(locale)] + frac
  }

  /** The text is the number of `10^-places` units in this locale. */
  predicate ShowsUnits(whole: string, frac: string, locale: string, units: nat, places: nat, trim: bool,
                       minDigits: int) {
    && GroupedBy(whole, GroupMark(locale)) && Without(whole, GroupMark(locale)) == Digits(WholePart(units, places))
    && FractionOf(frac, FractionText(units, places), trim, minDigits)
  }

  lemma CommaLocales(locale: string)
    ensures CommaDecimal(locale) <==> PointGroups(locale)
  {
    assert "de" <= locale <==> |locale| >= 2 && locale[..2] == "de";
    assert "fr" <= locale <==> |locale| >= 2 && locale[..2] == "fr";
    assert "es" <= locale <==> |locale| >= 2 && locale[..2] == "es";
  }

  lemma NumberLayout(units: nat, places: nat, locale: string, trim: bool, minDigits: int)
      returns (whole: string, frac: string)
    ensures FormatNumber(FixedText(units, places), locale, trim, minDigits) == Number(whole, frac, locale)
    ensures ShowsUnits(whole, frac, locale, units, places, trim, minDigits)
  {
    hide GroupedBy, FractionOf, Group, Without, Fraction, CommaDecimal, PointGroups, FractionText, WholePart;
    var digits, all := Digits(WholePart(units, places)), FractionText(units, places);
    hide Digits, Value;
    CommaLocales(locale);
    FixedParts(digits, all, FixedText(units, places));
    whole, frac := Group(digits, GroupMark(locale)), Fraction(all, trim, minDigits);
    assert IsDigit(digits[0]) && digits[0] != '-';
    GroupPlaces(digits, GroupMark(locale));
    GroupIsInverse(digits, GroupMark(locale));
    FractionLaw(all, trim, minDigits);
  }

  /** The places a full display rounds to. */
  function FullPlaces(decimals: nat, opts: DisplayOptions): int {
    if opts.maxDigits.Some? then opts.maxDigits.value else decimals
  }

  /** What the first division leaves of an amount, in units of `10^-places`, rounded half up. */
  function RoundedUnits(a: nat, decimals: nat, places: nat): nat {
    var abs := DivPow10(Big(a, 0), decimals);
    HalfUp(abs.coef, abs.scale, places)
  }

  /**
   * Every displayed amount, in any locale and with any options: a minus exactly for a negative amount
   * that the division leaves above zero, then the grouped integer part and the fraction. In compact
   * mode, when a unit is reached, these are of the scaled amount and its suffix follows.
   */
  lemma DisplayLayout(raw: string, decimals: nat, opts: DisplayOptions, n: int) returns (whole: string, frac: string)
    requires ParseRaw(raw) == Some(n) && ToDisplay(raw, decimals, opts).Ok?
    ensures var text, a := ToDisplay(raw, decimals, opts).value, Magnitude(n);
            var number := Number(whole, frac, opts.locale);
            var negative := n < 0 && Kept(a, decimals) > 0;
            var k := UnitOf(a, decimals);
            if opts.compact && k < |UNITS| then
              var e := UNITS[k].exponent;
              && text == Signed(negative, number + [UNITS[k].suffix])
              && ShowsUnits(whole, frac, opts.locale, PrintedUnits(a, decimals, e),
                CompactLaws.Places(a, decimals, e), opts.trim, 0)
            else
              var p := FullPlaces(decimals, opts);
              && p >= 0 && text == Signed(negative, number)
              && ShowsUnits(whole, frac, opts.locale, RoundedUnits(a, decimals, p), p, opts.trim, opts.minDigits)
  {
    hide ShowsUnits, FormatNumber, FixedText, HalfUp, DivPow10, Pow10, CompactPlaces, UnitIndex, UnitOf, Scaled,
      Number, Kept;
    hide ParseRaw;
    var a := Magnitude(n);
    ShownUnits(a, decimals);
    UnitOfAbs(a, decimals);
    if opts.compact && UnitOf(a, decimals) < |UNITS| {
      PrintedIsShown(a, decimals);
      var e := UNITS[UnitOf(a, decimals)].exponent;
      whole, frac := NumberLayout(PrintedUnits(a, decimals, e), CompactLaws.Places(a, decimals, e), opts.locale,
        opts.trim, 0);
    } else {
      var p := FullPlaces(decimals, opts);
      whole, frac := NumberLayout(RoundedUnits(a, decimals, p), p, opts.locale, opts.trim, opts.minDigits);
    }
  }

  /** A number in front of a suffix has three significant digits, more only in whole units. */
  lemma CompactDigits(a: nat, d: nat)
    requires UnitOf(a, d) < |UNITS|
    ensures var e := UNITS[UnitOf(a, d)].exponent;
            var p, units := CompactLaws.Places(a, d, e), PrintedUnits(a, d, e);
            p <= 2 && 100 <= units && (p > 0 ==> units <= 1000)
  {
    hide Pow10, HalfUp, RoundTo, Kept, UnitIndex, CompactLaws.Scaled, CompactPlaces, DivPow10;
    ShownBounds(a, d);
    PrintedIsShown(a, d);
    var e := UNITS[UnitOf(a, d)].exponent;
    var p := CompactLaws.Places(a, d, e);
    ThreeDigits(CompactLaws.Scaled(a, d, e), d + e - p, PrintedUnits(a, d, e), p > 0);
  }

  lemma ThreeDigits(y: nat, g: nat, units: nat, bounded: bool)
    requires Pow10(g + 2) <= y && (bounded ==> y < Pow10(g + 3)) && Scale(units, g) == RoundTo(y, g)
    ensures 100 <= units && (bounded ==> units <= 1000)
  {
    PowerSteps(g);
    RoundFixpoint(g, g + 2);
    RoundMonotone(Pow10(g + 2), y, g);
    if bounded {
      RoundFixpoint(g, g + 3);
      RoundMonotone(y, Pow10(g + 3), g);
    }
    hide Pow10, RoundTo;
    MulStep(units, 100, Pow10(g));
    MulStep(1000, units, Pow10(g));
  }

  /** What is displayed and what is refused. */
  lemma DisplayedIff(raw: string, decimals: int, opts: DisplayOptions)
    ensures ToDisplay(raw, decimals, opts).Ok? <==>
              && 0 <= decimals <= MAX_EXPONENT && ParseRaw(raw).Some?
              && var a, p := Magnitude(ParseRaw(raw).value), FullPlaces(decimals, opts);
                 (opts.compact && UnitOf(a, decimals) < |UNITS|) || 0 <= p <= MAX_EXPONENT
  {
    hide FormatNumber, FixedText, HalfUp, DivPow10, CompactPlaces, UnitIndex, UnitOf, ParseRaw;
    if 0 <= decimals <= MAX_EXPONENT && ParseRaw(raw).Some? {
      UnitOfAbs(Magnitude(ParseRaw(raw).value), decimals);
    }
  }

  predicate Blank(s: string) { forall i :: 0 <= i < |s| ==> IsSpace(s[i]) }

  /** Trimming takes white space off both ends, all of it, and nothing else. */
  lemma {:induction false} TrimStrips(s: string) returns (before: string, after: string)
    ensures s == before + Trim(s) + after && Blank(before) && Blank(after)
    ensures Trim(s) != "" ==> !IsSpace(Trim(s)[0]) && !IsSpace(Trim(s)[|Trim(s)| - 1])
    decreases |s|
  {
    hide IsSpace;
    before, after := "", "";
    if s != "" && IsSpace(s[0]) {
      before, after := TrimStrips(s[1..]);
      assert s == [s[0]] + s[1..];
      before := [s[0]] + before;
    } else if s != "" && IsSpace(s[|s| - 1]) {
      before, after := TrimStrips(s[..|s| - 1]);
      assert s == s[..|s| - 1] + [s[|s| - 1]];
      after := after + [s[|s| - 1]];
    }
  }

  /** Rounding half up, by what it means: the nearest number of units, and of two equally near the larger. */
  lemma HalfUpIff(coef: nat, scale: nat, places: nat, units: nat)
    requires places < scale
    ensures HalfUp(coef, scale, places) == units <==>
              var p := Pow10(scale - places); 2 * units * p <= 2 * coef + p && 2 * coef < 2 * units * p + p
  {
    var p := Pow10(scale - places);
    assert p == 10 * Pow10(scale - places - 1) && p / 2 == 5 * Pow10(scale - places - 1);
    hide Pow10, Quot, Rem;
    var up, q := units * p, Quot(coef + p / 2, p);
    assert 2 * units * p == 2 * up;
    if up <= coef + p / 2 < up + p {
      QuotUnique(coef + p / 2, p, units, coef + p / 2 - up);
    }
  }

  // ---------------------------------------------------------------------------------------------
  // What is read
  // ---------------------------------------------------------------------------------------------

  /** The text spells an amount: an optional minus, digits, and optionally a point and digits; a digit in all. */
  predicate Spells(s: string, negative: bool, whole: string, point: bool, frac: string) {
    && AllDigits(whole) && AllDigits(frac) && (whole != "" || frac != "") && (!point ==> frac == "")
    && s == Signed(negative, whole + if point then "." + frac else "")
  }

  lemma UnsignedParts(negative: bool, whole: string, point: bool, frac: string)
    requires Spells(Signed(negative, whole + if point then "." + frac else ""), negative, whole, point, frac)
    ensures var u := whole + if point then "." + frac else "";
            && Unsigned(Signed(negative, u)) == u && u != "" && (Signed(negative, u)[0] == '-' <==> negative)
            && IntPart(u) == whole && FracPart(u) == frac
  {
    var u := whole + if point then "." + frac else "";
    assert forall i :: 0 <= i < |whole| ==> u[i] == whole[i] && IsDigit(whole[i]);
    assert u[0] == if whole == "" then '.' else whole[0];
    assert u[..|whole|] == whole;
    if point {
      assert u[|whole|] == '.' && u[|whole| + 1..] == frac;
    } else {
      assert u == whole;
    }
  }

  /**
   * What the parser makes of an input, by its spelling: too many fraction digits are refused, and
   * otherwise the result is the canonical text of the digits before and after the point, scaled.
   */
  lemma SpelledIsRead(input: string, negative: bool, whole: string, point: bool, frac: string, decimals: nat)
    requires Spells(Trim(input), negative, whole, point, frac)
    ensures |frac| > decimals ==> ToRaw(input, decimals).Err?
    ensures |frac| <= decimals ==>
              var m := Scale(Value(whole), decimals) + Scale(Value(frac), decimals - |frac|);
              ToRaw(input, decimals) == Ok(IntText(if negative then 0 - m else m))
  {
    hide Trim, Value, Pow10, IntText, ToRaw, IntPart, FracPart, Unsigned;
    UnsignedParts(negative, whole, point, frac);
    ToRawIsExact(input, decimals);
  }

  /** And every other input is refused. */
  lemma UnspelledIsRefused(input: string, decimals: int)
    requires decimals >= 0 && ToRaw(input, decimals).Ok?
    ensures exists negative, whole, point, frac :: Spells(Trim(input), negative, whole, point, frac)
  {
    hide Trim, ToRaw;
    ToRawIsExact(input, decimals);
    var s := Trim(input);
    var u := Unsigned(s);
    var negative, whole, frac := s[0] == '-', IntPart(u), FracPart(u);
    var point := |whole| < |u|;
    assert u == whole + if point then "." + frac else "";
    assert Spells(s, negative, whole, point, frac);
  }
}
