/** What the amount printer and parser promise together. */
module AmountLaws {
  import opened Options
  import opened Decimal
  import opened Amounts

  // ---------------------------------------------------------------------------------------------
  // Round trip
  // ---------------------------------------------------------------------------------------------

  function FullOptions(trim: bool, minDigits: int): DisplayOptions {
    DisplayOptions(trim, false, "en-US", minDigits, None)
  }

  /** Nothing is lost to the 20 places a division keeps. */
  predicate Lossless(n: int, decimals: nat) {
    decimals <= DIVISION_PLACES || Rem(Magnitude(n), Pow10(decimals - DIVISION_PLACES)) == 0
  }

  /** The raw amount that survives the division. */
  function Kept(a: nat, decimals: nat): nat {
    if decimals <= DIVISION_PLACES then a
    else HalfUp(a, decimals, DIVISION_PLACES) * Pow10(decimals - DIVISION_PLACES)
  }

  lemma KeptIff(n: int, decimals: nat)
    ensures Kept(Magnitude(n), decimals) == Magnitude(n) <==> Lossless(n, decimals)
  {
    if decimals > DIVISION_PLACES {
      var a, p := Magnitude(n), Pow10(decimals - DIVISION_PLACES);
      if Rem(a, p) == 0 {
        QuotUnique(a + p / 2, p, Quot(a, p), p / 2);
      } else if Kept(a, decimals) == a {
        QuotUnique(a, p, HalfUp(a, decimals, DIVISION_PLACES), 0);
      }
    }
  }

  /** The units printed are what the division kept, and a sign is printed only on a non-zero value. */
  lemma ShownUnits(a: nat, decimals: nat)
    ensures var abs := DivPow10(Big(a, 0), decimals);
            && HalfUp(abs.coef, abs.scale, decimals) == Kept(a, decimals)
            && (abs.coef > 0 <==> Kept(a, decimals) > 0)
  {
    var abs := DivPow10(Big(a, 0), decimals);
    assert Pow10(0) == 1;
    if decimals > DIVISION_PLACES {
      var c, p := HalfUp(a, decimals, DIVISION_PLACES), Pow10(decimals - DIVISION_PLACES);
      assert c > 0 ==> c * p > 0;
    }
  }

  lemma SignedDigitsInjective(b1: bool, x: nat, b2: bool, y: nat)
    requires Signed(b1, Digits(x)) == Signed(b2, Digits(y))
    ensures x == y
  {
    assert IsDigit(Digits(x)[0]) && IsDigit(Digits(y)[0]);
    assert b1 ==> Signed(b1, Digits(x))[1..] == Digits(x);
    assert b2 ==> Signed(b2, Digits(y))[1..] == Digits(y);
  }

  lemma ScaleByOne(units: nat)
    ensures Scale(units, 0) == units
  {
  }

  /** What `toRaw` reads from the default en-US display once its commas are removed. */
  lemma DisplayReads(raw: string, decimals: nat, trim: bool, minDigits: int, n: int)
    requires decimals <= MAX_EXPONENT && ParseRaw(raw) == Some(n)
    ensures var shown := ToDisplay(raw, decimals, FullOptions(trim, minDigits));
            && shown.Ok?
            && (minDigits > decimals ==> ToRaw(Without(shown.value, ','), decimals).Err?)
            && (minDigits <= decimals ==>
                  ToRaw(Without(shown.value, ','), decimals)
                  == Ok(Signed(n < 0 && Kept(Magnitude(n), decimals) > 0, Digits(Kept(Magnitude(n), decimals)))))
  {
    hide ToRaw, Without, FormatNumber, Kept, HalfUp, DivPow10, Digits, ParseRaw, Pow10, Scale;
    var a := Magnitude(n);
    var abs := DivPow10(Big(a, 0), decimals);
    ShownUnits(a, decimals);
    var units := HalfUp(abs.coef, abs.scale, decimals);
    FormatReadsBack(n < 0 && abs.coef > 0, units, decimals, trim, minDigits, decimals);
    ScaleByOne(units);
  }

  /**
   * Amount round trip, exactly: for any text of an integer amount, displaying it in en-US with the
   * default fraction digits, trimmed or not, and reading it back without commas gives the canonical
   * text of the same integer if and only if the minimum fraction digits do not exceed `decimals` and
   * the division lost nothing. With at most 20 decimals it never does.
   */
  lemma RoundTripIff(raw: string, decimals: nat, trim: bool, minDigits: int, n: int)
    requires decimals <= MAX_EXPONENT && ParseRaw(raw) == Some(n)
    ensures var shown := ToDisplay(raw, decimals, FullOptions(trim, minDigits));
            && shown.Ok?
            && (ToRaw(Without(shown.value, ','), decimals) == Ok(IntText(n))
                <==> minDigits <= decimals && Lossless(n, decimals))
  {
    DisplayReads(raw, decimals, trim, minDigits, n);
    KeptIff(n, decimals);
    var k := Kept(Magnitude(n), decimals);
    if minDigits <= decimals && Signed(n < 0 && k > 0, Digits(k)) == IntText(n) {
      SignedDigitsInjective(n < 0 && k > 0, k, n < 0, Magnitude(n));
    }
    hide ToDisplay, ToRaw, Without, Kept, Lossless, Digits;
  }

  /** With 21 decimals the smallest amount is shown as zero. */
  lemma TwentyOneDecimalsLose(trim: bool)
    ensures ParseRaw(IntText(1)) == Some(1)
    ensures var shown := ToDisplay(IntText(1), 21, FullOptions(trim, 0));
            shown.Ok? && ToRaw(Without(shown.value, ','), 21) != Ok(IntText(1))
  {
    hide ToRaw, ToDisplay, Without, IntText, ParseRaw;
    IntTextParses(1);
    RoundTripIff(IntText(1), 21, trim, 0, 1);
    assert Pow10(1) == 10 * Pow10(0);
    QuotUnique(1, 10, 0, 1);
  }

  /** The canonical text of an integer is itself read as that integer. */
  lemma IntTextParses(n: int)
    ensures ParseRaw(IntText(n)) == Some(n)
  {
    var d, s := Digits(Magnitude(n)), IntText(n);
    assert IsDigit(d[0]) && IsDigit(d[|d| - 1]);
    assert s[|s| - 1] == d[|d| - 1];
    TrimNoop(s);
    assert n < 0 ==> s[1..] == d;
  }
}
