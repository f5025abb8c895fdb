/**
 * What the compact notation promises, for every number of decimals.
 *
 * The printer rounds up to three times: the division by `10^decimals` and the division by the unit
 * keep 20 places each, and the result is printed with at most two. Each of these is a rounding of
 * the raw amount to a multiple of a power of ten, and the whole is judged on the printed text.
 */
module CompactLaws {
  import opened Options
  import opened Decimal
  import opened Sequences
  import opened Amounts
  import opened AmountLaws

  function CompactOptions(trim: bool): DisplayOptions { DisplayOptions(trim, true, "en-US", 0, None) }

  // ---------------------------------------------------------------------------------------------
  // Rounding to a multiple of a power of ten
  // ---------------------------------------------------------------------------------------------

  /** `a` rounded half up to a multiple of `10^g`. */
  function RoundTo(a: nat, g: nat): nat { Quot(a + Pow10(g) / 2, Pow10(g)) * Pow10(g) }

  lemma HalfUpIsRound(c: nat, scale: nat, places: nat)
    requires places <= scale
    ensures HalfUp(c, scale, places) * Pow10(scale - places) == RoundTo(c, scale - places)
  {
    if places == scale {
      assert Pow10(0) == 1;
      QuotUnique(c, 1, c, 0);
    }
  }

  lemma RoundWhole(y: nat, k: nat)
    ensures RoundTo(y * Pow10(k), k) == y * Pow10(k)
  {
    hide Pow10;
    var p := Pow10(k);
    QuotUnique(y * p + p / 2, p, y, p / 2);
  }

  lemma ScaledDivision(x: nat, p: nat, q: nat, r: nat, w: nat)
    requires p > 0 && w > 0 && r < p && x == q * p + r
    ensures r * w < p * w && x * w == q * (p * w) + r * w
  {
    MulStep(r, p, w);
  }

  lemma EvenHalf(h: nat, w: nat)
    requires h > 0
    ensures Pow10(h) * w / 2 == Pow10(h) / 2 * w
  {
    assert Pow10(h) == 10 * Pow10(h - 1);
    var p := Pow10(h - 1);
    assert 10 * p * w == 2 * (5 * p * w);
  }

  lemma Distributes(x: nat, y: nat, w: nat)
    ensures (x + y) * w == x * w + y * w
  {
  }

  lemma Associates3(x: nat, y: nat, w: nat)
    ensures x * (y * w) == x * y * w
  {
  }

  /** Rounding commutes with a change of unit. */
  lemma RoundScale(y: nat, h: nat, k: nat)
    ensures RoundTo(y * Pow10(k), h + k) == RoundTo(y, h) * Pow10(k)
  {
    if h == 0 {
      RoundWhole(y, k);
      assert Pow10(0) == 1;
      QuotUnique(y, 1, y, 0);
    } else {
      Pow10Sum(h, k);
      EvenHalf(h, Pow10(k));
      hide Pow10, Quot;
      RoundScaleParts(y, Pow10(h) / 2, Pow10(h), Pow10(k));
    }
  }

  lemma RoundScaleParts(y: nat, half: nat, p: nat, w: nat)
    requires p > 0 && w > 0
    ensures p * w > 0
    ensures Quot(y * w + half * w, p * w) * (p * w) == Quot(y + half, p) * p * w
  {
    hide Quot, Rem;
    var x := y + half;
    var q, r := Quot(x, p), Rem(x, p);
    MulStep(0, p, w);
    ScaledDivision(x, p, q, r, w);
    Distributes(y, half, w);
    QuotUnique(x * w, p * w, q, r * w);
    Associates3(q, p, w);
  }

  lemma QuotMonotone(a: nat, b: nat, p: nat)
    requires p > 0 && a <= b
    ensures Quot(a, p) <= Quot(b, p)
  {
    MulStep(Quot(b, p), Quot(a, p), p);
  }

  lemma RoundMonotone(a: nat, b: nat, g: nat)
    requires a <= b
    ensures RoundTo(a, g) <= RoundTo(b, g)
  {
    hide Pow10;
    var p := Pow10(g);
    QuotMonotone(a + p / 2, b + p / 2, p);
    MulStep(Quot(a + p / 2, p), Quot(b + p / 2, p), p);
  }

  /** A larger power of ten rounds to itself. */
  lemma RoundFixpoint(g: nat, n: nat)
    requires g <= n
    ensures RoundTo(Pow10(n), g) == Pow10(n)
  {
    Pow10Sum(n - g, g);
    RoundWhole(Pow10(n - g), g);
  }

  lemma RoundError(a: nat, g: nat)
    ensures 2 * (RoundTo(a, g) - a) <= Pow10(g) && 2 * (a - RoundTo(a, g)) <= Pow10(g)
  {
    var p := Pow10(g);
    if g > 0 {
      assert p == 10 * Pow10(g - 1);
      assert p / 2 == 5 * Pow10(g - 1);
    }
  }

  lemma {:induction false} PowMonotone(a: nat, b: nat)
    requires a <= b
    ensures Pow10(a) <= Pow10(b)
  {
    if a < b {
      PowMonotone(a, b - 1);
    }
  }

  lemma PowerSteps(n: nat)
    ensures Pow10(n + 1) == 10 * Pow10(n) && Pow10(n + 2) == 100 * Pow10(n) && Pow10(n + 3) == 1000 * Pow10(n)
  {
  }

  // ---------------------------------------------------------------------------------------------
  // The amount a compact rendering stands for
  // ---------------------------------------------------------------------------------------------

  /** The unit chosen for an amount: its position, past the end if none is reached. */
  function UnitOf(a: nat, d: nat): (k: nat)
    ensures k <= |UNITS|
  {
    UnitIndex(Big(Kept(a, d), d), 0)
  }

  /** The raw amount left by the second division, by `10^e`. */
  function Scaled(a: nat, d: nat, e: nat): nat {
    if d + e <= DIVISION_PLACES then Kept(a, d) else RoundTo(Kept(a, d), d + e - DIVISION_PLACES)
  }

  /** The fraction digits printed in front of the suffix. */
  function Places(a: nat, d: nat, e: nat): nat { CompactPlaces(Big(Scaled(a, d, e), d + e)) }

  /** The raw amount the compact rendering stands for. */
  function ShownAmount(a: nat, d: nat): nat {
    if UnitOf(a, d) == |UNITS| then Kept(a, d)
    else
      var e := UNITS[UnitOf(a, d)].exponent;
      RoundTo(Scaled(a, d, e), d + e - Places(a, d, e))
  }

  lemma {:induction false} UnitIndexIsFirst(b: Big, i: nat)
    requires i <= |UNITS|
    ensures var k := UnitIndex(b, i);
            && (k < |UNITS| ==> AtLeast(b, Pow10(UNITS[k].exponent)))
            && forall j :: i <= j < k ==> !AtLeast(b, Pow10(UNITS[j].exponent))
    decreases |UNITS| - i
  {
    hide AtLeast, Pow10;
    if i < |UNITS| && !AtLeast(b, Pow10(UNITS[i].exponent)) {
      UnitIndexIsFirst(b, i + 1);
    }
  }

  lemma ReachesIff(a: nat, d: nat, e: nat)
    ensures AtLeast(Big(a, d), Pow10(e)) <==> Pow10(d + e) <= a
  {
    Pow10Sum(e, d);
  }

  /** The chosen unit is reached by what the first division keeps, and the next larger one is not. */
  lemma UnitBounds(a: nat, d: nat, k: nat)
    requires k == UnitOf(a, d) < |UNITS|
    ensures var e := UNITS[k].exponent;
            3 <= e <= 12 && Pow10(d + e) <= Kept(a, d) && (e < 12 ==> Kept(a, d) < Pow10(d + e + 3))
  {
    hide Pow10, AtLeast, UnitIndex, Kept;
    var e := UNITS[k].exponent;
    UnitIndexIsFirst(Big(Kept(a, d), d), 0);
    ReachesIff(Kept(a, d), d, e);
    if k > 0 {
      assert UNITS[k - 1].exponent == e + 3;
      ReachesIff(Kept(a, d), d, e + 3);
    }
  }

  lemma BelowUnits(a: nat, d: nat)
    requires UnitOf(a, d) == |UNITS|
    ensures Kept(a, d) < Pow10(d + 3)
  {
    hide Pow10, AtLeast, UnitIndex, Kept;
    UnitIndexIsFirst(Big(Kept(a, d), d), 0);
    assert UNITS[3].exponent == 3;
    ReachesIff(Kept(a, d), d, 3);
  }

  lemma PlacesBounds(a: nat, scale: nat)
    requires scale >= 2 && Pow10(scale) <= a
    ensures var p := CompactPlaces(Big(a, scale));
            p <= 2 && Pow10(scale - p + 2) <= a && (p > 0 ==> a < Pow10(scale - p + 3))
  {
    PowerSteps(scale);
    hide Pow10;
  }

  // ---------------------------------------------------------------------------------------------
  // Order
  // ---------------------------------------------------------------------------------------------

  lemma KeptIsRound(a: nat, d: nat)
    ensures Kept(a, d) == RoundTo(a, if d <= DIVISION_PLACES then 0 else d - DIVISION_PLACES)
  {
    if d <= DIVISION_PLACES {
      assert Pow10(0) == 1;
      QuotUnique(a, 1, a, 0);
    } else {
      HalfUpIsRound(a, d, DIVISION_PLACES);
    }
  }

  lemma KeptMonotone(a: nat, b: nat, d: nat)
    requires a <= b
    ensures Kept(a, d) <= Kept(b, d)
  {
    hide Kept, RoundTo;
    KeptIsRound(a, d);
    KeptIsRound(b, d);
    RoundMonotone(a, b, if d <= DIVISION_PLACES then 0 else d - DIVISION_PLACES);
  }

  lemma ScaledMonotone(a: nat, b: nat, d: nat, e: nat)
    requires a <= b
    ensures Scaled(a, d, e) <= Scaled(b, d, e)
  {
    hide Kept, RoundTo;
    KeptMonotone(a, b, d);
    if d + e > DIVISION_PLACES { RoundMonotone(Kept(a, d), Kept(b, d), d + e - DIVISION_PLACES); }
  }

  /** A rendering with a suffix stands for at least its unit and at most the next. */
  lemma ShownBounds(a: nat, d: nat)
    requires UnitOf(a, d) < |UNITS|
    ensures var e := UNITS[UnitOf(a, d)].exponent;
            3 <= e <= 12 && Pow10(d + e) <= ShownAmount(a, d) && (e < 12 ==> ShownAmount(a, d) <= Pow10(d + e + 3))
    ensures var e := UNITS[UnitOf(a, d)].exponent;
            var p, y := Places(a, d, e), Scaled(a, d, e);
            p <= 2 && Pow10(d + e - p + 2) <= y && (p > 0 ==> y < Pow10(d + e - p + 3))
  {
    hide Pow10, Kept, RoundTo, UnitIndex, Scaled, CompactPlaces;
    var k := UnitOf(a, d);
    var e := UNITS[k].exponent;
    UnitBounds(a, d, k);
    KeptBelow(a, d, e);
    PlacesBounds(Scaled(a, d, e), d + e);
    var g := d + e - Places(a, d, e);
    RoundFixpoint(g, d + e);
    RoundMonotone(Pow10(d + e), Scaled(a, d, e), g);
    if e < 12 {
      RoundFixpoint(g, d + e + 3);
      RoundMonotone(Scaled(a, d, e), Pow10(d + e + 3), g);
    }
  }

  lemma KeptBelow(a: nat, d: nat, e: nat)
    requires 3 <= e && Pow10(d + e) <= Kept(a, d)
    ensures Pow10(d + e) <= Scaled(a, d, e)
    ensures Kept(a, d) < Pow10(d + e + 3) ==> Scaled(a, d, e) <= Pow10(d + e + 3)
  {
    hide Pow10, Kept, RoundTo;
    if d + e > DIVISION_PLACES {
      var g := d + e - DIVISION_PLACES;
      RoundFixpoint(g, d + e);
      RoundMonotone(Pow10(d + e), Kept(a, d), g);
      if Kept(a, d) < Pow10(d + e + 3) {
        RoundFixpoint(g, d + e + 3);
        RoundMonotone(Kept(a, d), Pow10(d + e + 3), g);
      }
    }
  }

  /** A larger amount never gets a smaller unit. */
  lemma UnitMonotone(a: nat, b: nat, d: nat)
    requires a <= b && UnitOf(a, d) < |UNITS|
    ensures UnitOf(b, d) <= UnitOf(a, d)
  {
    hide Pow10, Kept, UnitIndex;
    KeptMonotone(a, b, d);
    var k := UnitOf(a, d);
    UnitIndexIsFirst(Big(Kept(a, d), d), 0);
    UnitIndexIsFirst(Big(Kept(b, d), d), 0);
    assert AtLeast(Big(Kept(b, d), d), Pow10(UNITS[k].exponent));
  }

  /** The amount shown never decreases as the amount grows, across all unit and digit changes. */
  lemma ShownMonotone(a: nat, b: nat, d: nat)
    requires a <= b
    ensures ShownAmount(a, d) <= ShownAmount(b, d)
  {
    hide Pow10, Kept, RoundTo, UnitIndex, Scaled, CompactPlaces;
    KeptMonotone(a, b, d);
    if UnitOf(b, d) == |UNITS| {
      if UnitOf(a, d) < |UNITS| { UnitMonotone(a, b, d); }
    } else {
      ShownBounds(b, d);
      var eb := UNITS[UnitOf(b, d)].exponent;
      if UnitOf(a, d) == |UNITS| {
        BelowUnits(a, d);
        PowMonotone(d + 3, d + eb);
      } else {
        ShownBounds(a, d);
        UnitMonotone(a, b, d);
        var ea := UNITS[UnitOf(a, d)].exponent;
        if UnitOf(a, d) == UnitOf(b, d) {
          SameUnit(a, b, d);
        } else {
          assert ea + 3 <= eb;
          PowMonotone(d + ea + 3, d + eb);
        }
      }
    }
  }

  lemma SameUnit(a: nat, b: nat, d: nat)
    requires a <= b && UnitOf(a, d) == UnitOf(b, d) < |UNITS|
    ensures ShownAmount(a, d) <= ShownAmount(b, d)
  {
    hide Pow10, Kept, RoundTo, UnitIndex, Scaled, CompactPlaces;
    var e := UNITS[UnitOf(a, d)].exponent;
    ShownBounds(a, d);
    ShownBounds(b, d);
    ScaledMonotone(a, b, d, e);
    SameOrLowerGrain(Scaled(a, d, e), Scaled(b, d, e), d + e, Places(a, d, e), Places(b, d, e));
  }

  lemma SameOrLowerGrain(x: nat, y: nat, scale: nat, p: nat, q: nat)
    requires x <= y && scale >= 3 && p <= 2 && q <= 2
    requires Pow10(scale - p + 2) <= x && (p > 0 ==> x < Pow10(scale - p + 3))
    requires Pow10(scale - q + 2) <= y && (q > 0 ==> y < Pow10(scale - q + 3))
    ensures RoundTo(x, scale - p) <= RoundTo(y, scale - q)
  {
    hide Pow10, RoundTo;
    if p == q {
      RoundMonotone(x, y, scale - p);
    } else if q < p {
      var top := scale - q + 2;
      PowMonotone(scale - p + 3, top);
      RoundMonotone(x, Pow10(top), scale - p);
      RoundFixpoint(scale - p, top);
      RoundMonotone(Pow10(top), y, scale - q);
      RoundFixpoint(scale - q, top);
    } else {
      PowMonotone(scale - q + 3, scale - p + 2);
    }
  }

  // ---------------------------------------------------------------------------------------------
  // Error
  // ---------------------------------------------------------------------------------------------

  /** Rounding to three or four significant digits leaves room for one more unit of error. */
  lemma RoundSlack(y: nat, h: nat)
    requires h >= 3 && Pow10(h + 2) <= y
    ensures 200 * (RoundTo(y, h) - y) + 201 <= y && 200 * (y - RoundTo(y, h)) + 201 <= y
  {
    PowerSteps(h);
    PowMonotone(3, h);
    assert Pow10(3) == 1000 && Pow10(h) == 10 * Pow10(h - 1);
    hide Pow10, Quot;
    NearestMultiple(y, 5 * Pow10(h - 1));
  }

  lemma NearestMultiple(y: nat, half: nat)
    requires half >= 500 && 200 * half <= y
    ensures var z := Quot(y + half, 2 * half) * (2 * half); 200 * (z - y) + 201 <= y && 200 * (y - z) + 201 <= y
  {
    hide Quot, Rem;
    var g := 2 * half;
    var n, f := Quot(y, g), Rem(y, g);
    if f < half {
      QuotUnique(y + half, g, n, f + half);
    } else {
      Distributes(n, 1, g);
      QuotUnique(y + half, g, n + 1, f - half);
    }
    Hundredfold(y, g, n, f);
  }

  lemma Hundredfold(y: nat, g: nat, n: nat, f: nat)
    requires y == n * g + f && f < g && 100 * g <= y
    ensures 100 * g <= n * g
  {
    var ng := n * g;
    MulStep(n, 100, g);
    MulStep(100, n, g);
  }

  lemma IntMonotone(x: int, y: int, w: nat)
    requires x <= y
    ensures x * w <= y * w
  {
    MulStep(0, y - x, w);
    assert (y - x) * w == y * w - x * w;
  }

  lemma ScaledSlack(z: nat, y: nat, w: nat, a: nat)
    requires 200 * (z - y) + 201 <= y && 200 * (y - z) + 201 <= y
    requires y * w - w <= a <= y * w + w
    ensures 200 * (z * w - a) <= a && 200 * (a - z * w) <= a
  {
    IntMonotone(200 * (z - y) + 201, y, w);
    IntMonotone(200 * (y - z) + 201, y, w);
    var zw, yw := z * w, y * w;
    assert (200 * (z - y) + 201) * w == 200 * zw - 200 * yw + 201 * w;
    assert (200 * (y - z) + 201) * w == 200 * yw - 200 * zw + 201 * w;
  }

  /** What the two divisions may lose together: at most one unit of the second. */
  lemma ScaledNear(a: nat, d: nat, e: nat)
    requires d + e > DIVISION_PLACES
    ensures Scaled(a, d, e) - Pow10(d + e - DIVISION_PLACES) <= a <= Scaled(a, d, e) + Pow10(d + e - DIVISION_PLACES)
  {
    hide Pow10, RoundTo, Kept;
    var g := d + e - DIVISION_PLACES;
    RoundError(Kept(a, d), g);
    KeptNear(a, d);
    if d > DIVISION_PLACES { PowMonotone(d - DIVISION_PLACES, g); }
  }

  lemma KeptNear(a: nat, d: nat)
    ensures d <= DIVISION_PLACES ==> Kept(a, d) == a
    ensures d > DIVISION_PLACES ==>
              var p := Pow10(d - DIVISION_PLACES); 2 * (Kept(a, d) - a) <= p && 2 * (a - Kept(a, d)) <= p
  {
    if d > DIVISION_PLACES {
      hide Pow10, RoundTo, Kept;
      KeptIsRound(a, d);
      RoundError(a, d - DIVISION_PLACES);
    }
  }

  /** Every rendering with a suffix stands for an amount within 1/200 of the true one. */
  lemma ShownWithin(a: nat, d: nat)
    requires UnitOf(a, d) < |UNITS|
    ensures 200 * (ShownAmount(a, d) - a) <= a && 200 * (a - ShownAmount(a, d)) <= a
  {
    hide Pow10, RoundTo, Kept, UnitIndex, Scaled, CompactPlaces;
    ShownBounds(a, d);
    var e := UNITS[UnitOf(a, d)].exponent;
    var p := Places(a, d, e);
    if d + e <= DIVISION_PLACES {
      ScaledExact(a, d, e);
      RoundError(a, d + e - p);
      PowerSteps(d + e - p);
    } else {
      TwiceRounded(a, d, e, p);
    }
  }

  lemma ScaledExact(a: nat, d: nat, e: nat)
    requires d + e <= DIVISION_PLACES
    ensures Scaled(a, d, e) == a
  {
  }

  lemma TwiceRounded(a: nat, d: nat, e: nat, p: nat)
    requires d + e > DIVISION_PLACES && p <= 2 && Pow10(d + e - p + 2) <= Scaled(a, d, e)
    ensures var shown := RoundTo(Scaled(a, d, e), d + e - p); 200 * (shown - a) <= a && 200 * (a - shown) <= a
  {
    hide Pow10, Kept, Quot;
    var g, h := d + e - DIVISION_PLACES, DIVISION_PLACES - p;
    var w := Pow10(g);
    var y := Quot(Kept(a, d) + w / 2, w);
    assert Scaled(a, d, e) == y * w;
    ScaledNear(a, d, e);
    Pow10Sum(h + 2, g);
    hide Scaled;
    assert Pow10(h + 2) <= y by { MulStep(y, Pow10(h + 2), w); }
    RoundScale(y, h, g);
    hide RoundTo;
    RoundSlack(y, h);
    ScaledSlack(RoundTo(y, h), y, w, a);
  }

  // ---------------------------------------------------------------------------------------------
  // The printed text
  // ---------------------------------------------------------------------------------------------

  lemma AtLeastScale(c: nat, s: nat, k: nat, w: nat)
    ensures AtLeast(Big(c, s), w) <==> AtLeast(Big(c * Pow10(k), s + k), w)
  {
    Pow10Sum(s, k);
    hide Pow10;
    var p := Pow10(k);
    Associates3(w, Pow10(s), p);
    MulStep(w * Pow10(s), c, p);
    MulStep(c, w * Pow10(s), p);
  }

  lemma {:induction false} UnitIndexScale(c: nat, s: nat, k: nat, i: nat)
    requires i <= |UNITS|
    ensures UnitIndex(Big(c, s), i) == UnitIndex(Big(c * Pow10(k), s + k), i)
    decreases |UNITS| - i
  {
    hide Pow10, AtLeast;
    if i < |UNITS| {
      AtLeastScale(c, s, k, Pow10(UNITS[i].exponent));
      UnitIndexScale(c, s, k, i + 1);
    }
  }

  lemma PlacesScale(c: nat, s: nat, k: nat)
    ensures CompactPlaces(Big(c, s)) == CompactPlaces(Big(c * Pow10(k), s + k))
  {
    hide Pow10, AtLeast;
    AtLeastScale(c, s, k, 100);
    AtLeastScale(c, s, k, 10);
  }

  lemma TimesOne(x: nat)
    ensures x * Pow10(0) == x
  {
  }

  /** What the first division leaves, in raw units. */
  lemma AbsParts(a: nat, d: nat)
    ensures var abs := DivPow10(Big(a, 0), d);
            && abs.scale == (if d <= DIVISION_PLACES then d else DIVISION_PLACES)
            && abs.coef * Pow10(d - abs.scale) == Kept(a, d)
  {
    hide Pow10, HalfUp;
    if d <= DIVISION_PLACES { TimesOne(a); }
  }

  lemma UnitOfAbs(a: nat, d: nat)
    ensures UnitIndex(DivPow10(Big(a, 0), d), 0) == UnitOf(a, d)
  {
    hide Pow10, UnitIndex, DivPow10, Kept;
    AbsParts(a, d);
    var abs := DivPow10(Big(a, 0), d);
    UnitIndexScale(abs.coef, abs.scale, d - abs.scale, 0);
  }

  /** What the division by the unit leaves, in raw units. */
  lemma ScaledParts(a: nat, d: nat, e: nat)
    requires e > 0
    ensures var y := DivPow10(DivPow10(Big(a, 0), d), e);
            && y.scale == (if d + e <= DIVISION_PLACES then d + e else DIVISION_PLACES)
            && y.coef * Pow10(d + e - y.scale) == Scaled(a, d, e)
  {
    AbsParts(a, d);
    var abs := DivPow10(Big(a, 0), d);
    if d + e <= DIVISION_PLACES {
      hide Pow10, HalfUp;
      TimesOne(a);
    } else {
      assert DivPow10(abs, e) == Big(HalfUp(abs.coef, abs.scale + e, DIVISION_PLACES), DIVISION_PLACES);
      hide Pow10, HalfUp, DivPow10, Kept, RoundTo;
      SecondDivision(abs.coef, abs.scale, d - abs.scale, e);
    }
  }

  lemma SecondDivision(c: nat, s: nat, k: nat, e: nat)
    requires s + e > DIVISION_PLACES
    ensures HalfUp(c, s + e, DIVISION_PLACES) * Pow10(s + k + e - DIVISION_PLACES)
         == RoundTo(c * Pow10(k), s + k + e - DIVISION_PLACES)
  {
    hide Pow10, HalfUp, RoundTo;
    var h := s + e - DIVISION_PLACES;
    HalfUpIsRound(c, s + e, DIVISION_PLACES);
    RoundScale(c, h, k);
    Pow10Sum(h, k);
    Associates3(HalfUp(c, s + e, DIVISION_PLACES), Pow10(h), Pow10(k));
  }

  /** The digits printed in front of the suffix, as a number of `10^-places` units. */
  function PrintedUnits(a: nat, d: nat, e: nat): nat {
    var y := DivPow10(DivPow10(Big(a, 0), d), e);
    HalfUp(y.coef, y.scale, Places(a, d, e))
  }

  lemma PrintedIsShown(a: nat, d: nat)
    requires UnitOf(a, d) < |UNITS|
    ensures var e := UNITS[UnitOf(a, d)].exponent;
            var p := Places(a, d, e);
            p <= d + e && Scale(PrintedUnits(a, d, e), d + e - p) == ShownAmount(a, d)
            && CompactPlaces(DivPow10(DivPow10(Big(a, 0), d), e)) == p
  {
    hide Pow10, HalfUp, RoundTo, Kept, UnitIndex, Scaled, CompactPlaces, DivPow10;
    ShownBounds(a, d);
    var e := UNITS[UnitOf(a, d)].exponent;
    var y, p := DivPow10(DivPow10(Big(a, 0), d), e), Places(a, d, e);
    ScaledParts(a, d, e);
    var k := d + e - y.scale;
    PlacesScale(y.coef, y.scale, k);
    HalfUpIsRound(y.coef, y.scale, p);
    RoundScale(y.coef, y.scale - p, k);
    Pow10Sum(y.scale - p, k);
    Associates3(HalfUp(y.coef, y.scale, p), Pow10(y.scale - p), Pow10(k));
  }

  function SuffixExponent(c: char): Option<nat> {
    if c == 'T' then Some(12) else if c == 'B' then Some(9) else if c == 'M' then Some(6)
        else if c == 'K' then Some(3) else None
  }

  /** The raw amount a displayed text denotes: its commas removed, its suffix read as a power of ten. */
  function Denotes(text: string, d: nat): Option<int> {
    if text == "" then None
    else
      var n := |text| - 1;
      var e := SuffixExponent(text[n]);
      var r := if e.Some? then ToRaw(Without(text[..n], ','), d + e.value) else ToRaw(Without(text, ','), d);
      if r.Ok? then ParseRaw(r.value) else None
  }

  predicate Suffixed(text: string) { text != "" && SuffixExponent(text[|text| - 1]).Some? }

  function SignedShown(n: int, d: nat): int {
    var m := ShownAmount(Magnitude(n), d);
    if n < 0 then 0 - m else m
  }

  lemma SignedAppend(negative: bool, text: string, c: char)
    ensures Signed(negative, text + [c]) == Signed(negative, text) + [c]
  {
  }

  lemma ReadsAsInt(negative: bool, m: nat)
    ensures ParseRaw(Signed(negative && m > 0, Digits(m))) == Some(if negative then 0 - m else m)
  {
    SignText(negative, m);
    IntTextParses(if negative then 0 - m else m);
  }

  /** With a unit: the text, and what it denotes. */
  lemma SuffixedText(raw: string, d: nat, trim: bool, n: int)
    requires d <= MAX_EXPONENT && ParseRaw(raw) == Some(n) && UnitOf(Magnitude(n), d) < |UNITS|
    ensures var shown := ToDisplay(raw, d, CompactOptions(trim));
            shown.Ok? && Suffixed(shown.value) && Denotes(shown.value, d) == Some(SignedShown(n, d))
  {
    hide ToRaw, ToDisplay, Without, FormatNumber, FixedText, HalfUp, Digits, Pow10, CompactPlaces, ParseRaw;
    hide ShownAmount, PrintedUnits, Scaled, UnitOf, Scale, Places, Signed, Suffixed, Denotes;
    var a := Magnitude(n);
    var unit := UNITS[UnitOf(a, d)];
    var e, p := unit.exponent, Places(a, d, unit.exponent);
    var number := FormatNumber(FixedText(PrintedUnits(a, d, e), p), "en-US", trim, 0);
    PrintedIsShown(a, d);
    CompactChoosesUnit(raw, d, trim, n);
    SignedAppend(n < 0, number, unit.suffix);
    FormatReadsBack(n < 0, PrintedUnits(a, d, e), p, trim, 0, d + e);
    ReadsAsInt(n < 0, ShownAmount(a, d));
    SuffixOfUnit(UnitOf(a, d));
    DenotesSuffixed(Signed(n < 0, number), unit.suffix, e, d);
  }

  lemma SuffixOfUnit(k: nat)
    requires k < |UNITS|
    ensures SuffixExponent(UNITS[k].suffix) == Some(UNITS[k].exponent)
  {
  }

  lemma DenotesSuffixed(body: string, c: char, e: nat, d: nat)
    requires SuffixExponent(c) == Some(e)
    ensures Suffixed(body + [c])
    ensures var r := ToRaw(Without(body, ','), d + e);
            Denotes(body + [c], d) == if r.Ok? then ParseRaw(r.value) else None
  {
    hide ToRaw, Without, ParseRaw;
    var text := body + [c];
    assert text[..|text| - 1] == body && text[|text| - 1] == c;
  }

  lemma CompactChoosesUnit(raw: string, d: nat, trim: bool, n: int)
    requires d <= MAX_EXPONENT && ParseRaw(raw) == Some(n) && UnitOf(Magnitude(n), d) < |UNITS|
    ensures var a := Magnitude(n);
            var unit := UNITS[UnitOf(a, d)];
            var number := FormatNumber(FixedText(PrintedUnits(a, d, unit.exponent), Places(a, d, unit.exponent)),
              "en-US", trim, 0);
            ToDisplay(raw, d, CompactOptions(trim)) == Ok(Signed(n < 0, number + [unit.suffix]))
  {
    hide Pow10, FormatNumber, FixedText, DivPow10, UnitIndex, ParseRaw, AtLeast, CompactPlaces, HalfUp, UnitOf, Scaled;
    var a := Magnitude(n);
    UnitOfAbs(a, d);
    PrintedIsShown(a, d);
    CoefPositive(a, d);
  }

  lemma CoefPositive(a: nat, d: nat)
    requires UnitOf(a, d) < |UNITS|
    ensures DivPow10(Big(a, 0), d).coef > 0
  {
    hide Pow10, Kept, UnitIndex, DivPow10;
    UnitBounds(a, d, UnitOf(a, d));
    AbsParts(a, d);
  }

  /** Without a unit the text ends in a digit and denotes what the division kept. */
  lemma PlainText(raw: string, d: nat, trim: bool, n: int)
    requires d <= MAX_EXPONENT && ParseRaw(raw) == Some(n) && UnitOf(Magnitude(n), d) == |UNITS|
    ensures var shown := ToDisplay(raw, d, CompactOptions(trim));
            shown.Ok? && !Suffixed(shown.value) && Denotes(shown.value, d) == Some(SignedShown(n, d))
  {
    hide ToRaw, Without, FormatNumber, FixedText, HalfUp, Digits, Pow10, ParseRaw, DivPow10, UnitIndex, UnitOf, Kept;
    var a := Magnitude(n);
    UnitOfAbs(a, d);
    assert ToDisplay(raw, d, CompactOptions(trim)) == ToDisplay(raw, d, FullOptions(trim, 0));
    DisplayReads(raw, d, trim, 0, n);
    ReadsAsInt(n < 0, Kept(a, d));
    var abs := DivPow10(Big(a, 0), d);
    EndsInDigit(HalfUp(abs.coef, abs.scale, d), d, trim);
    NoSuffixOnDigit(n < 0 && abs.coef > 0, FormatNumber(ToFixed(abs, d), "en-US", trim, 0));
  }

  lemma NoSuffixOnDigit(negative: bool, text: string)
    requires text != "" && IsDigit(text[|text| - 1])
    ensures var s := Signed(negative, text); s != "" && s[|s| - 1] == text[|text| - 1] && !Suffixed(s)
  {
  }

  lemma {:induction false} GroupKeepsEnd(digits: string, sep: char)
    requires digits != ""
    ensures var g := Group(digits, sep); g != "" && g[|g| - 1] == digits[|digits| - 1]
  {
  }

  lemma EndsInDigit(units: nat, places: nat, trim: bool)
    ensures var text := FormatNumber(FixedText(units, places), "en-US", trim, 0);
            text != "" && IsDigit(text[|text| - 1])
  {
    var whole, frac := Digits(WholePart(units, places)), FractionText(units, places);
    hide Digits, WholePart, FractionText, Fraction, Group, Value;
    FixedParts(whole, frac, Plain(whole, frac));
    FractionDigits(frac, trim, 0);
    UngroupedNumber(whole, Fraction(frac, trim, 0));
    GroupKeepsEnd(whole, ',');
  }

  /** What the compact display of any amount denotes, whatever unit it gets. */
  lemma CompactDenotes(raw: string, d: nat, trim: bool, n: int)
    requires d <= MAX_EXPONENT && ParseRaw(raw) == Some(n)
    ensures var shown := ToDisplay(raw, d, CompactOptions(trim));
            && shown.Ok?
            && Denotes(shown.value, d) == Some(SignedShown(n, d))
            && (Suffixed(shown.value) <==> UnitOf(Magnitude(n), d) < |UNITS|)
  {
    hide ToDisplay, Denotes, Suffixed, UnitOf, SignedShown, ParseRaw;
    if UnitOf(Magnitude(n), d) < |UNITS| {
      SuffixedText(raw, d, trim, n);
    } else {
      PlainText(raw, d, trim, n);
    }
  }

  /**
   * The compact display, judged on its texts, for any two amounts and any number of decimals: texts
   * denote values in the order of the amounts, negative ones included and trimmed or not; one with a
   * suffix is within 1/200 of its amount; one without is exact if and only if the division by
   * `10^decimals` lost nothing, which it never does with at most 20 decimals.
   */
  lemma CompactTextsFaithful(raw1: string, n1: int, trim1: bool, raw2: string, n2: int, trim2: bool, d: nat)
    requires d <= MAX_EXPONENT && ParseRaw(raw1) == Some(n1) && ParseRaw(raw2) == Some(n2) && n1 <= n2
    ensures var t1, t2 := ToDisplay(raw1, d, CompactOptions(trim1)), ToDisplay(raw2, d, CompactOptions(trim2));
            && t1.Ok? && t2.Ok?
            && Denotes(t1.value, d).Some? && Denotes(t2.value, d).Some?
            && Denotes(t1.value, d).value <= Denotes(t2.value, d).value
            && var v := Denotes(t1.value, d).value;
               if Suffixed(t1.value) then 200 * Magnitude(v - n1) <= Magnitude(n1) else (v == n1 <==> Lossless(n1, d))
  {
    hide ToDisplay, Denotes, Suffixed, UnitOf, ParseRaw, Lossless, Kept;
    CompactDenotes(raw1, d, trim1, n1);
    CompactDenotes(raw2, d, trim2, n2);
    SignedMonotone(n1, n2, d);
    SignedError(n1, d);
  }

  lemma SignedMonotone(n1: int, n2: int, d: nat)
    requires n1 <= n2
    ensures SignedShown(n1, d) <= SignedShown(n2, d)
  {
    hide ShownAmount;
    if n2 < 0 {
      ShownMonotone(Magnitude(n2), Magnitude(n1), d);
    } else if n1 >= 0 {
      ShownMonotone(Magnitude(n1), Magnitude(n2), d);
    }
  }

  lemma SignedError(n: int, d: nat)
    ensures UnitOf(Magnitude(n), d) < |UNITS| ==> 200 * Magnitude(SignedShown(n, d) - n) <= Magnitude(n)
    ensures UnitOf(Magnitude(n), d) == |UNITS| ==> (SignedShown(n, d) == n <==> Lossless(n, d))
  {
    hide UnitOf, Kept, Lossless, Scaled, RoundTo;
    if UnitOf(Magnitude(n), d) < |UNITS| {
      ShownWithin(Magnitude(n), d);
    } else {
      KeptIff(n, d);
    }
  }
}
