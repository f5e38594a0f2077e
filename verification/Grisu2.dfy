// grisu2 of contrib/fpconv/fpconv.c: the digits it prints denote a number strictly inside the
// double's rounding interval, so reading them back gives the same double.
module Grisu2 {
  import opened Common
  import opened GrisuPowers
  import opened GrisuDigits
  import opened Grisu

  // ---- Powers -------------------------------------------------------------------------------

  lemma TwoStep(e: int)
    ensures Two(e + 1) == 2.0 * Two(e)
  {
  }

  lemma {:induction false} TwoSplit(x: int, y: int)
    ensures Two(x + y) == Two(x) * Two(y)
    decreases if y < 0 then -y else y
  {
    if y > 0 {
      TwoSplit(x, y - 1);
      TwoStep(x + y - 1);
      TwoStep(y - 1);
      Rotate(Two(x), Two(y - 1), 2.0);
    } else if y < 0 {
      TwoSplit(x, y + 1);
      TwoStep(x + y);
      TwoStep(y);
      Rotate(Two(x), Two(y), 2.0);
    }
  }

  lemma TenStep(e: int)
    ensures Ten(e + 1) == 10.0 * Ten(e)
  {
  }

  lemma {:induction false} TenSplit(x: int, y: int)
    ensures Ten(x + y) == Ten(x) * Ten(y)
    decreases if y < 0 then -y else y
  {
    if y > 0 {
      TenSplit(x, y - 1);
      TenStep(x + y - 1);
      TenStep(y - 1);
      Rotate(Ten(x), Ten(y - 1), 10.0);
    } else if y < 0 {
      TenSplit(x, y + 1);
      TenStep(x + y);
      TenStep(y);
      Rotate(Ten(x), Ten(y), 10.0);
    }
  }

  lemma Rotate(x: real, y: real, b: real)
    ensures x * (b * y) == b * (x * y)
  {
  }

  // ---- The error of a scaled word ------------------------------------------------------------

  lemma Sandwich(a: real, lo: real, t: real, hi: real)
    requires a >= 0.0 && lo <= t <= hi
    ensures a * lo <= a * t <= a * hi
  {
  }

  /** Scaling c units of b by a gives c units of a b. */
  lemma ScaleUnits(c: int, a: real, b: real, ab: real)
    requires ab == a * b
    ensures a * Many(c, b) == Many(c, ab)
  {
    ManyIs(c, b);
    ManyIs(c, ab);
    Rotate(a, b, c as real);
  }

  /** Half a unit stays half a unit: h is half of a b. */
  lemma AccuracyScales(c: nat, a: real, b: real, t: real, ab: real, at: real, h: real)
    requires a > 0.0 && ab == a * b && at == a * t && h + h == ab && Many(c, b) - b / 2.0 <= t <= Many(c, b) + b / 2.0
    ensures Many(2 * c - 1, h) <= at <= Many(2 * c + 1, h)
  {
    Sandwich(a, Many(c, b) - b / 2.0, t, Many(c, b) + b / 2.0);
    ScaleUnits(c, a, b, ab);
    HalfSteps(c, h);
    Spread(a, Many(c, b), b / 2.0);
  }

  lemma Spread(a: real, x: real, y: real)
    ensures a * (x - y) == a * x - a * y && a * (x + y) == a * x + a * y
  {
  }

  lemma HalfSteps(c: int, h: real)
    ensures Many(2 * c - 1, h) == Many(c, h + h) - h && Many(2 * c + 1, h) == Many(c, h + h) + h
  {
    ManyOfMany(c, 2, h);
    assert Many(2, h) == h + h;
    ManySum(2 * c, -1, h);
    ManySum(2 * c, 1, h);
    ManyIs(-1, h);
    ManyIs(1, h);
  }

  /** The rounded product's neighbours, in half units of the last place of the full product. */
  lemma RoundedEnds(u: nat, c: nat, m: int)
    requires u < TWO64 && c > 0 && m == 2 * TWO64
    ensures var r := MulRound(u, c);
            (r - 1) * m < Times(u, 2 * c - 1) && Times(u, 2 * c + 1) < (r + 1) * m
  {
    TimesSumRight(u, c, c - 1);
    TimesSumRight(u, c, c + 1);
    TimesSumRight(u, c - 1, 1);
    TimesSumRight(u, c, 1);
    TimesIs(u, 1);
  }

  lemma WordBetween(u: nat, c: nat, at: real, top: real, h: real, m: int)
    requires u < TWO64 && 0 < c && h > 0.0 && m == 2 * TWO64 && top == Many(m, h)
    requires Many(2 * c - 1, h) <= at <= Many(2 * c + 1, h)
    ensures var r := MulRound(u, c);
            Many(r - 1, top) < Many(u, at) < Many(r + 1, top)
  {
    var r := MulRound(u, c);
    ManyMonotone(u, Many(2 * c - 1, h), at);
    ManyMonotone(u, at, Many(2 * c + 1, h));
    ManyTimes(u, 2 * c - 1, h);
    ManyTimes(u, 2 * c + 1, h);
    RoundedEnds(u, c, m);
    ManyOrder(Times(u, 2 * c - 1), (r - 1) * m, h);
    ManyOrder((r + 1) * m, Times(u, 2 * c + 1), h);
    ManyOfMany(r - 1, m, h);
    ManyOfMany(r + 1, m, h);
  }

  lemma ProductUnits(x: int, y: int, e: int)
    requires e == x + y + 64
    ensures Two(x) > 0.0 && Two(e - 65) > 0.0
    ensures Two(e - 64) == Two(x) * Two(y)
    ensures Two(e - 65) + Two(e - 65) == Two(e - 64)
  {
    TwoPositive(x);
    TwoPositive(e - 65);
    TwoSplit(x, y);
    TwoStep(e - 65);
  }

  lemma WordUnits(e: int, m: int)
    requires m == 2 * TWO64
    ensures Two(e) == Many(m, Two(e - 65))
  {
    TwoMany(e - 65, 65);
    Pow2Values();
    assert Pow2(65) == 2 * Pow2(64);
  }

  /**
   * A word u with unit 2^ue, scaled by a power within half a unit of 10^k: the rounded product
   * is less than one unit away from u exact units of 2^ue 10^k.
   */
  lemma ProductError(u: nat, ue: int, c: Fp, k: int, e: int, unit: real)
    requires u < TWO64 && 0 < c.frac && e == ue + c.exp + 64 && unit == Two(ue) * Ten(k)
    requires Value(c) - Two(c.exp) / 2.0 <= Ten(k) <= Value(c) + Two(c.exp) / 2.0
    ensures var r := MulRound(u, c.frac);
            Many(r - 1, Two(e)) < Many(u, unit) < Many(r + 1, Two(e))
  {
    var m: int :| m == 2 * TWO64;
    TwoPositive(e - 65);
    WordUnits(e, m);
    UnitAccuracy(ue, c, k, e, unit);
    WordBetween(u, c.frac, unit, Two(e), Two(e - 65), m);
  }

  /** The unit 2^ue 10^k in half units of 2^(ue + c.exp). */
  lemma UnitAccuracy(ue: int, c: Fp, k: int, e: int, unit: real)
    requires e == ue + c.exp + 64 && unit == Two(ue) * Ten(k)
    requires Value(c) - Two(c.exp) / 2.0 <= Ten(k) <= Value(c) + Two(c.exp) / 2.0
    ensures Many(2 * c.frac - 1, Two(e - 65)) <= unit <= Many(2 * c.frac + 1, Two(e - 65))
  {
    ProductUnits(ue, c.exp, e);
    AccuracyScales(c.frac, Two(ue), Two(c.exp), Ten(k), Two(e - 64), unit, Two(e - 65));
  }

  // ---- From words back to decimals ------------------------------------------------------------

  /** d * 10^k */
  ghost function Decimal(d: int, k: int): real { Many(d, Ten(k)) }

  /** 2^shift units of 2^-shift, and 10^j units of 10^-j, make one. */
  lemma OneIsUnit(shift: nat)
    ensures Many(Pow2(shift), Two(-(shift as int))) == 1.0 && Two(-(shift as int)) > 0.0
  {
    TwoMany(-(shift as int), shift);
    TwoPositive(-(shift as int));
  }

  lemma TenthPower(j: nat)
    ensures Many(Pow10(j), Ten(-(j as int))) == 1.0 && Ten(-(j as int)) > 0.0
  {
    TenShift(-(j as int), j);
    ManyIs(Pow10(j), Ten(-(j as int)));
    TenPositive(-(j as int));
  }

  lemma WholeTen(kappa: nat)
    ensures Ten(kappa) == Many(Pow10(kappa), 1.0)
  {
    TenShift(0, kappa);
    ManyIs(Pow10(kappa), 1.0);
  }

  lemma {:induction false} ManySplit(x: int, r: real, s: real)
    ensures Many(x, r + s) == Many(x, r) + Many(x, s)
    decreases if x < 0 then -x else x
  {
    if x > 0 {
      ManySplit(x - 1, r, s);
    } else if x < 0 {
      ManySplit(x + 1, r, s);
    }
  }

  lemma {:induction false} ManyTimes(x: int, q: nat, t: real)
    ensures Many(Times(x, q), t) == Many(x, Many(q, t))
  {
    if q == 0 {
      ManyIs(x, 0.0);
    } else {
      ManyTimes(x, q - 1, t);
      ManySum(Times(x, q - 1), x, t);
      ManySplit(x, Many(q - 1, t), t);
    }
  }

  lemma WholeUnits(d: int, p: nat, q: nat, t: real, unit: nat)
    requires Many(q, t) == 1.0 && unit == Times(p, q)
    ensures Many(Times(d, unit), t) == Many(d, Many(p, 1.0))
  {
    ManyTimes(d, unit, t);
    ManyTimes(p, q, t);
  }

  lemma OrderedMany(lower: int, x: int, upper: int, t: real)
    requires lower <= x <= upper && t > 0.0
    ensures Many(lower, t) <= Many(x, t) <= Many(upper, t)
  {
    ManyOrder(lower, x, t);
    ManyOrder(x, upper, t);
  }

  lemma DecimalOfUnits(d: int, kappa: nat, shift: nat, unit: nat)
    requires unit == Times(Pow10(kappa), Pow2(shift))
    ensures Many(Times(d, unit), Two(-(shift as int))) == Decimal(d, kappa)
  {
    OneIsUnit(shift);
    WholeTen(kappa);
    WholeUnits(d, Pow10(kappa), Pow2(shift), Two(-(shift as int)), unit);
  }

  /** d * 10^e lies in the interval, and no other number of that exponent in there is closer to w. */
  ghost predicate NearestDecimal(lower: real, w: real, upper: real, e: int, d: int) {
    && lower <= Decimal(d, e) <= upper
    && forall x: int | lower <= Decimal(x, e) <= upper :: Distance(Decimal(d, e), w) <= Distance(Decimal(x, e), w)
  }

  /** No number of this exponent lies above lower and not above upper. */
  ghost predicate NoDecimal(lower: real, upper: real, e: int) {
    forall x: int :: !(lower < Decimal(x, e) <= upper)
  }

  /** Numbers of units, in copies of r. */
  ghost predicate UnitsAre(unit: nat, r: real, e: int) {
    r > 0.0 && forall x: int :: Many(Times(x, unit), r) == Decimal(x, e)
  }

  lemma CopiesApart(a: int, b: int, r: real)
    requires r > 0.0
    ensures Distance(Many(a, r), Many(b, r)) == Many(Abs(a - b), r)
  {
    ManyOrder(a, b, r);
    ManySum(a - b, b, r);
    ManySum(b - a, a, r);
  }

  lemma CloserCopies(a: int, b: int, w: int, r: real)
    requires r > 0.0 && Abs(a - w) <= Abs(b - w)
    ensures Distance(Many(a, r), Many(w, r)) <= Distance(Many(b, r), Many(w, r))
  {
    CopiesApart(a, w, r);
    CopiesApart(b, w, r);
    ManyOrder(Abs(a - w), Abs(b - w), r);
  }

  /** What holds of the integers generate_digits works with holds of the numbers they stand for. */
  lemma NearestInUnits(lower: int, w: int, upper: int, unit: nat, d: int, r: real, e: int)
    requires UnitsAre(unit, r, e) && NearestWithin(lower, w, upper, unit, d)
    ensures NearestDecimal(Many(lower, r), Many(w, r), Many(upper, r), e, d)
  {
    assert Many(Times(d, unit), r) == Decimal(d, e);
    OrderedMany(lower, Times(d, unit), upper, r);
    forall x: int | Many(lower, r) <= Decimal(x, e) <= Many(upper, r)
      ensures Distance(Decimal(d, e), Many(w, r)) <= Distance(Decimal(x, e), Many(w, r))
    {
      assert Many(Times(x, unit), r) == Decimal(x, e);
      ManyOrder(lower, Times(x, unit), r);
      ManyOrder(Times(x, unit), upper, r);
      CloserCopies(Times(d, unit), Times(x, unit), w, r);
    }
  }

  lemma NoneInUnits(lower: int, upper: int, unit: nat, r: real, e: int)
    requires UnitsAre(unit, r, e) && NoneIn(lower, upper, unit)
    ensures NoDecimal(Many(lower, r), Many(upper, r), e)
  {
    forall x: int ensures !(Many(lower, r) < Decimal(x, e) <= Many(upper, r)) {
      assert Many(Times(x, unit), r) == Decimal(x, e);
      ManyOrder(Times(x, unit), lower, r);
      ManyOrder(Times(x, unit), upper, r);
      assert !(lower < Times(x, unit) <= upper);
    }
  }

  lemma WholeUnitsAre(kappa: nat, shift: nat, unit: nat)
    requires unit == Times(Pow10(kappa), Pow2(shift))
    ensures UnitsAre(unit, Two(-(shift as int)), kappa)
  {
    TwoPositive(-(shift as int));
    forall x: int ensures Many(Times(x, unit), Two(-(shift as int))) == Decimal(x, kappa) {
      DecimalOfUnits(x, kappa, shift, unit);
    }
  }

  lemma TenthUnitsAre(j: nat, shift: nat, r: real)
    requires r > 0.0 && Many(Pow2(shift), r) == Ten(-(j as int))
    ensures UnitsAre(Pow2(shift), r, -(j as int))
  {
    forall x: int ensures Many(Times(x, Pow2(shift)), r) == Decimal(x, -(j as int)) {
      ManyTimes(x, Pow2(shift), r);
    }
  }

  /** The three words and the number generate_digits forms of them, as numbers. */
  ghost predicate Printed(lower: nat, w: nat, upper: nat, shift: nat, e: int, d: int) {
    var r := Two(-(shift as int));
    && NearestDecimal(Many(lower, r), Many(w, r), Many(upper, r), e, d)
    && NoDecimal(Many(lower, r), Many(upper, r), e + 1)
  }

  /** From the integral part. */
  lemma WholePrinted(lower: nat, w: nat, upper: nat, kappa: nat, shift: nat, ds: seq<char>)
    requires lower <= w <= upper && IntegralDone(upper, upper - lower, upper - w, ds, kappa, Pow2(shift))
    ensures Printed(lower, w, upper, shift, kappa, Number(ds))
  {
    var unit, more := Times(Pow10(kappa), Pow2(shift)), Times(Pow10(kappa + 1), Pow2(shift));
    WholeUnitsAre(kappa, shift, unit);
    WholeUnitsAre(kappa + 1, shift, more);
    NearestInUnits(lower, w, upper, unit, Number(ds), Two(-(shift as int)), kappa);
    NoneInUnits(lower, upper, more, Two(-(shift as int)), kappa + 1);
  }

  lemma ScaledCopies(x: int, j: nat, r: real, t: real)
    requires Many(Pow10(j), r) == t
    ensures Many(Times(x, Pow10(j)), r) == Many(x, t)
  {
    ManyTimes(x, Pow10(j), r);
  }

  /** A number that reaches into the fractional part. */
  lemma TenthsNearest(lower: nat, w: nat, upper: nat, j: nat, shift: nat, d: int)
    requires lower <= w <= upper && NearestAt(upper, upper - lower, upper - w, j, Pow2(shift), d)
    ensures var t := Two(-(shift as int)); NearestDecimal(Many(lower, t), Many(w, t), Many(upper, t), -(j as int), d)
  {
    var r := SharedUnit(j, shift);
    var t := Two(-(shift as int));
    TenthUnitsAre(j, shift, r);
    TimesDifference(upper, lower, Pow10(j));
    TimesDifference(upper, w, Pow10(j));
    NearestInUnits(Times(lower, Pow10(j)), Times(w, Pow10(j)), Times(upper, Pow10(j)), Pow2(shift), d, r, -(j as int));
    ScaledCopies(lower, j, r, t);
    ScaledCopies(w, j, r, t);
    ScaledCopies(upper, j, r, t);
  }

  lemma TenthsNone(lower: nat, upper: nat, j: nat, shift: nat)
    requires lower <= upper && NoneAt(upper, upper - lower, j, Pow2(shift))
    ensures NoDecimal(Many(lower, Two(-(shift as int))), Many(upper, Two(-(shift as int))), -(j as int))
  {
    var r := SharedUnit(j, shift);
    var t := Two(-(shift as int));
    TenthUnitsAre(j, shift, r);
    TimesDifference(upper, lower, Pow10(j));
    NoneInUnits(Times(lower, Pow10(j)), Times(upper, Pow10(j)), Pow2(shift), r, -(j as int));
    ScaledCopies(lower, j, r, t);
    ScaledCopies(upper, j, r, t);
  }

  lemma TenthsPrinted(lower: nat, w: nat, upper: nat, j: nat, shift: nat, ds: seq<char>)
    requires lower <= w <= upper && FractionalDone(upper, upper - lower, upper - w, ds, j, Pow2(shift))
    ensures Printed(lower, w, upper, shift, -(j as int), Number(ds))
  {
    TenthsNearest(lower, w, upper, j, shift, Number(ds));
    TenthsNone(lower, upper, j - 1, shift);
  }

  /** If p copies of s make one, p copies of t s make t. */
  lemma CopiesOfProduct(p: nat, s: real, t: real, r: real)
    requires Many(p, s) == 1.0 && r == t * s
    ensures Many(p, r) == t
  {
    ManyIs(p, s);
    ManyIs(p, r);
    assert p as real * (t * s) == t * (p as real * s);
  }

  /** 2^-shift 10^-j, of which 10^j copies make 2^-shift and 2^shift copies make 10^-j. */
  lemma SharedUnit(j: nat, shift: nat) returns (r: real)
    ensures r > 0.0
    ensures Many(Pow10(j), r) == Two(-(shift as int)) && Many(Pow2(shift), r) == Ten(-(j as int))
  {
    OneIsUnit(shift);
    TenthPower(j);
    r := PositiveProduct(Two(-(shift as int)), Ten(-(j as int)));
    CopiesOfProduct(Pow10(j), Ten(-(j as int)), Two(-(shift as int)), r);
    CopiesOfProduct(Pow2(shift), Two(-(shift as int)), Ten(-(j as int)), r);
  }

  lemma PositiveProduct(t: real, s: real) returns (r: real)
    requires t > 0.0 && s > 0.0
    ensures r > 0.0 && r == t * s && r == s * t
  {
    r := t * s;
  }

  lemma TimesDifference(a: int, b: int, k: nat)
    ensures Times(a - b, k) == Times(a, k) - Times(b, k)
  {
    TimesSum(a - b, b, k);
  }

  // ---- The three scaled words -------------------------------------------------------------------

  lemma TenToSeventeen()
    ensures Pow10(17) == 100000000000000000
  {
    assert Pow10(8) == 100000000;
    assert Pow10(17) == 1000000000 * Pow10(8);
  }

  /** After scaling and narrowing by one unit at each end, the interval is proper and not too thin. */
  lemma ScaledWords(f: nat, c: nat)
    requires 0 < f < 2 * HIDDEN_BIT && TWO63 <= c
    ensures var l, w, u := MulRound(LowerWord(f), c), MulRound(Shl(f, WordShift(f) + 1), c), MulRound(UpperWord(f), c);
            l >= 0 && l + 256 <= w && w + 512 <= u
  {
    WordGaps(f);
    GapSurvives(Shl(f, WordShift(f) + 1), LowerWord(f), 256, c);
    GapSurvives(UpperWord(f), Shl(f, WordShift(f) + 1), 512, c);
    TimesNat(LowerWord(f), c);
  }

  lemma WideEnough(u: nat, width: nat)
    requires u < TWO64 && width >= 766
    ensures Wide(u, width)
  {
    TenToSeventeen();
    TimesIs(width, Pow10(17));
  }

  lemma CachedPowerHalfUnit(i: nat)
    requires i < NPOWERS
    ensures TWO63 <= PowersTen()[i].frac < TWO64
    ensures var c := PowersTen()[i];
            Value(c) - Two(c.exp) / 2.0 <= Ten(DecimalExponent(i)) <= Value(c) + Two(c.exp) / 2.0
  {
    CachedPowersAccurate(i);
  }

  // ---- How near and how short ---------------------------------------------------------------------

  /** No number of this exponent lies between. */
  ghost predicate NoneBetween(lower: real, upper: real, e: int) {
    forall x: int :: Decimal(x, e) < lower || Decimal(x, e) > upper
  }

  /** Of the numbers with this exponent in between, none is nearer to v than d is, by the slack. */
  ghost predicate NearlyNearest(lower: real, v: real, upper: real, slack: real, k: int, d: int) {
    forall x: int | lower <= Decimal(x, k) <= upper :: Distance(Decimal(d, k), v) < Distance(Decimal(x, k), v) + slack
  }

  /**
   * eps is a unit of the scaled words undone: a tiny part of the rounding interval.  Of the numbers with
   * the printed exponent in the interval narrowed by two units at each end, none is nearer to the double
   * by two units; and none there has a larger exponent.
   */
  ghost predicate ShortAndNear(lower: real, v: real, upper: real, eps: real, k: int, d: int) {
    && 0.0 < eps && 766.0 * eps < upper - lower
    && NearlyNearest(lower + 2.0 * eps, v, upper - 2.0 * eps, 2.0 * eps, k, d)
    && NoneBetween(lower + 2.0 * eps, upper - 2.0 * eps, k + 1)
  }

  ghost predicate Marked(g: real) { true }

  /** y is x * g; the product is out of sight until g is marked. */
  ghost predicate Scaled(x: real, y: real, g: real) {
    forall h | Marked(h) && h == g :: y == x * h
  }

  lemma ScaledIs(x: real, y: real, g: real)
    ensures Scaled(x, y, g) <==> y == x * g
  {
    assert Marked(g);
  }

  lemma PositiveTimes(x: real, g: real)
    requires g > 0.0
    ensures x > 0.0 <==> x * g > 0.0
  {
    assert x > 0.0 ==> x * g > 0.0;
    assert x <= 0.0 ==> x * g <= 0.0;
  }

  lemma ScaledDifference(x: real, xg: real, y: real, yg: real, g: real)
    requires Scaled(x, xg, g) && Scaled(y, yg, g)
    ensures Scaled(x - y, xg - yg, g)
  {
    ScaledIs(x, xg, g);
    ScaledIs(y, yg, g);
    assert (x - y) * g == x * g - y * g;
    ScaledIs(x - y, xg - yg, g);
  }

  lemma ScaledSum(x: real, xg: real, y: real, yg: real, g: real)
    requires Scaled(x, xg, g) && Scaled(y, yg, g)
    ensures Scaled(x + y, xg + yg, g)
  {
    ScaledIs(x, xg, g);
    ScaledIs(y, yg, g);
    assert (x + y) * g == x * g + y * g;
    ScaledIs(x + y, xg + yg, g);
  }

  lemma ScaledSign(x: real, xg: real, g: real)
    requires g > 0.0 && Scaled(x, xg, g)
    ensures x > 0.0 <==> xg > 0.0
  {
    ScaledIs(x, xg, g);
    PositiveTimes(x, g);
  }

  lemma ScaledOrder(x: real, xg: real, y: real, yg: real, g: real)
    requires g > 0.0 && Scaled(x, xg, g) && Scaled(y, yg, g)
    ensures (x < y <==> xg < yg) && (y < x <==> yg < xg)
  {
    ScaledDifference(x, xg, y, yg, g);
    ScaledDifference(y, yg, x, xg, g);
    ScaledSign(x - y, xg - yg, g);
    ScaledSign(y - x, yg - xg, g);
  }

  lemma ScaledDistance(x: real, xg: real, y: real, yg: real, g: real)
    requires g > 0.0 && Scaled(x, xg, g) && Scaled(y, yg, g)
    ensures Scaled(Distance(x, y), Distance(xg, yg), g)
  {
    ScaledOrder(x, xg, y, yg, g);
    ScaledDifference(x, xg, y, yg, g);
    ScaledDifference(y, yg, x, xg, g);
  }

  lemma ScaledTwice(x: real, xg: real, g: real)
    requires Scaled(x, xg, g)
    ensures Scaled(2.0 * x, 2.0 * xg, g)
  {
    ScaledSum(x, xg, x, xg, g);
    assert x + x == 2.0 * x && xg + xg == 2.0 * xg;
  }

  lemma ScaledOften(x: real, xg: real, g: real)
    requires Scaled(x, xg, g)
    ensures Scaled(766.0 * x, 766.0 * xg, g)
  {
    ScaledIs(x, xg, g);
    assert (766.0 * x) * g == 766.0 * (x * g);
    ScaledIs(766.0 * x, 766.0 * xg, g);
  }

  lemma ManyScaled(n: int, x: real, y: real, g: real)
    requires Scaled(x, y, g)
    ensures Scaled(Many(n, x), Many(n, y), g)
  {
    ScaledIs(x, y, g);
    ScaleUnits(n, g, x, y);
    ScaledIs(Many(n, x), Many(n, y), g);
  }

  lemma TenScaled(k: int, power: int, e: int)
    requires e == k + power
    ensures Scaled(Ten(k), Ten(e), Ten(power))
  {
    TenSplit(k, power);
    ScaledIs(Ten(k), Ten(e), Ten(power));
  }

  lemma DecimalScaled(x: int, k: int, power: int, e: int)
    requires e == k + power
    ensures Scaled(Decimal(x, k), Decimal(x, e), Ten(power))
  {
    TenScaled(k, power, e);
    ManyScaled(x, Ten(k), Ten(e), Ten(power));
  }

  lemma OneAround(r: int, t: real)
    ensures Many(r - 1, t) == Many(r, t) - t && Many(r + 1, t) == Many(r, t) + t
  {
    ManySum(r - 1, 1, t);
    ManySum(r, 1, t);
    ManyIs(1, t);
  }

  /**
   * A double with the ends of its interval, all three times g, and the three words: l and u are those of the
   * ends, narrowed by a unit t, which is eps times g.
   */
  datatype Scaling = Scaling(g: real, eps: real, t: real, lower: real, lg: real, l: real, v: real, vg: real, w: real,
    upper: real, ug: real, u: real)

  /** How far each word may be from what it stands for, and how far apart the ends are. */
  ghost predicate Around(s: Scaling) {
    && s.g > 0.0 && s.t > 0.0 && Scaled(s.eps, s.t, s.g)
    && Scaled(s.lower, s.lg, s.g) && Scaled(s.v, s.vg, s.g) && Scaled(s.upper, s.ug, s.g)
    && s.l - 2.0 * s.t < s.lg < s.l && s.u < s.ug < s.u + 2.0 * s.t
    && s.w - s.t < s.vg < s.w + s.t && s.l + 766.0 * s.t <= s.u
  }

  lemma PointWithin(s: Scaling, p: real, pg: real)
    requires Around(s) && Scaled(p, pg, s.g) && s.lower + 2.0 * s.eps <= p <= s.upper - 2.0 * s.eps
    ensures s.l < pg < s.u
  {
    ScaledTwice(s.eps, s.t, s.g);
    ScaledSum(s.lower, s.lg, 2.0 * s.eps, 2.0 * s.t, s.g);
    ScaledDifference(s.upper, s.ug, 2.0 * s.eps, 2.0 * s.t, s.g);
    ScaledOrder(p, pg, s.lower + 2.0 * s.eps, s.lg + 2.0 * s.t, s.g);
    ScaledOrder(s.upper - 2.0 * s.eps, s.ug - 2.0 * s.t, p, pg, s.g);
  }

  /** Nearer to the scaled word than another number is nearer to the double too, but for the error of the word. */
  lemma PointNearer(s: Scaling, p: real, pg: real, q: real, qg: real)
    requires Around(s) && Scaled(p, pg, s.g) && Scaled(q, qg, s.g) && Distance(pg, s.w) <= Distance(qg, s.w)
    ensures Distance(p, s.v) < Distance(q, s.v) + 2.0 * s.eps
  {
    ScaledDistance(p, pg, s.v, s.vg, s.g);
    ScaledDistance(q, qg, s.v, s.vg, s.g);
    ScaledTwice(s.eps, s.t, s.g);
    ScaledSum(Distance(q, s.v), Distance(qg, s.vg), 2.0 * s.eps, 2.0 * s.t, s.g);
    ErrorTwice(pg, qg, s.vg, s.w, s.t);
    ScaledOrder(Distance(p, s.v), Distance(pg, s.vg), Distance(q, s.v) + 2.0 * s.eps,
      Distance(qg, s.vg) + 2.0 * s.t, s.g);
  }

  lemma ErrorTwice(p: real, q: real, v: real, w: real, t: real)
    requires w - t < v < w + t && Distance(p, w) <= Distance(q, w)
    ensures Distance(p, v) < Distance(q, v) + 2.0 * t
  {
  }

  /** What lies between the narrowed words is strictly inside the interval. */
  lemma PointInside(s: Scaling, p: real, pg: real)
    requires Around(s) && Scaled(p, pg, s.g) && s.l <= pg <= s.u
    ensures s.lower < p < s.upper
  {
    ScaledOrder(s.lower, s.lg, p, pg, s.g);
    ScaledOrder(p, pg, s.upper, s.ug, s.g);
  }

  lemma EpsSmall(s: Scaling)
    requires Around(s)
    ensures 0.0 < s.eps && 766.0 * s.eps < s.upper - s.lower
  {
    ScaledSign(s.eps, s.t, s.g);
    ScaledOften(s.eps, s.t, s.g);
    ScaledDifference(s.upper, s.ug, s.lower, s.lg, s.g);
    ScaledOrder(766.0 * s.eps, 766.0 * s.t, s.upper - s.lower, s.ug - s.lg, s.g);
  }

  lemma UnscaledNear(s: Scaling, power: int, k: int, e: int, d: int)
    requires Around(s) && s.g == Ten(power) && e == k + power && NearestDecimal(s.l, s.w, s.u, e, d)
    ensures NearlyNearest(s.lower + 2.0 * s.eps, s.v, s.upper - 2.0 * s.eps, 2.0 * s.eps, k, d)
  {
    DecimalScaled(d, k, power, e);
    forall x: int | s.lower + 2.0 * s.eps <= Decimal(x, k) <= s.upper - 2.0 * s.eps
      ensures Distance(Decimal(d, k), s.v) < Distance(Decimal(x, k), s.v) + 2.0 * s.eps
    {
      DecimalScaled(x, k, power, e);
      PointWithin(s, Decimal(x, k), Decimal(x, e));
      PointNearer(s, Decimal(d, k), Decimal(d, e), Decimal(x, k), Decimal(x, e));
    }
  }

  lemma UnscaledNone(s: Scaling, power: int, k: int, e: int)
    requires Around(s) && s.g == Ten(power) && e == k + power && NoDecimal(s.l, s.u, e)
    ensures NoneBetween(s.lower + 2.0 * s.eps, s.upper - 2.0 * s.eps, k)
  {
    forall x: int ensures Decimal(x, k) < s.lower + 2.0 * s.eps || Decimal(x, k) > s.upper - 2.0 * s.eps {
      DecimalScaled(x, k, power, e);
      assert !(s.l < Decimal(x, e) <= s.u);
      if s.lower + 2.0 * s.eps <= Decimal(x, k) <= s.upper - 2.0 * s.eps {
        PointWithin(s, Decimal(x, k), Decimal(x, e));
      }
    }
  }

  /** The rounded product and the exact word times 10^k. */
  lemma ScaledWord(u: nat, ue: int, c: Fp, k: int, e: int) returns (xg: real)
    requires u < TWO64 && 0 < c.frac && e == ue + c.exp + 64
    requires Value(c) - Two(c.exp) / 2.0 <= Ten(k) <= Value(c) + Two(c.exp) / 2.0
    ensures Scaled(Many(u, Two(ue)), xg, Ten(k))
    ensures var r := MulRound(u, c.frac); Many(r, Two(e)) - Two(e) < xg < Many(r, Two(e)) + Two(e)
  {
    var unit := Two(ue) * Ten(k);
    ProductError(u, ue, c, k, e, unit);
    ScaledIs(Two(ue), unit, Ten(k));
    ManyScaled(u, Two(ue), unit, Ten(k));
    xg := Many(u, unit);
    OneAround(MulRound(u, c.frac), Two(e));
  }

  lemma WordIsValue(v: Fp)
    requires 0 < v.frac < 2 * HIDDEN_BIT
    ensures Value(v) == Many(Shl(v.frac, WordShift(v.frac) + 1), Two(v.exp - 1 - WordShift(v.frac)))
  {
    ShlMany(v.frac, v.exp - 1 - WordShift(v.frac), WordShift(v.frac) + 1);
  }

  lemma WordsApart(l: int, u: int, t: real)
    requires t > 0.0 && l + 768 <= u
    ensures Many(l + 1, t) == Many(l, t) + t && Many(u - 1, t) == Many(u, t) - t
    ensures Many(l + 1, t) + 766.0 * t <= Many(u - 1, t)
  {
    OneAround(l, t);
    OneAround(u, t);
    ManySum(l + 1, 766, t);
    ManyIs(766, t);
    ManyOrder(l + 767, u - 1, t);
  }

  lemma ScalingPrints(s: Scaling, power: int, k: int, d: int)
    requires Around(s) && s.g == Ten(power)
    requires NearestDecimal(s.l, s.w, s.u, k + power, d) && NoDecimal(s.l, s.u, k + power + 1)
    ensures s.lower < Decimal(d, k) < s.upper && ShortAndNear(s.lower, s.v, s.upper, s.eps, k, d)
  {
    DecimalScaled(d, k, power, k + power);
    PointInside(s, Decimal(d, k), Decimal(d, k + power));
    EpsSmall(s);
    UnscaledNear(s, power, k, k + power, d);
    UnscaledNone(s, power, k + 1, k + power + 1);
  }

  /** The words of a double and what they stand for. */
  ghost predicate ScalingOf(s: Scaling, v: Fp, c: Fp, power: int, e: int)
    requires 0 < v.frac < 2 * HIDDEN_BIT
  {
    && Around(s) && s.g == Ten(power) && s.lower == LowerBound(v) && s.v == Value(v) && s.upper == UpperBound(v)
    && s.l == Many(MulRound(LowerWord(v.frac), c.frac) + 1, Two(e))
    && s.w == Many(MulRound(Shl(v.frac, WordShift(v.frac) + 1), c.frac), Two(e))
    && s.u == Many(MulRound(UpperWord(v.frac), c.frac) - 1, Two(e))
  }

  lemma WordsAround(v: Fp, c: Fp, power: int, e: int) returns (s: Scaling)
    requires 0 < v.frac < 2 * HIDDEN_BIT && UpperWord(v.frac) < TWO64
    requires e == v.exp - 1 - WordShift(v.frac) + c.exp + 64 && TWO63 <= c.frac
    requires Value(c) - Two(c.exp) / 2.0 <= Ten(power) <= Value(c) + Two(c.exp) / 2.0
    ensures ScalingOf(s, v, c, power, e)
  {
    var ue, t, g := v.exp - 1 - WordShift(v.frac), Two(e), Ten(power);
    WordsAreBounds(v);
    WordIsValue(v);
    WordGaps(v.frac);
    var lg := ScaledWord(LowerWord(v.frac), ue, c, power, e);
    var vg := ScaledWord(Shl(v.frac, WordShift(v.frac) + 1), ue, c, power, e);
    var ug := ScaledWord(UpperWord(v.frac), ue, c, power, e);
    var l, u := MulRound(LowerWord(v.frac), c.frac), MulRound(UpperWord(v.frac), c.frac);
    var w := Many(MulRound(Shl(v.frac, WordShift(v.frac) + 1), c.frac), t);
    TwoPositive(e);
    TenPositive(power);
    ScaledWords(v.frac, c.frac);
    WordsApart(l, u, t);
    var eps := Unscaled(t, g);
    s := Scaling(g, eps, t, LowerBound(v), lg, Many(l + 1, t), Value(v), vg, w, UpperBound(v), ug, Many(u - 1, t));
  }

  lemma Unscaled(t: real, g: real) returns (eps: real)
    requires g > 0.0
    ensures Scaled(eps, t, g)
  {
    eps := t / g;
    ScaledIs(eps, t, g);
  }

  /** The number printed from the scaled words is strictly inside the rounding interval, short and near. */
  lemma PrintedUnscaled(v: Fp, c: Fp, power: int, e: int, k: int, d: int) returns (eps: real)
    requires 0 < v.frac < 2 * HIDDEN_BIT && UpperWord(v.frac) < TWO64 && e <= 0
    requires e == v.exp - 1 - WordShift(v.frac) + c.exp + 64 && TWO63 <= c.frac
    requires Value(c) - Two(c.exp) / 2.0 <= Ten(power) <= Value(c) + Two(c.exp) / 2.0
    requires var l, u := MulRound(LowerWord(v.frac), c.frac) + 1, MulRound(UpperWord(v.frac), c.frac) - 1;
             var w := MulRound(Shl(v.frac, WordShift(v.frac) + 1), c.frac);
             0 <= l && 0 <= w && 0 <= u && Printed(l, w, u, -e, k + power, d)
    ensures LowerBound(v) < Decimal(d, k) < UpperBound(v)
    ensures ShortAndNear(LowerBound(v), Value(v), UpperBound(v), eps, k, d)
  {
    var s := WordsAround(v, c, power, e);
    eps := s.eps;
    ScalingPrints(s, power, k, d);
  }

  // ---- grisu2 -----------------------------------------------------------------------------------------

  /** The second half of grisu2: scale the three words, narrow the interval and print digits. */
  method ScaleAndGenerate(v: Fp, w0: Fp, lower0: Fp, upper0: Fp, c: Fp, power: int, digits: array<char>)
    returns (n: nat, k: int, ghost eps: real)
    requires 0 < v.frac < 2 * HIDDEN_BIT && digits.Length >= 18
    requires upper0 == Fp(UpperWord(v.frac), v.exp - 1 - WordShift(v.frac)) && upper0.frac < TWO64
    requires lower0 == Fp(LowerWord(v.frac), upper0.exp)
    requires w0 == Fp(Shl(v.frac, WordShift(v.frac) + 1), upper0.exp)
    requires TWO63 <= c.frac < TWO64 && -60 <= upper0.exp + c.exp + 64 <= -32
    requires Value(c) - Two(c.exp) / 2.0 <= Ten(power) <= Value(c) + Two(c.exp) / 2.0
    modifies digits
    ensures 0 < n <= 18 && AllDigits(digits[..n])
    ensures LowerBound(v) < Decimal(Number(digits[..n]), k) < UpperBound(v)
    ensures ShortAndNear(LowerBound(v), Value(v), UpperBound(v), eps, k, Number(digits[..n]))
  {
    WordGaps(v.frac);
    var w := Scale(w0, c);
    var upper := Scale(upper0, c);
    var lower := Scale(lower0, c);
    ScaledWords(v.frac, c.frac);
    var l, u := lower.frac + 1, upper.frac - 1;
    n, k := DigitsBetween(w.frac, u, l, -upper.exp, digits, -power);
    eps := PrintedUnscaled(v, c, power, upper.exp, k, Number(digits[..n]));
  }

  /** generate_digits, with its result read as a decimal between the two words, the nearest one to w. */
  method DigitsBetween(w: nat, upper: nat, lower: nat, shift: nat, digits: array<char>, k0: int)
    returns (n: nat, k: int)
    requires 32 <= shift <= 60 && digits.Length >= 18
    requires 0 < lower <= w <= upper < TWO64 && upper - lower >= 766
    modifies digits
    ensures 0 < n <= 18 && AllDigits(digits[..n])
    ensures Printed(lower, w, upper, shift, k - k0, Number(digits[..n]))
  {
    WideEnough(upper, upper - lower);
    n, k := GenerateDigits(w, upper, lower, shift, digits, k0);
    if k >= k0 {
      WholePrinted(lower, w, upper, k - k0, shift, digits[..n]);
    } else {
      TenthsPrinted(lower, w, upper, k0 - k, shift, digits[..n]);
    }
  }

  /** Every other double, of either sign, is farther from x than v is. */
  ghost predicate ReadsBackAs(x: real, v: Fp) {
    forall other: Fp | IsDouble(other) ::
      && (Value(other) != Value(v) ==> Distance(x, Value(v)) < Distance(x, Value(other)))
      && Distance(x, Value(v)) < Distance(x, -Value(other))
  }

  lemma InsideReadsBackAs(v: Fp, x: real)
    requires IsDouble(v) && v.frac > 0 && LowerBound(v) < x < UpperBound(v)
    ensures ReadsBackAs(x, v)
  {
    forall other: Fp | IsDouble(other)
      ensures Value(other) != Value(v) ==> Distance(x, Value(v)) < Distance(x, Value(other))
      ensures Distance(x, Value(v)) < Distance(x, -Value(other))
    {
      InsideReadsBack(v, x, other);
    }
  }

  /** grisu2 on a decoded double. */
  method PrintFp(v: Fp, digits: array<char>, slip: real) returns (n: nat, k: int, ghost eps: real)
    requires IsDouble(v) && v.frac > 0 && digits.Length >= 18 && -1.0 <= slip <= 1.0
    modifies digits
    ensures 0 < n <= 18 && AllDigits(digits[..n])
    ensures LowerBound(v) < Decimal(Number(digits[..n]), k) < UpperBound(v)
    ensures ShortAndNear(LowerBound(v), Value(v), UpperBound(v), eps, k, Number(digits[..n]))
  {
    NormShiftBound(v.frac);
    var lower, upper := GetNormalizedBoundaries(v);
    var w := Normalize(v);
    PowersTenGraded();
    var idx := FindCachedPow10(upper.exp, PowersTen(), slip);
    CachedPowerHalfUnit(idx);
    n, k, eps := ScaleAndGenerate(v, w, lower, upper, PowersTen()[idx], DecimalExponent(idx), digits);
  }

  /**
   * grisu2: for every finite non-zero double, between 1 and 18 digits and an exponent whose
   * number lies strictly inside the double's rounding interval, so that it reads back as it.
   * That holds for whatever rounding (slip) adds to the product that the search for a power starts from.
   */
  method Grisu2(bits: nat, digits: array<char>, slip: real) returns (n: nat, k: int, ghost eps: real)
    requires bits < TWO64 && IsFinite(bits) && BuildFp(bits).frac > 0 && digits.Length >= 18 && -1.0 <= slip <= 1.0
    modifies digits
    ensures 0 < n <= 18 && AllDigits(digits[..n])
    ensures LowerBound(BuildFp(bits)) < Decimal(Number(digits[..n]), k) < UpperBound(BuildFp(bits))
    ensures ReadsBackAs(Decimal(Number(digits[..n]), k), BuildFp(bits))
    ensures var v := BuildFp(bits);
            ShortAndNear(LowerBound(v), Value(v), UpperBound(v), eps, k, Number(digits[..n]))
  {
    var v := BuildFp(bits);
    BuildFpDecodes(bits, Fp(0, -1074));
    n, k, eps := PrintFp(v, digits, slip);
    InsideReadsBackAs(v, Decimal(Number(digits[..n]), k));
  }

  const ZERO: int := -1
  const INFINITE: int := -2
  const NOT_A_NUMBER: int := -3

  /** A magnitude of no bits is zero, and only that. */
  lemma ZeroBits(bits: nat)
    requires bits < TWO64
    ensures BuildFp(bits).frac == 0 <==> bits % TWO63 == 0
  {
    var q := bits / HIDDEN_BIT;
    assert bits == q * HIDDEN_BIT + bits % HIDDEN_BIT;
    assert q == q / 2048 * 2048 + q % 2048;
  }

  /** fpconv_grisu2: the sign apart, and a code for what has no digits. */
  method FpconvGrisu2(bits: nat, digits: array<char>, slip: real)
    returns (r: int, k: int, negative: bool, ghost eps: real)
    requires bits < TWO64 && digits.Length >= 18 && -1.0 <= slip <= 1.0
    modifies digits
    ensures negative <==> bits >= TWO63
    ensures r == ZERO <==> BuildFp(bits).frac == 0
    ensures r == NOT_A_NUMBER <==> !IsFinite(bits) && bits % HIDDEN_BIT != 0
    ensures r == INFINITE <==> !IsFinite(bits) && bits % HIDDEN_BIT == 0
    ensures IsFinite(bits) && BuildFp(bits).frac > 0 ==>
              0 < r <= 18 && AllDigits(digits[..r]) && ReadsBackAs(Decimal(Number(digits[..r]), k), BuildFp(bits))
    ensures IsFinite(bits) && BuildFp(bits).frac > 0 ==>
              var v := BuildFp(bits); ShortAndNear(LowerBound(v), Value(v), UpperBound(v), eps, k, Number(digits[..r]))
  {
    ZeroBits(bits);
    k, negative, eps := 0, bits / TWO63 % 2 != 0, 0.0;
    if bits % TWO63 == 0 {
      return ZERO, k, negative, eps;
    }
    if (bits / HIDDEN_BIT) % 2048 == 2047 {
      return if bits % HIDDEN_BIT != 0 then NOT_A_NUMBER else INFINITE, k, negative, eps;
    }
    r, k, eps := Grisu2(bits, digits, slip);
  }
}
