// contrib/fpconv/fpconv.c: decoding a double, its rounding interval, the scaled product and
// grisu2.  The main result is that the digits printed read back as the same double.
module Grisu {
  import opened Common
  import opened GrisuPowers
  import opened GrisuDigits

  const HIDDEN_BIT: nat := 0x10_0000_0000_0000
  const TWO32: nat := 0x1_0000_0000

  // ---- Doubles ------------------------------------------------------------------------

  /** build_fp: the binary64 layout of section 3.4 of IEEE 754-2008, without the sign. */
  function BuildFp(bits: nat): Fp
    requires bits < TWO64
  {
    var frac := bits % HIDDEN_BIT;
    var e := (bits / HIDDEN_BIT) % 2048;
    if e != 0 then Fp(frac + HIDDEN_BIT, e - 1075) else Fp(frac, -1074)
  }

  predicate IsFinite(bits: nat) { (bits / HIDDEN_BIT) % 2048 != 2047 }

  /** The magnitudes of finite doubles: normal ones, and subnormal ones including zero. */
  predicate IsDouble(fp: Fp) {
    || (HIDDEN_BIT <= fp.frac < 2 * HIDDEN_BIT && -1074 <= fp.exp <= 971)
    || (fp.frac < HIDDEN_BIT && fp.exp == -1074)
  }

  function Encode(fp: Fp): (bits: nat)
    requires IsDouble(fp)
    ensures bits < TWO64 && IsFinite(bits)
  {
    if fp.frac < HIDDEN_BIT then fp.frac else (fp.exp + 1075) * HIDDEN_BIT + (fp.frac - HIDDEN_BIT)
  }

  /** Decoding yields exactly the finite doubles. */
  lemma BuildFpDecodes(bits: nat, fp: Fp)
    requires bits < TWO64 && IsFinite(bits) && IsDouble(fp)
    ensures IsDouble(BuildFp(bits))
    ensures BuildFp(Encode(fp)) == fp
  {
  }

  // ---- The rounding interval ------------------------------------------------------------

  /** Half way to the next larger double. */
  ghost function UpperBound(fp: Fp): real {
    Many(2 * fp.frac + 1, Two(fp.exp - 1))
  }

  /** Half way to the next smaller double; at a power of two that one is half as far away. */
  ghost function LowerBound(fp: Fp): real {
    if fp.frac == HIDDEN_BIT then Many(4 * fp.frac - 1, Two(fp.exp - 2)) else Many(2 * fp.frac - 1, Two(fp.exp - 1))
  }

  /** A double in half and in quarter units of its last place. */
  lemma ValueInUnits(v: Fp)
    ensures Value(v) == Many(2 * v.frac, Two(v.exp - 1)) && Value(v) == Many(4 * v.frac, Two(v.exp - 2))
  {
    ManyShift(v.frac, v.exp - 1, 1);
    ManyShift(v.frac, v.exp - 2, 2);
    assert Pow2(1) == 2 && Pow2(2) == 4;
  }

  /** A double with a smaller exponent is below every normal double with the larger one. */
  lemma SmallerExponent(v: Fp, x: Fp)
    requires IsDouble(v) && IsDouble(x) && x.exp < v.exp
    ensures Value(x) <= Many(2 * HIDDEN_BIT - 1, Two(v.exp - 1))
  {
    var n, m := v.exp - 1 - x.exp, 2 * HIDDEN_BIT - 1;
    ManyShift(m, x.exp, n);
    TwoPositive(x.exp);
    AtLeastItself(m, Pow2(n));
    ManyOrder(x.frac, m * Pow2(n), Two(x.exp));
  }

  lemma AtLeastItself(a: nat, b: nat)
    requires b >= 1
    ensures a <= a * b
  {
  }

  /** With an exponent at least v's, a double is a whole number of v's units. */
  lemma LargerExponent(v: Fp, x: Fp)
    requires x.exp >= v.exp
    ensures Value(x) == Many(x.frac * Pow2(x.exp - v.exp), Two(v.exp))
  {
    ManyShift(x.frac, v.exp, x.exp - v.exp);
  }

  /** The next larger double is at least twice as far away as the interval's upper end. */
  lemma NeighbourAbove(v: Fp, x: Fp)
    requires IsDouble(v) && IsDouble(x) && Value(x) > Value(v)
    ensures Value(x) - Value(v) >= 2.0 * (UpperBound(v) - Value(v))
  {
    var half := Two(v.exp - 1);
    TwoPositive(v.exp - 1);
    TwoPositive(v.exp);
    ValueInUnits(v);
    ManySum(2 * v.frac, 1, half);
    if x.exp >= v.exp {
      var f := x.frac * Pow2(x.exp - v.exp);
      LargerExponent(v, x);
      ManyOrder(f, v.frac, Two(v.exp));
      ManyOrder(v.frac + 1, f, Two(v.exp));
      ManySum(v.frac, 1, Two(v.exp));
      assert Two(v.exp) == 2.0 * half;
    } else {
      SmallerExponent(v, x);
      ManyOrder(2 * HIDDEN_BIT - 1, 2 * v.frac, half);
      assert false;
    }
  }

  /** The next smaller double is at least twice as far away as the interval's lower end. */
  lemma NeighbourBelow(v: Fp, x: Fp)
    requires IsDouble(v) && IsDouble(x) && Value(x) < Value(v)
    ensures Value(v) - Value(x) >= 2.0 * (Value(v) - LowerBound(v))
  {
    var half := Two(v.exp - 1);
    TwoPositive(v.exp - 2);
    TwoPositive(v.exp - 1);
    TwoPositive(v.exp);
    ValueInUnits(v);
    ManySum(2 * v.frac, -1, half);
    ManySum(4 * v.frac, -1, Two(v.exp - 2));
    assert Two(v.exp) == 2.0 * half && half == 2.0 * Two(v.exp - 2);
    if x.exp >= v.exp {
      var f := x.frac * Pow2(x.exp - v.exp);
      LargerExponent(v, x);
      ManyOrder(v.frac, f, Two(v.exp));
      ManyOrder(f, v.frac - 1, Two(v.exp));
      ManySum(v.frac, -1, Two(v.exp));
    } else {
      SmallerExponent(v, x);
      if v.frac == HIDDEN_BIT {
        ManySum(2 * HIDDEN_BIT, -1, half);
      } else {
        ManyOrder(2 * HIDDEN_BIT - 1, 2 * v.frac - 2, half);
        ManySum(2 * v.frac, -2, half);
      }
    }
  }

  lemma OneUnit(f: nat, e: int)
    ensures Many(f + 1, Two(e)) == Many(f, Two(e)) + Two(e)
  {
  }

  /** The upper end is half way to a double, unless this is the largest one. */
  lemma UpperMidway(v: Fp) returns (x: Fp)
    requires IsDouble(v) && !(v.frac == 2 * HIDDEN_BIT - 1 && v.exp == 971)
    ensures IsDouble(x) && Value(v) < Value(x) && Value(v) + Value(x) == 2.0 * UpperBound(v)
  {
    x := if v.frac + 1 == 2 * HIDDEN_BIT then Fp(HIDDEN_BIT, v.exp + 1) else Fp(v.frac + 1, v.exp);
    ManyShift(HIDDEN_BIT, v.exp, 1);
    assert Pow2(1) == 2;
    TwoPositive(v.exp);
    OneUnit(v.frac, v.exp);
    ValueInUnits(v);
    OneUnit(2 * v.frac, v.exp - 1);
    assert Two(v.exp) == 2.0 * Two(v.exp - 1);
  }

  /**
   * The lower end is half way to the next smaller double, unless this is the smallest normal one: for that the
   * spacing stays the same below, but get_normalized_boundaries takes it to be half.
   */
  lemma LowerMidway(v: Fp) returns (x: Fp)
    requires IsDouble(v) && v.frac > 0
    ensures IsDouble(x) && Value(x) < Value(v)
    ensures Value(x) + Value(v) == 2.0 * LowerBound(v) <==> !(v.frac == HIDDEN_BIT && v.exp == -1074)
  {
    var e := v.exp;
    TwoPositive(e);
    ValueInUnits(v);
    assert Two(e) == 2.0 * Two(e - 1) && Two(e - 1) == 2.0 * Two(e - 2);
    if v.frac == HIDDEN_BIT && e > -1074 {
      x := Fp(2 * HIDDEN_BIT - 1, e - 1);
      OneUnit(2 * HIDDEN_BIT - 1, e - 1);
      OneUnit(4 * HIDDEN_BIT - 1, e - 2);
    } else {
      x := Fp(v.frac - 1, e);
      OneUnit(v.frac - 1, e);
      OneUnit(2 * v.frac - 1, e - 1);
      OneUnit(4 * v.frac - 1, e - 2);
    }
  }

  ghost function Distance(x: real, y: real): real { if x < y then y - x else x - y }

  /** Every number strictly inside v's interval is nearer to v than to any other double. */
  lemma InsideReadsBack(v: Fp, x: real, other: Fp)
    requires IsDouble(v) && v.frac > 0 && IsDouble(other)
    requires LowerBound(v) < x < UpperBound(v)
    ensures Value(other) != Value(v) ==> Distance(x, Value(v)) < Distance(x, Value(other))
    ensures Distance(x, Value(v)) < Distance(x, -Value(other))
  {
    if Value(other) > Value(v) {
      NeighbourAbove(v, other);
    } else if Value(other) < Value(v) {
      NeighbourBelow(v, other);
    }
    var zero := Fp(0, -1074);
    assert Value(zero) == 0.0;
    TwoPositive(v.exp);
    TwoPositive(other.exp);
    ManyPositive(v.frac, Two(v.exp));
    ManyPositive(other.frac, Two(other.exp));
    NeighbourBelow(v, zero);
  }

  // ---- Left shifts ----------------------------------------------------------------------

  /** f << n */
  function Shl(f: nat, n: nat): nat {
    if n == 0 then f else 2 * Shl(f, n - 1)
  }

  lemma {:induction false} ShlAdd(f: nat, a: nat, b: nat)
    ensures Shl(Shl(f, a), b) == Shl(f, a + b)
  {
    if b > 0 {
      ShlAdd(f, a, b - 1);
    }
  }

  lemma {:induction false} ShlSum(f: nat, g: nat, n: nat)
    ensures Shl(f + g, n) == Shl(f, n) + Shl(g, n)
  {
    if n > 0 {
      ShlSum(f, g, n - 1);
    }
  }

  lemma {:induction false} ShlOrder(f: nat, g: nat, n: nat)
    ensures f <= g <==> Shl(f, n) <= Shl(g, n)
  {
    if n > 0 {
      ShlOrder(f, g, n - 1);
    }
  }

  lemma {:induction false} ShlOne(n: nat)
    ensures Shl(1, n) == Pow2(n)
  {
    if n > 0 {
      ShlOne(n - 1);
    }
  }

  lemma ShlTen(f: nat)
    ensures Shl(f, 10) == 1024 * f && Shl(f, 11) == 2048 * f
  {
    assert Shl(f, 1) == 2 * f;
    assert Shl(f, 3) == 8 * f;
    assert Shl(f, 4) == 16 * f;
    assert Shl(f, 6) == 64 * f;
    assert Shl(f, 8) == 256 * f;
    assert Shl(f, 10) == 1024 * f;
  }

  lemma {:induction false} ShlMany(f: nat, e: int, n: nat)
    ensures Many(Shl(f, n), Two(e)) == Many(f, Two(e + n))
    decreases n
  {
    if n > 0 {
      ShlMany(f, e + 1, n - 1);
      ManyShift(Shl(f, n - 1), e, 1);
      assert Pow2(1) == 2;
    }
  }

  // ---- Normalisation ----------------------------------------------------------------------

  /** How far a 53-bit word must be shifted until its top bit is the hidden bit. */
  function NormShift(f: nat): nat
    requires 0 < f < 2 * HIDDEN_BIT
    decreases 2 * HIDDEN_BIT - f
  {
    if f >= HIDDEN_BIT then 0 else 1 + NormShift(2 * f)
  }

  predicate BitClear(x: nat, bit: nat)
    requires bit > 0
  {
    (x / bit) % 2 == 0
  }

  lemma {:induction false} NormShiftFits(f: nat)
    requires 0 < f < 2 * HIDDEN_BIT
    ensures HIDDEN_BIT <= Shl(f, NormShift(f)) < 2 * HIDDEN_BIT
    decreases 2 * HIDDEN_BIT - f
  {
    if f < HIDDEN_BIT {
      NormShiftFits(2 * f);
      ShlAdd(f, 1, NormShift(2 * f));
      assert Shl(f, 1) == 2 * f;
    }
  }

  /** The shift that takes a double's fraction to half the top of a 64-bit word. */
  function WordShift(f: nat): nat
    requires 0 < f < 2 * HIDDEN_BIT
  {
    NormShift(f) + 10
  }

  /** normalize: shift up to the hidden bit, then to the top of the word. */
  method Normalize(fp: Fp) returns (r: Fp)
    requires 0 < fp.frac < 2 * HIDDEN_BIT
    ensures r == Fp(Shl(fp.frac, WordShift(fp.frac) + 1), fp.exp - WordShift(fp.frac) - 1)
    ensures TWO63 <= r.frac < TWO64
  {
    var frac, e := fp.frac, fp.exp;
    ghost var i := 0;
    while BitClear(frac, HIDDEN_BIT)
      invariant 0 < frac < 2 * HIDDEN_BIT && frac == Shl(fp.frac, i) && e == fp.exp - i
      invariant NormShift(fp.frac) == i + NormShift(frac)
      decreases NormShift(frac)
    {
      frac, e := 2 * frac, e - 1;
      i := i + 1;
    }
    ShlAdd(fp.frac, i, 11);
    ShlTen(frac);
    r := Fp(Shl(frac, 11), e - 11);
  }

  lemma {:induction false} NormShiftAtMost(f: nat, k: nat)
    requires 0 < f < 2 * HIDDEN_BIT && Shl(f, k) >= HIDDEN_BIT
    ensures NormShift(f) <= k
    decreases k
  {
    if f < HIDDEN_BIT {
      ShlAdd(f, 1, k - 1);
      assert Shl(f, 1) == 2 * f;
      NormShiftAtMost(2 * f, k - 1);
    }
  }

  lemma NormShiftBound(f: nat)
    requires 0 < f < 2 * HIDDEN_BIT
    ensures NormShift(f) <= 52
  {
    ShlOne(52);
    Pow2Values();
    ShlOrder(1, f, 52);
    NormShiftAtMost(f, 52);
  }

  /** The odd word 2f + 1 reaches its top bit with f: a shifted f below it leaves room for the last bit. */
  lemma TopBitTogether(f: nat, i: nat)
    requires i <= 52
    ensures Shl(f, i) < HIDDEN_BIT ==> Shl(2 * f + 1, i) < 2 * HIDDEN_BIT
    ensures Shl(f, i) >= HIDDEN_BIT ==> Shl(2 * f + 1, i) >= 2 * HIDDEN_BIT
  {
    ShlOne(i);
    ShlOne(52);
    ShlOne(52 - i);
    Pow2Values();
    ShlAdd(1, 52 - i, i);
    var top := Shl(1, 52 - i);
    ShlSum(2 * f, 1, i);
    ShlSum(f, f, i);
    ShlSum(f, 1, i);
    ShlOrder(top, f, i);
    ShlOrder(f + 1, top, i);
  }

  /** The words get_normalized_boundaries computes, as shifts of the fraction. */
  function UpperWord(f: nat): nat
    requires 0 < f < 2 * HIDDEN_BIT
  {
    Shl(2 * f + 1, WordShift(f))
  }

  function LowerWord(f: nat): nat
    requires 0 < f < 2 * HIDDEN_BIT
  {
    LowerShift(f, WordShift(f), f == HIDDEN_BIT)
  }

  /** One less than twice (at a power of two, four times) the fraction, shifted to the same place. */
  function LowerShift(f: nat, s: nat, power: bool): nat
    requires 0 < f && 0 < s
  {
    if power then Shl(4 * f - 1, s - 1) else Shl(2 * f - 1, s)
  }

  /** The state of the loop for the upper boundary after i shifts. */
  ghost predicate UpperLoop(f: nat, i: nat)
    requires 0 < f < 2 * HIDDEN_BIT
  {
    0 < Shl(f, i) < 2 * HIDDEN_BIT && NormShift(f) == i + NormShift(Shl(f, i))
  }

  lemma UpperLoopStep(f: nat, i: nat)
    requires 0 < f < 2 * HIDDEN_BIT && UpperLoop(f, i)
    ensures Shl(2 * f + 1, i) < 4 * HIDDEN_BIT
    ensures Shl(2 * f + 1, i) < 2 * HIDDEN_BIT ==> UpperLoop(f, i + 1)
    ensures Shl(2 * f + 1, i) >= 2 * HIDDEN_BIT ==> i == NormShift(f)
  {
    NormShiftBound(f);
    TopBitTogether(f, i);
    UpperWordFits(f, i);
  }

  lemma UpperWordFits(f: nat, i: nat)
    requires i <= 52 && Shl(f, i) < 2 * HIDDEN_BIT
    ensures Shl(2 * f + 1, i) < 4 * HIDDEN_BIT
  {
    ShlOne(i);
    ShlOne(53);
    ShlOne(53 - i);
    Pow2Values();
    ShlAdd(1, 53 - i, i);
    var top := Shl(1, 53 - i);
    ShlSum(2 * f, 1, i);
    ShlSum(f, f, i);
    ShlSum(f, 1, i);
    ShlOrder(top, f, i);
    ShlOrder(f + 1, top, i);
  }

  /** The loop and shift for the upper boundary. */
  method NormalizedUpper(fp: Fp) returns (upper: Fp)
    requires 0 < fp.frac < 2 * HIDDEN_BIT
    ensures upper == Fp(UpperWord(fp.frac), fp.exp - 1 - WordShift(fp.frac))
    ensures TWO63 <= upper.frac < TWO64
  {
    var frac, e := 2 * fp.frac + 1, fp.exp - 1;
    ghost var i := 0;
    UpperLoopStep(fp.frac, 0);
    while BitClear(frac, 2 * HIDDEN_BIT)
      invariant frac == Shl(2 * fp.frac + 1, i) && e == fp.exp - 1 - i
      invariant frac < 4 * HIDDEN_BIT && UpperLoop(fp.frac, i)
      decreases NormShift(fp.frac) - i
    {
      UpperLoopStep(fp.frac, i);
      frac, e := 2 * frac, e - 1;
      i := i + 1;
      UpperLoopStep(fp.frac, i);
    }
    UpperLoopStep(fp.frac, i);
    ShlAdd(2 * fp.frac + 1, i, 10);
    ShlTen(frac);
    upper := Fp(Shl(frac, 10), e - 10);
  }

  /** Shifts by one and by two bits. */
  lemma ShlTwice(f: nat)
    ensures Shl(f, 1) == 2 * f && Shl(f, 2) == 4 * f
  {
    assert Shl(f, 1) == 2 * Shl(f, 0);
    assert Shl(f, 2) == 2 * Shl(f, 1);
  }

  /** get_normalized_boundaries: both boundaries with the upper one's exponent. */
  method GetNormalizedBoundaries(fp: Fp) returns (lower: Fp, upper: Fp)
    requires 0 < fp.frac < 2 * HIDDEN_BIT
    ensures upper == Fp(UpperWord(fp.frac), fp.exp - 1 - WordShift(fp.frac))
    ensures lower == Fp(LowerWord(fp.frac), upper.exp)
    ensures TWO63 <= upper.frac < TWO64
    ensures Value(upper) == UpperBound(fp) && Value(lower) == LowerBound(fp)
  {
    upper := NormalizedUpper(fp);
    lower := NormalizedLower(fp, upper.exp);
    WordsAreBounds(fp);
  }

  /** The lower boundary, brought to the upper one's exponent. */
  method NormalizedLower(fp: Fp, e: int) returns (lower: Fp)
    requires 0 < fp.frac < 2 * HIDDEN_BIT && e == fp.exp - 1 - WordShift(fp.frac)
    ensures lower == Fp(LowerWord(fp.frac), e)
  {
    var lShift := if fp.frac == HIDDEN_BIT then 2 else 1;
    ShlTwice(fp.frac);
    lower := Fp(Shl(fp.frac, lShift) - 1, fp.exp - lShift);
    lower := Fp(Shl(lower.frac, lower.exp - e), e);
  }

  /** The shifted words denote the ends of the rounding interval. */
  lemma WordsAreBounds(fp: Fp)
    requires 0 < fp.frac < 2 * HIDDEN_BIT
    ensures UpperBound(fp) == Value(Fp(UpperWord(fp.frac), fp.exp - 1 - WordShift(fp.frac)))
    ensures LowerBound(fp) == Value(Fp(LowerWord(fp.frac), fp.exp - 1 - WordShift(fp.frac)))
  {
    UpperWordIsBound(fp);
    LowerWordIsBound(fp);
  }

  lemma UpperWordIsBound(fp: Fp)
    requires 0 < fp.frac < 2 * HIDDEN_BIT
    ensures UpperBound(fp) == Value(Fp(UpperWord(fp.frac), fp.exp - 1 - WordShift(fp.frac)))
  {
    ShlMany(2 * fp.frac + 1, fp.exp - 1 - WordShift(fp.frac), WordShift(fp.frac));
  }

  lemma LowerWordIsBound(fp: Fp)
    requires 0 < fp.frac < 2 * HIDDEN_BIT
    ensures LowerBound(fp) == Value(Fp(LowerWord(fp.frac), fp.exp - 1 - WordShift(fp.frac)))
  {
    LowerShiftMany(fp.frac, fp.exp, WordShift(fp.frac), fp.frac == HIDDEN_BIT);
  }

  lemma LowerShiftMany(f: nat, exp: int, s: nat, power: bool)
    requires 0 < f && 0 < s
    ensures Many(LowerShift(f, s, power), Two(exp - 1 - s)) == if power then Many(4 * f - 1, Two(exp - 2))
            else Many(2 * f - 1, Two(exp - 1))
  {
    if power {
      ShlMany(4 * f - 1, exp - 1 - s, s - 1);
    } else {
      ShlMany(2 * f - 1, exp - 1 - s, s);
    }
  }

  /** How far apart the three words are: at least 512 below w and 1024 above it. */
  lemma WordGaps(f: nat)
    requires 0 < f < 2 * HIDDEN_BIT
    ensures var w := Shl(f, WordShift(f) + 1);
            LowerWord(f) + 512 <= w && w + 1024 <= UpperWord(f)
  {
    var s := WordShift(f);
    GapUnit(NormShift(f));
    WordAsDouble(f, s);
    ShlSum(2 * f, 1, s);
    if f == HIDDEN_BIT {
      ShlSum(4 * f - 1, 1, s - 1);
    } else {
      ShlSum(2 * f - 1, 1, s);
    }
  }

  lemma GapUnit(n: nat)
    ensures Shl(1, n + 10) >= 1024 && Shl(1, n + 9) >= 512
  {
    ShlTen(1);
    ShlOne(n);
    ShlOrder(1, Shl(1, n), 10);
    ShlAdd(1, n, 10);
    assert Shl(1, n + 10) == 2 * Shl(1, n + 9);
  }

  lemma WordAsDouble(f: nat, s: nat)
    requires s > 0
    ensures Shl(f, s + 1) == Shl(2 * f, s) && Shl(f, s + 1) == Shl(4 * f, s - 1)
  {
    ShlAdd(f, 1, s);
    ShlAdd(f, 2, s - 1);
    assert Shl(f, 1) == 2 * f && Shl(f, 2) == 4 * f;
  }

  // ---- The rounded product ------------------------------------------------------------------

  /** The additions of multiply on its four 64-bit products, each taken modulo 2^64. */
  function UpperSum(ahbh: nat, ahbl: nat, albh: nat, albl: nat): nat {
    var tmp := (ahbl % TWO32 + albh % TWO32 + albl / TWO32 + 0x8000_0000) % TWO64;
    (ahbh + ahbl / TWO32 + albh / TWO32 + tmp / TWO32) % TWO64
  }

  /** multiply: four products of 32-bit halves, taken modulo 2^64, and the rounded upper word. */
  function Multiply(a: Fp, b: Fp): Fp {
    var ah, al := a.frac / TWO32, a.frac % TWO32;
    var bh, bl := b.frac / TWO32, b.frac % TWO32;
    Fp(UpperSum(ah * bh % TWO64, ah * bl % TWO64, al * bh % TWO64, al * bl % TWO64), a.exp + b.exp + 64)
  }

  /** The upper word of the exact product a * b, rounded to nearest with halves up. */
  ghost function MulRound(a: nat, b: nat): int {
    (Times(a, b) + TWO63) / TWO64
  }

  lemma MulLe(a: nat, b: nat, c: nat)
    requires a <= b
    ensures a * c <= b * c
  {
  }

  lemma ProductBound(a: nat, b: nat, m: nat)
    requires a <= m && b <= m
    ensures a * b <= m * m
  {
    MulLe(a, m, b);
    MulLe(b, m, m);
  }

  lemma SchoolProduct(ah: nat, al: nat, bh: nat, bl: nat)
    ensures (ah * TWO32 + al) * (bh * TWO32 + bl) == (ah * bh) * TWO64 + (ah * bl + al * bh) * TWO32 + al * bl
  {
    assert (ah * TWO32) * (bh * TWO32) == (ah * bh) * TWO64;
    assert (ah * TWO32) * bl == (ah * bl) * TWO32;
    assert al * (bh * TWO32) == (al * bh) * TWO32;
  }

  lemma UpperSumRounds(hh: nat, hl: nat, lh: nat, ll: nat, product: nat)
    requires product == hh * TWO64 + (hl + lh) * TWO32 + ll
    requires product <= (TWO64 - 1) * (TWO64 - 1) && ll < TWO64
    ensures UpperSum(hh, hl, lh, ll) == (product + TWO63) / TWO64 < TWO64
  {
    var sum := hh + hl / TWO32 + lh / TWO32 + (hl % TWO32 + lh % TWO32 + ll / TWO32 + 0x8000_0000) / TWO32;
    assert (product + TWO63) / TWO64 == sum;
  }

  /** multiply rounds the exact product correctly, for all words; nothing wraps around. */
  lemma MultiplyRounds(a: Fp, b: Fp)
    requires a.frac < TWO64 && b.frac < TWO64
    ensures Multiply(a, b) == Fp((a.frac * b.frac + TWO63) / TWO64, a.exp + b.exp + 64)
    ensures Multiply(a, b).frac < TWO64
  {
    var ah, al := a.frac / TWO32, a.frac % TWO32;
    var bh, bl := b.frac / TWO32, b.frac % TWO32;
    HalvesProduct(ah, bh);
    HalvesProduct(ah, bl);
    HalvesProduct(al, bh);
    HalvesProduct(al, bl);
    SchoolProduct(ah, al, bh, bl);
    ProductBound(a.frac, b.frac, TWO64 - 1);
    assert a.frac == ah * TWO32 + al && b.frac == bh * TWO32 + bl;
    UpperSumRounds(ah * bh, ah * bl, al * bh, al * bl, a.frac * b.frac);
  }

  lemma HalvesProduct(x: nat, y: nat)
    requires x < TWO32 && y < TWO32
    ensures x * y % TWO64 == x * y && x * y < TWO64
  {
    ProductBound(x, y, TWO32 - 1);
  }

  method Scale(a: Fp, b: Fp) returns (r: Fp)
    requires a.frac < TWO64 && b.frac < TWO64
    ensures r.frac == MulRound(a.frac, b.frac) && r.exp == a.exp + b.exp + 64
    ensures r.frac < TWO64
  {
    MultiplyRounds(a, b);
    TimesIs(a.frac, b.frac);
    r := Multiply(a, b);
  }

  /** Factors at least 2g apart keep rounded products at least g apart. */
  lemma GapSurvives(a: nat, b: nat, g: nat, c: nat)
    requires b + 2 * g <= a && TWO63 <= c
    ensures MulRound(b, c) + g <= MulRound(a, c)
  {
    TimesMonotone(b + 2 * g, a, c);
    TimesSum(b, 2 * g, c);
    TimesIs(2 * g, c);
    assert (2 * g) * c >= (2 * g) * TWO63;
  }

  // ---- The cached power --------------------------------------------------------------------

  /** Truncation toward zero, as a conversion to int does. */
  function Trunc(x: real): int {
    if x >= 0.0 then x.Floor else -((-x).Floor)
  }

  /** The first guess of find_cachedpow10; slip is what rounding adds to the product of doubles. */
  function FirstGuess(exp: int, slip: real): int {
    (Trunc(-((exp + NPOWERS) as real) * 0.30102999566398114 + slip) - FIRST_POWER) / STEP_POWERS
  }

  lemma GuessInTable(exp: int, slip: real)
    requires -1137 <= exp <= 960 && -1.0 <= slip <= 1.0
    ensures 0 <= FirstGuess(exp, slip) < NPOWERS
  {
    var x := -((exp + NPOWERS) as real) * 0.30102999566398114;
    assert -316.0 < x < 317.0;
  }

  function PowersTen(): (table: seq<Fp>)
    ensures |table| == NPOWERS
    ensures forall i | 0 <= i < NPOWERS :: table[i] == PowerTen(i)
  {
    seq(NPOWERS, i requires 0 <= i < NPOWERS => PowerTen(i))
  }

  /** The exponents of the table run from -1220 to 1066 in steps of 26 or 27. */
  ghost predicate Graded(table: seq<Fp>) {
    && |table| == NPOWERS
    && table[0].exp == -1220 && table[NPOWERS - 1].exp == 1066
    && (forall i | 0 <= i < NPOWERS - 1 :: table[i].exp + 26 <= table[i + 1].exp <= table[i].exp + 27)
  }

  lemma PowersTenGraded()
    ensures Graded(PowersTen())
  {
    forall i | 0 <= i < NPOWERS - 1
      ensures PowersTen()[i].exp + 26 <= PowersTen()[i + 1].exp <= PowersTen()[i].exp + 27
    {
      ExponentSteps(i);
    }
  }

  /**
   * find_cachedpow10: an entry that brings the exponent into [-60, -32], however the product of the
   * first guess is rounded.
   */
  method FindCachedPow10(exp: int, table: seq<Fp>, slip: real) returns (idx: nat)
    requires -1137 <= exp <= 960 && Graded(table) && -1.0 <= slip <= 1.0
    ensures idx < NPOWERS
    ensures -60 <= exp + table[idx].exp + 64 <= -32
  {
    GuessInTable(exp, slip);
    idx := WalkPowers(exp, table, FirstGuess(exp, slip));
  }

  /**
   * The walk from any entry of the table.  Entries are at most 27 apart and the window is 29 wide,
   * so it never turns back, and it stays inside the table.
   */
  method WalkPowers(exp: int, table: seq<Fp>, start: nat) returns (idx: nat)
    requires -1137 <= exp <= 960 && Graded(table) && start < NPOWERS
    ensures idx < NPOWERS
    ensures -60 <= exp + table[idx].exp + 64 <= -32
  {
    idx := start;
    ghost var up, down := false, false;
    while true
      invariant idx < NPOWERS && !(up && down)
      invariant up ==> exp + table[idx].exp + 64 <= -32
      invariant down ==> exp + table[idx].exp + 64 >= -60
      decreases if up then NPOWERS - idx else if down then idx else NPOWERS + 1
    {
      var current := exp + table[idx].exp + 64;
      if current < -60 {
        idx := idx + 1;
        up := true;
      } else if current > -32 {
        idx := idx - 1;
        down := true;
      } else {
        return;
      }
    }
  }
}
