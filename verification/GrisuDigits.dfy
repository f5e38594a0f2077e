// Digit generation of contrib/fpconv/fpconv.c: round_digit and generate_digits.  Every product, sum and
// shift is shown to stay below 2^64, so natural numbers stand for uint64_t without wrap-around.
module GrisuDigits {
  import opened Common
  import opened GrisuPowers

  /** The number a digit string denotes. */
  function Number(ds: seq<char>): int {
    if |ds| == 0 then 0 else 10 * Number(ds[..|ds| - 1]) + (ds[|ds| - 1] as int - '0' as int)
  }

  predicate AllDigits(ds: seq<char>) {
    forall i | 0 <= i < |ds| :: '0' <= ds[i] <= '9'
  }

  function Abs(x: int): nat { if x < 0 then -x else x }

  /** tens[i] of the source: 10^(19 - i). */
  function Tens(i: nat): nat
    requires i <= 19
  {
    Pow10(19 - i)
  }

  // ---- round_digit ------------------------------------------------------------------

  /** The remainder after lowering the last digit t times. */
  ghost function Lowered(rem: nat, kappa: nat, t: nat): nat {
    if t == 0 then rem else Lowered(rem, kappa, t - 1) + kappa
  }

  lemma {:induction false} LoweredIs(rem: nat, kappa: nat, t: nat)
    ensures Lowered(rem, kappa, t) == rem + Times(t, kappa)
  {
    TimesIs(t, kappa);
    if t > 0 {
      LoweredIs(rem, kappa, t - 1);
      TimesIs(t - 1, kappa);
      assert (t - 1) * kappa + kappa == t * kappa;
    }
  }

  lemma {:induction false} LoweredGrows(rem: nat, kappa: nat, t: nat, s: nat)
    requires t < s
    ensures Lowered(rem, kappa, t) + kappa <= Lowered(rem, kappa, s)
  {
    if t + 1 < s {
      LoweredGrows(rem, kappa, t, s - 1);
    }
  }

  /** Lowering s times does not come closer to the target than r is, and fewer than t times not as close. */
  ghost predicate NoCloser(rem: nat, kappa: nat, frac: nat, r: nat, t: nat, s: nat) {
    Abs(r - frac) + (if s < t then 1 else 0) <= Abs(Lowered(rem, kappa, s) - frac)
  }

  /** Of all counts that stay in the interval, t comes closest, and is the first to do so. */
  ghost predicate Closest(rem: nat, kappa: nat, delta: nat, frac: nat, t: nat) {
    forall s: nat {:trigger NoCloser(rem, kappa, frac, Lowered(rem, kappa, t), t, s)} | Lowered(rem, kappa, s) <= delta
      :: NoCloser(rem, kappa, frac, Lowered(rem, kappa, t), t, s)
  }

  /** Each of the counts before t was farther away. */
  ghost predicate FirstSoFar(rem: nat, kappa: nat, frac: nat, r: nat, t: nat) {
    forall s: nat {:trigger NoCloser(rem, kappa, frac, r, t, s)} | s < t :: NoCloser(rem, kappa, frac, r, t, s)
  }

  lemma CloserStill(rem: nat, kappa: nat, frac: nat, r: nat, t: nat, r': nat, t': nat)
    requires r == Lowered(rem, kappa, t) && r' == r + kappa && t' == t + 1 && Abs(r' - frac) < Abs(r - frac)
    requires FirstSoFar(rem, kappa, frac, r, t)
    ensures FirstSoFar(rem, kappa, frac, r', t')
  {
    forall s: nat {:trigger NoCloser(rem, kappa, frac, r', t', s)} | s < t'
      ensures NoCloser(rem, kappa, frac, r', t', s)
    {
      if s < t {
        assert NoCloser(rem, kappa, frac, r, t, s);
      }
    }
  }

  lemma ClosestNow(rem: nat, kappa: nat, delta: nat, frac: nat, r: nat, t: nat)
    requires r == Lowered(rem, kappa, t) <= delta && kappa > 0 && FirstSoFar(rem, kappa, frac, r, t)
    requires !(r < frac && delta - r >= kappa && (r + kappa < frac || frac - r > r + kappa - frac))
    ensures Closest(rem, kappa, delta, frac, t)
  {
    forall s: nat {:trigger NoCloser(rem, kappa, frac, r, t, s)} | Lowered(rem, kappa, s) <= delta
      ensures NoCloser(rem, kappa, frac, r, t, s)
    {
      if s > t {
        LoweredGrows(rem, kappa, t, s);
      }
    }
  }

  /**
   * Lower the last digit while that moves the number closer to the target and keeps it in the
   * interval.  The digit never drops below '0', and no admissible step count is closer, nor a smaller one as close.
   */
  method RoundDigit(digits: array<char>, ndigits: nat, delta: nat, rem: nat, kappa: nat, frac: nat)
    returns (ghost t: nat)
    requires 0 < ndigits <= digits.Length && '0' <= digits[ndigits - 1] <= '9'
    requires rem <= delta < TWO64 && 0 < kappa < TWO64 && frac < TWO64
    requires delta <= Lowered(rem, kappa, digits[ndigits - 1] as int - '0' as int)
    modifies digits
    ensures forall i | 0 <= i < digits.Length && i != ndigits - 1 :: digits[i] == old(digits[i])
    ensures '0' <= digits[ndigits - 1] <= '9'
    ensures digits[ndigits - 1] as int == old(digits[ndigits - 1]) as int - t
    ensures Lowered(rem, kappa, t) <= delta && Closest(rem, kappa, delta, frac, t)
  {
    var r := rem;
    t := 0;
    ghost var d := digits[ndigits - 1] as int - '0' as int;
    while r < frac && delta - r >= kappa && (r + kappa < frac || frac - r > r + kappa - frac)
      invariant r == Lowered(rem, kappa, t) && r <= delta && t <= d <= 9
      invariant digits[ndigits - 1] as int == '0' as int + d - t
      invariant forall i | 0 <= i < digits.Length && i != ndigits - 1 :: digits[i] == old(digits[i])
      invariant FirstSoFar(rem, kappa, frac, r, t)
      decreases d - t
    {
      assert r + kappa <= delta < TWO64;
      CloserStill(rem, kappa, frac, r, t, r + kappa, t + 1);
      digits[ndigits - 1] := (digits[ndigits - 1] as int - 1) as char;
      r := r + kappa;
      t := t + 1;
    }
    ClosestNow(rem, kappa, delta, frac, r, t);
  }

  // ---- What digit generation returns --------------------------------------------------

  /** The product a * b as repeated addition, which keeps the solver's reasoning linear. */
  ghost function Times(a: int, b: nat): int {
    if b == 0 then 0 else Times(a, b - 1) + a
  }

  lemma {:induction false} TimesIs(a: int, b: nat)
    ensures Times(a, b) == a * b
  {
    if b > 0 {
      TimesIs(a, b - 1);
      assert a * (b - 1) + a == a * b;
    }
  }

  lemma TimesMonotone(a: int, b: int, k: nat)
    requires a <= b
    ensures Times(a, k) <= Times(b, k)
  {
    TimesIs(a, k);
    TimesIs(b, k);
    assert (b - a) * k >= 0;
  }

  lemma TimesCancel(a: int, b: int, k: nat)
    requires Times(a, k) < Times(b, k)
    ensures a < b
  {
    if a >= b {
      TimesMonotone(b, a, k);
    }
  }

  lemma TimesOrder(a: int, b: int, k: nat)
    requires k > 0 && Times(a, k) <= Times(b, k)
    ensures a <= b
  {
    TimesIs(a, k);
    TimesIs(b, k);
    assert a > b ==> (a - b) * k > 0;
  }

  lemma TimesSum(a: int, b: int, k: nat)
    ensures Times(a + b, k) == Times(a, k) + Times(b, k)
  {
    TimesIs(a, k);
    TimesIs(b, k);
    TimesIs(a + b, k);
  }

  lemma {:induction false} TimesSumRight(a: int, b: nat, c: nat)
    ensures Times(a, b + c) == Times(a, b) + Times(a, c)
  {
    if c > 0 {
      TimesSumRight(a, b, c - 1);
    }
  }

  lemma {:induction false} TimesAssoc(a: int, b: nat, c: nat)
    ensures Times(b, c) >= 0
    ensures Times(Times(a, b), c) == Times(a, Times(b, c))
  {
    TimesNat(b, c);
    if c > 0 {
      TimesAssoc(a, b, c - 1);
      TimesSumRight(a, Times(b, c - 1), b);
    }
  }

  lemma TimesNat(a: nat, b: nat)
    ensures Times(a, b) >= 0
    ensures b > 0 ==> Times(a, b) >= a
  {
    TimesIs(a, b);
    assert b > 0 ==> a * b >= a;
  }

  lemma TimesSwap(a: nat, b: nat)
    ensures Times(a, b) == Times(b, a)
  {
    TimesIs(a, b);
    TimesIs(b, a);
  }

  method Product(a: nat, b: nat) returns (p: nat)
    requires Times(a, b) < TWO64
    ensures p == Times(a, b)
  {
    TimesIs(a, b);
    p := a * b;
  }

  /** Quotient and remainder: x >> n and x & (2^n - 1) for a power of two, / and % for a power of ten. */
  method Split(x: nat, d: nat) returns (q: nat, r: nat)
    requires d > 0 && x < TWO64
    ensures x == Times(q, d) + r && r < d
  {
    q, r := x / d, x % d;
    TimesIs(q, d);
  }

  lemma QuotientDigit(x: nat, d: nat, q: nat, r: nat)
    requires x == Times(q, d) + r && r < d && x < 10 * d
    ensures q < 10
  {
    TimesIs(10, d);
    if q >= 10 {
      TimesMonotone(10, q, d);
    }
  }

  /** d units lie in [lower, upper], and no number of units in there is closer to w, nor a larger one as close. */
  ghost predicate NearestWithin(lower: int, w: int, upper: int, unit: nat, d: int) {
    && lower <= Times(d, unit) <= upper
    && (forall e: int | lower <= Times(e, unit) <= upper ::
          Abs(Times(d, unit) - w) + (if d < e then 1 else 0) <= Abs(Times(e, unit) - w))
  }

  lemma StepsBelow(upper: int, d0: int, d: int, rem: nat, unit: nat)
    requires upper == Times(d0, unit) + rem && d <= d0
    ensures Times(d, unit) == upper - Lowered(rem, unit, d0 - d)
  {
    LoweredIs(rem, unit, d0 - d);
    TimesSum(d, d0 - d, unit);
  }

  lemma UnitsBelow(upper: int, d0: int, e: int, rem: nat, unit: nat)
    requires upper == Times(d0, unit) + rem && rem < unit && Times(e, unit) <= upper
    ensures e <= d0
  {
    TimesSum(d0, 1, unit);
    TimesIs(1, unit);
    TimesCancel(e, d0 + 1, unit);
  }

  /** From the truncated number d0 and the steps round_digit took to the nearest number. */
  lemma RoundedIsNearest(lower: int, w: int, upper: int, unit: nat, d0: int, rem: nat, t: nat)
    requires upper == Times(d0, unit) + rem && rem < unit && w <= upper && lower <= upper
    requires Lowered(rem, unit, t) <= upper - lower && Closest(rem, unit, upper - lower, upper - w, t)
    ensures NearestWithin(lower, w, upper, unit, d0 - t)
  {
    StepsBelow(upper, d0, d0 - t, rem, unit);
    forall e: int | lower <= Times(e, unit) <= upper
      ensures Abs(Times(d0 - t, unit) - w) + (if d0 - t < e then 1 else 0) <= Abs(Times(e, unit) - w)
    {
      RoundedNearer(lower, w, upper, unit, d0, rem, t, e);
    }
  }

  lemma RoundedNearer(lower: int, w: int, upper: int, unit: nat, d0: int, rem: nat, t: nat, e: int)
    requires upper == Times(d0, unit) + rem && rem < unit && w <= upper && lower <= Times(e, unit) <= upper
    requires Closest(rem, unit, upper - lower, upper - w, t)
    ensures Abs(Times(d0 - t, unit) - w) + (if d0 - t < e then 1 else 0) <= Abs(Times(e, unit) - w)
  {
    UnitsBelow(upper, d0, e, rem, unit);
    var s: nat := d0 - e;
    StepsBelow(upper, d0, e, rem, unit);
    assert NoCloser(rem, unit, upper - w, Lowered(rem, unit, t), t, s);
    FewerStepsFarther(w, upper, unit, d0, rem, t, s);
  }

  lemma FewerStepsFarther(w: int, upper: int, unit: nat, d0: int, rem: nat, t: nat, s: nat)
    requires upper == Times(d0, unit) + rem && w <= upper
    requires NoCloser(rem, unit, upper - w, Lowered(rem, unit, t), t, s)
    ensures Abs(Times(d0 - t, unit) - w) + (if s < t then 1 else 0) <= Abs(Times(d0 - s, unit) - w)
  {
    StepsBelow(upper, d0, d0 - t, rem, unit);
    StepsBelow(upper, d0, d0 - s, rem, unit);
  }

  /** No number of units lies above lower and not above upper. */
  ghost predicate NoneIn(lower: int, upper: int, unit: nat) {
    forall x: int :: !(lower < Times(x, unit) <= upper)
  }

  /** Where the rest above a number of units is as wide as the interval, none is in it. */
  lemma NoneAbove(upper: int, delta: int, d: int, unit: nat, rem: nat)
    requires upper == Times(d, unit) + rem && delta <= rem < unit
    ensures NoneIn(upper - delta, upper, unit)
  {
    forall x: int ensures !(upper - delta < Times(x, unit) <= upper) {
      if Times(x, unit) <= upper {
        UnitsBelow(upper, d, x, rem, unit);
        TimesMonotone(x, d, unit);
      }
    }
  }

  // ---- generate_digits ----------------------------------------------------------------

  /** The digits written so far: they denote d, with no leading zero. */
  ghost predicate Written(ds: seq<char>, d: int) {
    && AllDigits(ds)
    && Number(ds) == d
    && (if |ds| == 0 then d == 0 else d >= Pow10(|ds| - 1))
  }

  /** Append a digit, unless it would be a leading zero. */
  method WriteDigit(digits: array<char>, idx: nat, digit: nat, ghost d: int) returns (idx': nat)
    requires digit < 10 && (digit != 0 || idx != 0 ==> idx < digits.Length) && idx <= digits.Length
    requires Written(digits[..idx], d)
    modifies digits
    ensures idx' == if digit != 0 || idx != 0 then idx + 1 else idx
    ensures idx' <= digits.Length && Written(digits[..idx'], 10 * d + digit)
    ensures idx' > 0 ==> digits[idx' - 1] as int == '0' as int + digit
  {
    idx' := idx;
    if digit != 0 || idx != 0 {
      digits[idx] := ('0' as int + digit) as char;
      idx' := idx + 1;
      assert digits[..idx'][..idx] == old(digits[..idx]);
    }
  }

  /** Round the last digit; the number written is then the nearest one in the interval. */
  method RoundWritten(digits: array<char>, n: nat, delta: nat, rem: nat, unit: nat, frac: nat, ghost upper: int,
      ghost d0: int)
    requires 0 < n <= digits.Length && Written(digits[..n], d0)
    requires upper == Times(d0, unit) + rem && rem < unit < TWO64 && rem <= delta < TWO64 && frac < TWO64
    requires delta <= Times(digits[n - 1] as int - '0' as int, unit) + rem
    modifies digits
    ensures AllDigits(digits[..n])
    ensures NearestWithin(upper - delta, upper - frac, upper, unit, Number(digits[..n]))
  {
    ghost var before := digits[..n];
    assert digits[n - 1] == before[n - 1];
    LoweredIs(rem, unit, digits[n - 1] as int - '0' as int);
    ghost var t := RoundDigit(digits, n, delta, rem, unit, frac);
    assert digits[..n][..n - 1] == before[..n - 1];
    assert Number(digits[..n]) == d0 - t;
    RoundedIsNearest(upper - delta, upper - frac, upper, unit, d0, rem, t);
  }

  /** Written digits denote a number that is positive as soon as there is one. */
  lemma WrittenPositive(ds: seq<char>, d: int)
    requires Written(ds, d) && |ds| > 0
    ensures d >= 1
  {
  }

  /** A unit that goes at least once into a word fits one. */
  lemma UnitFits(upper: int, d: int, unit: nat, rem: nat)
    requires upper == Times(d, unit) + rem && d >= 1
    ensures unit <= upper
  {
    TimesMonotone(1, d, unit);
    TimesIs(1, unit);
  }

  /** The number d and the parts left make up the upper bound; p is the weight of d's last digit. */
  ghost predicate Parts(upper: int, d: int, p: nat, part1: nat, part2: nat, one: nat) {
    upper == Times(Times(d, p) + part1, one) + part2 && part1 < p && part2 < one
  }

  /** Moving one digit from the remaining part to the number written. */
  lemma MoveDigit(upper: int, d: int, part1: nat, part2: nat, div: nat, one: nat, digit: nat, rest: nat, unit: nat)
    requires Parts(upper, d, 10 * div, part1, part2, one)
    requires part1 == Times(digit, div) + rest && rest < div && unit == Times(div, one)
    ensures digit < 10
    ensures Parts(upper, 10 * d + digit, div, rest, part2, one)
    ensures upper == Times(10 * d + digit, unit) + (Times(rest, one) + part2)
    ensures Times(part1, one) == Times(digit, unit) + Times(rest, one)
    ensures 0 <= Times(rest, one) && Times(rest, one) + part2 < unit
  {
    QuotientDigit(part1, div, digit, rest);
    TimesIs(d, 10 * div);
    TimesIs(10 * d, div);
    assert d * (10 * div) == (10 * d) * div;
    TimesSum(10 * d, digit, div);
    TimesSum(Times(10 * d + digit, div), rest, one);
    TimesAssoc(10 * d + digit, div, one);
    TimesSum(Times(digit, div), rest, one);
    TimesAssoc(digit, div, one);
    TimesNat(rest, one);
    TimesMonotone(rest + 1, div, one);
    TimesSum(rest, 1, one);
    TimesIs(1, one);
  }

  /** Where the first loop stands: the digits so far, and a rest that is wider than the interval. */
  ghost predicate Integral(upper: nat, delta: nat, ds: seq<char>, d: int, kappa: nat, part1: nat, part2: nat,
      one: nat) {
    && |ds| + kappa <= 10 && Written(ds, d) && Parts(upper, d, Pow10(kappa), part1, part2, one)
    && Times(part1, one) + part2 > delta
  }

  /** The first loop stopped: the digits are the nearest number of units in the interval, and ten units do not fit. */
  ghost predicate IntegralDone(upper: nat, delta: nat, wfrac: nat, ds: seq<char>, kappa: nat, one: nat) {
    && 0 < |ds| <= 10 && AllDigits(ds) && Times(Pow10(kappa), one) >= 0 && Times(Pow10(kappa + 1), one) >= 0
    && NearestWithin(upper - delta, upper - wfrac, upper, Times(Pow10(kappa), one), Number(ds))
    && NoneIn(upper - delta, upper, Times(Pow10(kappa + 1), one))
  }

  lemma IntegralNone(upper: nat, delta: nat, ds: seq<char>, d: int, kappa: nat, part1: nat, part2: nat, one: nat)
    requires Integral(upper, delta, ds, d, kappa, part1, part2, one)
    ensures Times(Pow10(kappa), one) >= 0 && NoneIn(upper - delta, upper, Times(Pow10(kappa), one))
  {
    var p := Pow10(kappa);
    TimesSum(Times(d, p), part1, one);
    TimesAssoc(d, p, one);
    TimesNat(part1, one);
    TimesMonotone(part1 + 1, p, one);
    TimesSum(part1, 1, one);
    TimesIs(1, one);
    NoneAbove(upper, delta, d, Times(p, one), Times(part1, one) + part2);
  }

  /** The first loop ran out: the digits are the whole integral part, and the rest exceeds the interval. */
  ghost predicate IntegralOver(upper: nat, delta: nat, ds: seq<char>, part2: nat, one: nat) {
    Written(ds, Number(ds)) && upper == Times(Number(ds), one) + part2 && delta < part2 < one
  }

  lemma IntegralStarts(upper: nat, delta: nat, p1: nat, part2: nat, one: nat)
    requires upper == Times(p1, one) + part2 && part2 < one && p1 < Pow10(10) && delta < upper
    ensures Integral(upper, delta, [], 0, 10, p1, part2, one)
  {
    TimesIs(0, Pow10(10));
  }

  lemma IntegralEnds(upper: nat, delta: nat, ds: seq<char>, d: int, part1: nat, part2: nat, one: nat)
    requires Integral(upper, delta, ds, d, 0, part1, part2, one)
    ensures IntegralOver(upper, delta, ds, part2, one)
  {
    TimesIs(d, 1);
    TimesIs(0, one);
  }

  /**
   * The first loop of generate_digits: the digits of the integral part, most significant
   * first, until what is left fits the interval.
   */
  method IntegralDigits(digits: array<char>, upper: nat, delta: nat, wfrac: nat, one: nat, p1: nat, part2: nat)
    returns (done: bool, idx: nat, kappa: nat)
    requires digits.Length >= 18 && delta < upper < TWO64 && wfrac <= delta
    requires upper == Times(p1, one) + part2 && part2 < one && p1 < Pow10(10)
    modifies digits
    ensures idx <= 10
    ensures done ==> IntegralDone(upper, delta, wfrac, digits[..idx], kappa, one)
    ensures !done ==> IntegralOver(upper, delta, digits[..idx], part2, one)
  {
    var part1 := p1;
    idx, kappa, done := 0, 10, false;
    ghost var d := 0;
    IntegralStarts(upper, delta, p1, part2, one);
    assert digits[..0] == [];
    while kappa > 0
      invariant idx <= 10 && !done && Integral(upper, delta, digits[..idx], d, kappa, part1, part2, one)
    {
      done, idx, part1, d := IntegralDigit(digits, idx, upper, delta, wfrac, one, kappa, part1, part2, d);
      kappa := kappa - 1;
      if done {
        return;
      }
    }
    IntegralEnds(upper, delta, digits[..idx], d, part1, part2, one);
  }

  /** One turn of the first loop. */
  method IntegralDigit(digits: array<char>, n: nat, upper: nat, delta: nat, wfrac: nat, one: nat, kappa: nat,
      part1: nat, part2: nat, ghost d: int)
    returns (done: bool, idx: nat, rest: nat, ghost d': int)
    requires digits.Length >= 18 && n <= 10 && kappa > 0 && delta < TWO64 && upper < TWO64 && wfrac <= delta
    requires Integral(upper, delta, digits[..n], d, kappa, part1, part2, one)
    modifies digits
    ensures idx <= 10
    ensures done ==> IntegralDone(upper, delta, wfrac, digits[..idx], kappa - 1, one)
    ensures !done ==> Integral(upper, delta, digits[..idx], d', kappa - 1, rest, part2, one)
  {
    var div := Tens(20 - kappa);
    var digit;
    PartFits(upper, d, Pow10(kappa), part1, part2, one, div);
    digit, rest := Split(part1, div);
    ghost var unit := Times(div, one);
    TimesNat(div, one);
    MoveDigit(upper, d, part1, part2, div, one, digit, rest, unit);
    d' := 10 * d + digit;
    WrittenMeans(digits[..n], d);
    RestFits(upper, d', unit, Times(rest, one), part2);
    var tmp := Product(rest, one);
    tmp := tmp + part2;
    done := tmp <= delta;
    idx := WriteDigit(digits, n, digit, d);
    if done {
      TimesIs(0, unit);
      IntegralNone(upper, delta, old(digits[..n]), d, kappa, part1, part2, one);
      RoundIntegral(digits, idx, delta, tmp, div, one, wfrac, upper, d');
    }
  }

  /** round_digit in units of the last integral digit, div << -one.exp. */
  method RoundIntegral(digits: array<char>, n: nat, delta: nat, rem: nat, div: nat, one: nat, wfrac: nat,
      ghost upper: nat, ghost d: int)
    requires 0 < n <= digits.Length && Written(digits[..n], d) && Times(div, one) >= 0
    requires upper == Times(d, Times(div, one)) + rem && rem < Times(div, one) && rem <= delta && wfrac <= delta
    requires upper < TWO64 && delta < TWO64 && delta <= Times(digits[n - 1] as int - '0' as int, Times(div, one)) + rem
    modifies digits
    ensures AllDigits(digits[..n])
    ensures NearestWithin(upper - delta, upper - wfrac, upper, Times(div, one), Number(digits[..n]))
  {
    WrittenPositive(digits[..n], d);
    UnitFits(upper, d, Times(div, one), rem);
    var unit := Product(div, one);
    RoundWritten(digits, n, delta, rem, unit, wfrac, upper, d);
  }

  lemma WrittenMeans(ds: seq<char>, d: int)
    requires Written(ds, d)
    ensures d >= 0
  {
  }

  /** What is left of a word is one. */
  lemma RestFits(upper: int, d: int, unit: nat, high: nat, low: nat)
    requires upper == Times(d, unit) + (high + low) && d >= 0
    ensures high + low <= upper
  {
    TimesNat(d, unit);
  }

  lemma PartFits(upper: int, d: int, p: nat, part1: nat, part2: nat, one: nat, div: nat)
    requires Parts(upper, d, p, part1, part2, one) && upper < TWO64 && d >= 0 && p == 10 * div
    ensures part1 < TWO64 && div > 0
  {
    TimesNat(d, p);
    TimesNat(Times(d, p) + part1, one);
  }

  // ---- The fractional part --------------------------------------------------------------

  /** The digits of the fractional part so far, j of them; the interval is narrower than what is left. */
  ghost predicate FractionalState(upper: nat, delta: nat, ds: seq<char>, j: nat, part2: nat, one: nat, d: int) {
    && Written(ds, d)
    && Times(upper, Pow10(j)) == Times(d, one) + part2
    && Times(delta, Pow10(j)) <= part2 < one
  }

  /** The interval is wider than a 10^17th of its upper end. */
  ghost predicate Wide(upper: nat, delta: nat) {
    upper < Times(delta, Pow10(17))
  }

  /** Not having stopped bounds the digits: each one before the last was worth more than the interval. */
  lemma RoomForDigit(upper: nat, delta: nat, ds: seq<char>, j: nat, part2: nat, one: nat, d: int)
    requires FractionalState(upper, delta, ds, j, part2, one, d)
    requires Wide(upper, delta)
    ensures |ds| <= 17
  {
    if |ds| > 17 {
      Pow10Grows(17, |ds| - 1);
      TooManyUnits(upper, delta, Pow10(j), d, one, part2, Pow10(17));
      assert false;
    }
  }

  lemma TooManyUnits(upper: nat, delta: nat, p: nat, d: int, one: nat, part2: nat, q: nat)
    requires p > 0 && Times(upper, p) == Times(d, one) + part2 && Times(delta, p) < one && d >= q
    ensures upper >= Times(delta, q)
  {
    WorthMore(delta, p, d, one, q);
    TimesOrder(Times(delta, q), upper, p);
  }

  lemma WorthMore(delta: nat, p: nat, d: int, one: nat, q: nat)
    requires Times(delta, p) < one && d >= q
    ensures Times(d, one) >= Times(Times(delta, q), p)
  {
    TimesMonotone(q, d, one);
    TimesSwap(q, one);
    TimesMonotone(Times(delta, p), one, q);
    TimesExchange(delta, p, q);
  }

  lemma TimesExchange(a: int, p: nat, q: nat)
    ensures Times(Times(a, p), q) == Times(Times(a, q), p)
  {
    TimesIs(a, p);
    TimesIs(a, q);
    TimesIs(a * p, q);
    TimesIs(a * q, p);
    assert (a * p) * q == (a * q) * p;
  }

  lemma PowerPastWord(j: nat)
    requires j > 18
    ensures Pow10(j) >= 10000000000000000000
  {
    var n := 19;
    Pow10Grows(n, j);
    assert Pow10(10) == 10000000000;
    assert Pow10(19) == 1000000000 * Pow10(10);
  }

  /** The loop ends in time for the tens table: 10^j never passes the interval's scaled width. */
  lemma StopsInTime(delta: nat, j: nat)
    requires 0 < delta && Times(delta, Pow10(j)) < 0x1000_0000_0000_0000
    ensures j <= 18
  {
    TimesSwap(delta, Pow10(j));
    TimesNat(Pow10(j), delta);
    if j > 18 {
      PowerPastWord(j);
    }
  }

  lemma TimesTen(u: nat, p: nat)
    ensures Times(u, 10 * p) == 10 * Times(u, p)
  {
    TimesIs(u, 10 * p);
    TimesIs(u, p);
    assert u * (10 * p) == 10 * (u * p);
  }

  lemma NextPart(u: int, d: int, one: nat, part2: nat, digit: nat, rest: nat)
    requires u == Times(d, one) + part2 && part2 < one
    requires 10 * part2 == Times(digit, one) + rest && rest < one
    ensures digit < 10
    ensures 10 * u == Times(10 * d + digit, one) + rest
  {
    QuotientDigit(10 * part2, one, digit, rest);
    TimesSum(10 * d, digit, one);
    TimesIs(10 * d, one);
    TimesIs(d, one);
    assert (10 * d) * one == 10 * (d * one);
  }

  /** The interval and w scaled by 10^j: the digits are the nearest number of units there. */
  ghost predicate NearestAt(upper: nat, delta: nat, wfrac: nat, j: nat, one: nat, d: int) {
    var u := Times(upper, Pow10(j));
    NearestWithin(u - Times(delta, Pow10(j)), u - Times(wfrac, Pow10(j)), u, one, d)
  }

  /** Scaled by 10^j, the interval has no number of units. */
  ghost predicate NoneAt(upper: nat, delta: nat, j: nat, one: nat) {
    NoneIn(Times(upper, Pow10(j)) - Times(delta, Pow10(j)), Times(upper, Pow10(j)), one)
  }

  /** The second loop stopped: scaled by 10^j, the digits are the nearest number of units; scaled by less, none fits. */
  ghost predicate FractionalDone(upper: nat, delta: nat, wfrac: nat, ds: seq<char>, j: nat, one: nat) {
    && 0 < |ds| <= 18 && AllDigits(ds) && 0 < j <= 19 && NearestAt(upper, delta, wfrac, j, one, Number(ds))
    && NoneAt(upper, delta, j - 1, one)
  }

  /** One turn of the second loop; the interval's width is scaled along with the remainder. */
  method FractionalDigit(digits: array<char>, n: nat, delta: nat, wfrac: nat, one: nat, part2: nat, j: nat,
      ghost upper: nat, ghost delta0: nat, ghost d: int)
    returns (done: bool, idx: nat, rest: nat, delta': nat, ghost d': int)
    requires digits.Length >= 18 && n <= 17 && j <= 18 && delta == Times(delta0, Pow10(j))
             && one <= 0x1000_0000_0000_0000
    requires FractionalState(upper, delta0, digits[..n], j, part2, one, d) && wfrac <= delta0
    modifies digits
    ensures idx <= 18 && delta' == Times(delta0, Pow10(j + 1)) < TWO64
    ensures done ==> FractionalDone(upper, delta0, wfrac, digits[..idx], j + 1, one)
    ensures !done ==> FractionalState(upper, delta0, digits[..idx], j + 1, rest, one, d')
  {
    var digit;
    digit, rest := Split(10 * part2, one);
    delta' := 10 * delta;
    NextPart(Times(upper, Pow10(j)), d, one, part2, digit, rest);
    TimesTen(upper, Pow10(j));
    TimesTen(delta0, Pow10(j));
    done := rest < delta';
    d' := 10 * d + digit;
    idx := WriteDigit(digits, n, digit, d);
    if done {
      FractionalNone(upper, delta0, old(digits[..n]), j, part2, one, d);
      TimesIs(0, one);
      RoundFraction(digits, idx, delta', rest, one, wfrac, j, upper, delta0, d');
    }
  }

  /** round_digit in units of the last fractional digit. */
  method RoundFraction(digits: array<char>, n: nat, delta: nat, rem: nat, one: nat, wfrac: nat, j: nat,
      ghost upper: nat, ghost delta0: nat, ghost d: int)
    requires 0 < n <= digits.Length && Written(digits[..n], d) && j <= 18 && wfrac <= delta0
    requires Times(upper, Pow10(j + 1)) == Times(d, one) + rem && rem < one < TWO64 && rem <= delta < TWO64
    requires delta == Times(delta0, Pow10(j + 1)) && delta <= Times(digits[n - 1] as int - '0' as int, one) + rem
    modifies digits
    ensures AllDigits(digits[..n]) && NearestAt(upper, delta0, wfrac, j + 1, one, Number(digits[..n]))
  {
    TimesMonotone(wfrac, delta0, Pow10(j + 1));
    TimesNat(wfrac, Pow10(j + 1));
    var frac := Product(wfrac, Tens(18 - j));
    RoundWritten(digits, n, delta, rem, one, frac, Times(upper, Pow10(j + 1)), d);
  }

  lemma FractionalNone(upper: nat, delta: nat, ds: seq<char>, j: nat, part2: nat, one: nat, d: int)
    requires FractionalState(upper, delta, ds, j, part2, one, d)
    ensures NoneAt(upper, delta, j, one)
  {
    NoneAbove(Times(upper, Pow10(j)), Times(delta, Pow10(j)), d, one, part2);
  }

  /**
   * The second loop of generate_digits: digits of the fractional part.  The interval's width is
   * scaled along with the remainder and never leaves 64 bits.
   */
  method FractionalDigits(digits: array<char>, n: nat, delta0: nat, wfrac: nat, one: nat, p2: nat, ghost upper: nat)
    returns (idx: nat, j: nat)
    requires digits.Length >= 18 && n <= 18 && one <= 0x1000_0000_0000_0000
    requires 0 < delta0 && Wide(upper, delta0) && wfrac <= delta0
    requires IntegralOver(upper, delta0, digits[..n], p2, one)
    modifies digits
    ensures idx <= digits.Length && FractionalDone(upper, delta0, wfrac, digits[..idx], j, one)
  {
    var part2, delta, done := p2, delta0, false;
    idx, j := n, 0;
    ghost var d := Number(digits[..n]);
    StartFraction(upper, delta0, digits[..n], p2, one);
    while !done
      invariant idx <= 18 && j <= 19 && delta == Times(delta0, Pow10(j))
      invariant !done ==> FractionalState(upper, delta0, digits[..idx], j, part2, one, d)
      invariant done ==> FractionalDone(upper, delta0, wfrac, digits[..idx], j, one)
      decreases !done, 19 - j
    {
      StopsInTime(delta0, j);
      RoomForDigit(upper, delta0, digits[..idx], j, part2, one, d);
      done, idx, part2, delta, d := FractionalDigit(digits, idx, delta, wfrac, one, part2, j, upper, delta0, d);
      j := j + 1;
    }
  }

  /**
   * The digits times 10^e are the nearest number to w, with its exponent, in the interval, in
   * units of 10^e: of the integral part, or of the fractional part after scaling by 10^-e.  No number
   * of units of 10^(e + 1) is in the interval.
   */
  ghost predicate Rounds(lower: nat, w: nat, upper: nat, one: nat, e: int, ds: seq<char>)
    requires lower <= w <= upper
  {
    if e >= 0 then IntegralDone(upper, upper - lower, upper - w, ds, e, one)
    else FractionalDone(upper, upper - lower, upper - w, ds, -e, one)
  }

  /**
   * generate_digits: with the interval's width above its upper end's 10^-17 and the exponent in
   * [-60, -32], between 1 and 18 digits are written, all in '0'..'9', and the number they form
   * is the nearest one to w, with its exponent, in the interval.
   */
  method GenerateDigits(w: nat, upper: nat, lower: nat, shift: nat, digits: array<char>, k: int)
    returns (n: nat, k': int)
    requires 32 <= shift <= 60 && digits.Length >= 18
    requires 0 < lower <= w <= upper < TWO64 && lower < upper && Wide(upper, upper - lower)
    modifies digits
    ensures n <= digits.Length && Rounds(lower, w, upper, Pow2(shift), k' - k, digits[..n])
  {
    OneBounds(shift);
    var e;
    n, e := DigitsFor(w, upper, lower, Pow2(shift), digits);
    k' := k + e;
  }

  /** The second loop, after the first one ran out. */
  method DigitsOfFraction(w: nat, upper: nat, lower: nat, one: nat, part2: nat, digits: array<char>, n0: nat)
    returns (n: nat, e: int)
    requires digits.Length >= 18 && n0 <= 10 && one <= 0x1000_0000_0000_0000 && lower <= w <= upper && lower < upper
    requires Wide(upper, upper - lower) && IntegralOver(upper, upper - lower, digits[..n0], part2, one)
    modifies digits
    ensures n <= digits.Length && Rounds(lower, w, upper, one, e, digits[..n])
  {
    var count;
    n, count := FractionalDigits(digits, n0, upper - lower, upper - w, one, part2, upper);
    e := -(count as int);
    RoundsFraction(lower, w, upper, one, e, count, digits[..n]);
  }

  lemma RoundsFraction(lower: nat, w: nat, upper: nat, one: nat, e: int, j: nat, ds: seq<char>)
    requires lower <= w <= upper && e == -(j as int) && FractionalDone(upper, upper - lower, upper - w, ds, j, one)
    ensures Rounds(lower, w, upper, one, e, ds)
  {
  }

  /** Both loops, for a unit between 2^32 and 2^60. */
  method DigitsFor(w: nat, upper: nat, lower: nat, one: nat, digits: array<char>) returns (n: nat, e: int)
    requires digits.Length >= 18 && 0x1_0000_0000 <= one <= 0x1000_0000_0000_0000
    requires 0 < lower <= w <= upper < TWO64 && lower < upper && Wide(upper, upper - lower)
    modifies digits
    ensures n <= digits.Length && Rounds(lower, w, upper, one, e, digits[..n])
  {
    var part1, part2 := Split(upper, one);
    PartBound(upper, part1, part2, one);
    var whole, count;
    whole, n, count := IntegralDigits(digits, upper, upper - lower, upper - w, one, part1, part2);
    e := count;
    if !whole {
      n, e := DigitsOfFraction(w, upper, lower, one, part2, digits, n);
    }
  }

  lemma StartFraction(upper: nat, delta: nat, ds: seq<char>, part2: nat, one: nat)
    requires IntegralOver(upper, delta, ds, part2, one)
    ensures FractionalState(upper, delta, ds, 0, part2, one, Number(ds))
  {
    TimesIs(upper, 1);
    TimesIs(delta, 1);
  }

  lemma OneBounds(shift: nat)
    requires 32 <= shift <= 60
    ensures 0x1_0000_0000 <= Pow2(shift) <= 0x1000_0000_0000_0000
  {
    Pow2Values();
    Pow2Add(6, 26);
    assert Pow2(6) == 64;
    Pow2Grows(32, shift);
    Pow2Grows(shift, 60);
  }

  lemma PartBound(upper: nat, part1: nat, part2: nat, one: nat)
    requires upper == Times(part1, one) + part2 && upper < TWO64 && 0x1_0000_0000 <= one
    ensures part1 < Pow10(10)
  {
    assert Pow10(10) == 10000000000;
    TimesIs(part1, one);
    assert part1 * one >= part1 * 0x1_0000_0000;
  }
}
