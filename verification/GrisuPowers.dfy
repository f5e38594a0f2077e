// Exact real powers, the cached powers of ten of contrib/fpconv/powers.h, and the proof that
// every cached power is within half a unit of the power of ten it stands for.
module GrisuPowers {
  import opened Common

  const TWO64: nat := 0x1_0000_0000_0000_0000
  const TWO63: nat := 0x8000_0000_0000_0000

  /** A floating-point value frac * 2^exp (struct Fp). */
  datatype Fp = Fp(frac: nat, exp: int)

  // ---- Real powers ------------------------------------------------------------------

  /** 2^e, for any integer e. */
  ghost function Two(e: int): real
    decreases if e < 0 then -e else e
  {
    if e == 0 then 1.0 else if e > 0 then 2.0 * Two(e - 1) else Two(e + 1) / 2.0
  }

  lemma {:induction false} TwoPositive(e: int)
    ensures Two(e) > 0.0
    decreases if e < 0 then -e else e
  {
    if e > 0 {
      TwoPositive(e - 1);
    } else if e < 0 {
      TwoPositive(e + 1);
    }
  }

  /** 10^e, for any integer e. */
  ghost function Ten(e: int): real
    decreases if e < 0 then -e else e
  {
    if e == 0 then 1.0 else if e > 0 then 10.0 * Ten(e - 1) else Ten(e + 1) / 10.0
  }

  lemma {:induction false} TenPositive(e: int)
    ensures Ten(e) > 0.0
    decreases if e < 0 then -e else e
  {
    if e > 0 {
      TenPositive(e - 1);
    } else if e < 0 {
      TenPositive(e + 1);
    }
  }

  /** 10^n as a natural number. */
  function Pow10(n: nat): (p: nat)
    ensures p >= 1
  {
    if n == 0 then 1 else 10 * Pow10(n - 1)
  }

  lemma {:induction false} TwoShift(e: int, n: nat)
    ensures Two(e + n) == Pow2(n) as real * Two(e)
  {
    if n > 0 {
      TwoShift(e, n - 1);
      assert Two(e + n) == 2.0 * Two(e + (n - 1));
      assert Pow2(n) as real * Two(e) == 2.0 * (Pow2(n - 1) as real * Two(e));
    }
  }

  lemma {:induction false} TenShift(e: int, n: nat)
    ensures Ten(e + n) == Pow10(n) as real * Ten(e)
  {
    if n > 0 {
      TenShift(e, n - 1);
      assert Ten(e + n) == 10.0 * Ten(e + (n - 1));
      assert Pow10(n) as real * Ten(e) == 10.0 * (Pow10(n - 1) as real * Ten(e));
    }
  }

  lemma {:induction false} Pow2Add(a: nat, b: nat)
    ensures Pow2(a + b) == Pow2(a) * Pow2(b)
  {
    if a > 0 {
      Pow2Add(a - 1, b);
    }
  }

  lemma Pow2Values()
    ensures Pow2(10) == 1024 && Pow2(16) == 0x1_0000
    ensures Pow2(26) == 0x400_0000 && Pow2(33) == 0x2_0000_0000
    ensures Pow2(52) == 0x10_0000_0000_0000 && Pow2(53) == 0x20_0000_0000_0000
    ensures Pow2(60) == 0x1000_0000_0000_0000
    ensures Pow2(63) == TWO63 && Pow2(64) == TWO64
  {
    SmallPow2Values();
    Pow2Add(26, 26);
    assert Pow2(53) == 2 * Pow2(52);
    Pow2Add(7, 53);
    assert Pow2(63) == 8 * Pow2(60);
    assert Pow2(64) == 2 * Pow2(63);
  }

  lemma SmallPow2Values()
    ensures Pow2(10) == 1024 && Pow2(16) == 0x1_0000 && Pow2(7) == 128
    ensures Pow2(26) == 0x400_0000 && Pow2(33) == 0x2_0000_0000
  {
    assert Pow2(10) == 1024;
    Pow2Add(6, 10);
    Pow2Add(10, 16);
    Pow2Add(7, 26);
  }

  lemma {:induction false} Pow10Grows(a: nat, b: nat)
    requires a <= b
    ensures Pow10(a) <= Pow10(b)
  {
    if a > 0 {
      Pow10Grows(a - 1, b - 1);
    }
  }

  // ---- Multiples of a real --------------------------------------------------------------

  /** n * r as repeated addition, which keeps the solver's reasoning linear. */
  ghost function Many(n: int, r: real): real
    decreases if n < 0 then -n else n
  {
    if n == 0 then 0.0 else if n > 0 then Many(n - 1, r) + r else Many(n + 1, r) - r
  }

  lemma {:induction false} ManyIs(n: int, r: real)
    ensures Many(n, r) == n as real * r
    decreases if n < 0 then -n else n
  {
    if n > 0 {
      ManyIs(n - 1, r);
      assert (n - 1) as real * r + r == n as real * r;
    } else if n < 0 {
      ManyIs(n + 1, r);
      assert (n + 1) as real * r - r == n as real * r;
    }
  }

  lemma ManySum(a: int, b: int, r: real)
    ensures Many(a + b, r) == Many(a, r) + Many(b, r)
  {
    ManyIs(a, r);
    ManyIs(b, r);
    ManyIs(a + b, r);
  }

  lemma {:induction false} ManyPositive(n: nat, r: real)
    requires r > 0.0
    ensures Many(n, r) >= 0.0 && (n > 0 ==> Many(n, r) > 0.0)
  {
    if n > 0 {
      ManyPositive(n - 1, r);
    }
  }

  lemma ManyOrder(a: int, b: int, r: real)
    requires r > 0.0
    ensures a <= b <==> Many(a, r) <= Many(b, r)
  {
    if a <= b {
      ManySum(a, b - a, r);
      ManyPositive(b - a, r);
    } else {
      ManySum(b, a - b, r);
      ManyPositive(a - b, r);
    }
  }

  lemma {:induction false} ManyOfMany(a: int, b: int, r: real)
    ensures Many(a * b, r) == Many(a, Many(b, r))
    decreases if a < 0 then -a else a
  {
    if a > 0 {
      ManyOfMany(a - 1, b, r);
      assert a * b == (a - 1) * b + b;
      ManySum((a - 1) * b, b, r);
    } else if a < 0 {
      ManyOfMany(a + 1, b, r);
      assert (a + 1) * b == a * b + b;
      ManySum(a * b, b, r);
    }
  }

  lemma {:induction false} ManyMonotone(n: nat, r: real, s: real)
    requires r <= s
    ensures Many(n, r) <= Many(n, s)
  {
    if n > 0 {
      ManyMonotone(n - 1, r, s);
    }
  }

  /** frac * 2^exp */
  ghost function Value(fp: Fp): real {
    Many(fp.frac, Two(fp.exp))
  }

  lemma TwoMany(e: int, n: nat)
    ensures Two(e + n) == Many(Pow2(n), Two(e))
  {
    TwoShift(e, n);
    ManyIs(Pow2(n), Two(e));
  }

  /** frac * 2^(e + n) in units of 2^e. */
  lemma ManyShift(f: int, e: int, n: nat)
    ensures Many(f, Two(e + n)) == Many(f * Pow2(n), Two(e))
  {
    TwoMany(e, n);
    ManyOfMany(f, Pow2(n), Two(e));
  }

  // ---- The cached powers ------------------------------------------------------------

  const NPOWERS: nat := 87
  const STEP_POWERS: nat := 8
  const FIRST_POWER: int := -348

  function DecimalExponent(i: nat): int { FIRST_POWER + i * STEP_POWERS }

  /** powers_ten[i] stands for 10^DecimalExponent(i). */
  function PowerTen(i: nat): (c: Fp)
    requires i < NPOWERS
  {
    match i
    case 0 => Fp(18054884314459144840, -1220) case 1 => Fp(13451937075301367670, -1193)
    case 2 => Fp(10022474136428063862, -1166) case 3 => Fp(14934650266808366570, -1140)
    case 4 => Fp(11127181549972568877, -1113) case 5 => Fp(16580792590934885855, -1087)
    case 6 => Fp(12353653155963782858, -1060) case 7 => Fp(18408377700990114895, -1034)
    case 8 => Fp(13715310171984221708, -1007) case 9 => Fp(10218702384817765436, -980)
    case 10 => Fp(15227053142812498563, -954) case 11 => Fp(11345038669416679861, -927)
    case 12 => Fp(16905424996341287883, -901) case 13 => Fp(12595523146049147757, -874)
    case 14 => Fp(9384396036005875287, -847) case 15 => Fp(13983839803942852151, -821)
    case 16 => Fp(10418772551374772303, -794) case 17 => Fp(15525180923007089351, -768)
    case 18 => Fp(11567161174868858868, -741) case 19 => Fp(17236413322193710309, -715)
    case 20 => Fp(12842128665889583758, -688) case 21 => Fp(9568131466127621947, -661)
    case 22 => Fp(14257626930069360058, -635) case 23 => Fp(10622759856335341974, -608)
    case 24 => Fp(15829145694278690180, -582) case 25 => Fp(11793632577567316726, -555)
    case 26 => Fp(17573882009934360870, -529) case 27 => Fp(13093562431584567480, -502)
    case 28 => Fp(9755464219737475723, -475) case 29 => Fp(14536774485912137811, -449)
    case 30 => Fp(10830740992659433045, -422) case 31 => Fp(16139061738043178685, -396)
    case 32 => Fp(12024538023802026127, -369) case 33 => Fp(17917957937422433684, -343)
    case 34 => Fp(13349918974505688015, -316) case 35 => Fp(9946464728195732843, -289)
    case 36 => Fp(14821387422376473014, -263) case 37 => Fp(11042794154864902060, -236)
    case 38 => Fp(16455045573212060422, -210) case 39 => Fp(12259964326927110867, -183)
    case 40 => Fp(18268770466636286478, -157) case 41 => Fp(13611294676837538539, -130)
    case 42 => Fp(10141204801825835212, -103) case 43 => Fp(15111572745182864684, -77)
    case 44 => Fp(11258999068426240000, -50) case 45 => Fp(16777216000000000000, -24)
    case 46 => Fp(12500000000000000000, 3) case 47 => Fp(9313225746154785156, 30)
    case 48 => Fp(13877787807814456755, 56) case 49 => Fp(10339757656912845936, 83)
    case 50 => Fp(15407439555097886824, 109) case 51 => Fp(11479437019748901445, 136)
    case 52 => Fp(17105694144590052135, 162) case 53 => Fp(12744735289059618216, 189)
    case 54 => Fp(9495567745759798747, 216) case 55 => Fp(14149498560666738074, 242)
    case 56 => Fp(10542197943230523224, 269) case 57 => Fp(15709099088952724970, 295)
    case 58 => Fp(11704190886730495818, 322) case 59 => Fp(17440603504673385349, 348)
    case 60 => Fp(12994262207056124023, 375) case 61 => Fp(9681479787123295682, 402)
    case 62 => Fp(14426529090290212157, 428) case 63 => Fp(10748601772107342003, 455)
    case 64 => Fp(16016664761464807395, 481) case 65 => Fp(11933345169920330789, 508)
    case 66 => Fp(17782069995880619868, 534) case 67 => Fp(13248674568444952270, 561)
    case 68 => Fp(9871031767461413346, 588) case 69 => Fp(14708983551653345445, 614)
    case 70 => Fp(10959046745042015199, 641) case 71 => Fp(16330252207878254650, 667)
    case 72 => Fp(12166986024289022870, 694) case 73 => Fp(18130221999122236476, 720)
    case 74 => Fp(13508068024458167312, 747) case 75 => Fp(10064294952495520794, 774)
    case 76 => Fp(14996968138956309548, 800) case 77 => Fp(11173611982879273257, 827)
    case 78 => Fp(16649979327439178909, 853) case 79 => Fp(12405201291620119593, 880)
    case 80 => Fp(9242595204427927429, 907) case 81 => Fp(13772540099066387757, 933)
    case 82 => Fp(10261342003245940623, 960) case 83 => Fp(15290591125556738113, 986)
    case 84 => Fp(11392378155556871081, 1013) case 85 => Fp(16975966327722178521, 1039)
    case _ => Fp(12648080533535911531, 1066)
  }

  /** In units of 2^-16 of its last place: how far each cached power may lie from its power of ten. */
  function Slack(i: nat): (int, int)
    requires i < NPOWERS
  {
    match i
    case 0 => (5910, 5969) case 1 => (23909, 23952)
    case 2 => (19501, 19532) case 3 => (20977, 21021)
    case 4 => (18339, 18371) case 5 => (28579, 28625)
    case 6 => (28077, 28111) case 7 => (9681, 9731)
    case 8 => (9147, 9184) case 9 => (-20943, -20916)
    case 10 => (3400, 3439) case 11 => (28522, 28550)
    case 12 => (17995, 18035) case 13 => (22765, 22794)
    case 14 => (30395, 30416) case 15 => (-26550, -26519)
    case 16 => (16358, 16380) case 17 => (32084, 32115)
    case 18 => (-32546, -32524) case 19 => (-30996, -30964)
    case 20 => (-5741, -5718) case 21 => (10725, 10741)
    case 22 => (16613, 16636) case 23 => (-13655, -13638)
    case 24 => (-8390, -8366) case 25 => (-16074, -16057)
    case 26 => (23166, 23190) case 27 => (3449, 3466)
    case 28 => (4417, 4429) case 29 => (-895, -878)
    case 30 => (14948, 14960) case 31 => (22896, 22912)
    case 32 => (-13497, -13486) case 33 => (30109, 30124)
    case 34 => (-2044, -2034) case 35 => (7051, 7058)
    case 36 => (14223, 14231) case 37 => (-6844, -6839)
    case 38 => (-29515, -29508) case 39 => (-8733, -8729)
    case 40 => (-29751, -29747) case 41 => (-30476, -30474)
    case 42 => (-1729, -1728) case 43 => (-11325, -11324)
    case 44 => (0, 0) case 45 => (0, 0)
    case 46 => (0, 0) case 47 => (16384, 16384)
    case 48 => (19359, 19360) case 49 => (-7039, -7037)
    case 50 => (29347, 29351) case 51 => (470, 474)
    case 52 => (19621, 19628) case 53 => (15139, 15145)
    case 54 => (31012, 31017) case 55 => (15266, 15274)
    case 56 => (22841, 22848) case 57 => (-6135, -6123)
    case 58 => (-7238, -7228) case 59 => (-16287, -16272)
    case 60 => (10677, 10690) case 61 => (2949, 2960)
    case 62 => (28554, 28572) case 63 => (-8818, -8804)
    case 64 => (28608, 28630) case 65 => (17394, 17412)
    case 66 => (-30048, -30020) case 67 => (3079, 3101)
    case 68 => (17431, 17449) case 69 => (12766, 12794)
    case 70 => (-15512, -15491) case 71 => (11829, 11861)
    case 72 => (32524, 32549) case 73 => (5766, 5804)
    case 74 => (-25249, -25220) case 75 => (6854, 6876)
    case 76 => (11547, 11581) case 77 => (-13712, -13685)
    case 78 => (3249, 3291) case 79 => (21588, 21620)
    case 80 => (31093, 31118) case 81 => (-8139, -8101)
    case 82 => (22273, 22302) case 83 => (24465, 24509)
    case 84 => (27639, 27673) case 85 => (-7165, -7113)
    case _ => (-5252, -5212)
  }

  function Low(i: nat): int
    requires i < NPOWERS
  {
    PowerTen(i).frac * 65536 + Slack(i).0
  }

  function High(i: nat): int
    requires i < NPOWERS
  {
    PowerTen(i).frac * 65536 + Slack(i).1
  }

  function Unit(i: nat): int
    requires i < NPOWERS
  {
    PowerTen(i).exp - 16
  }

  /** 10^k lies in [lo, hi], in units of 2^e. */
  ghost predicate Within(lo: int, hi: int, e: int, k: int) {
    Many(lo, Two(e)) <= Ten(k) <= Many(hi, Two(e))
  }

  ghost predicate Enclosed(i: nat)
    requires i < NPOWERS
  {
    Within(Low(i), High(i), Unit(i), DecimalExponent(i))
  }

  /** 2^27 or 2^26: the binary step from entry i to the next one. */
  function BinaryStep(i: nat): nat
    requires i + 1 < NPOWERS
  {
    if Unit(i + 1) == Unit(i) + 26 then 0x400_0000 else 0x800_0000
  }

  predicate StepUp(i: nat)
    requires i + 1 < NPOWERS
  {
    && Low(i + 1) * BinaryStep(i) <= Low(i) * 100000000
    && High(i) * 100000000 <= High(i + 1) * BinaryStep(i)
  }

  predicate StepDown(i: nat)
    requires i + 1 < NPOWERS
  {
    && Low(i) * 100000000 <= Low(i + 1) * BinaryStep(i)
    && High(i + 1) * BinaryStep(i) <= High(i) * 100000000
  }

  predicate ExponentStep(i: nat)
    requires i + 1 < NPOWERS
  {
    Unit(i + 1) == Unit(i) + 26 || Unit(i + 1) == Unit(i) + 27
  }

  /** Entry i is a normalised 64-bit word with its slack inside half a unit. */
  predicate EntryFits(i: nat)
    requires i < NPOWERS
  {
    && TWO63 <= PowerTen(i).frac < TWO64
    && -32768 <= Slack(i).0 && Slack(i).1 <= 32768
  }

  lemma EntriesFit(i: nat)
    requires i < NPOWERS
    ensures EntryFits(i)
  {
  }

  lemma ExponentSteps(i: nat)
    requires i + 1 < NPOWERS
    ensures ExponentStep(i)
  {
    if i < 44 {
      ExponentStepsDown(i);
    } else {
      ExponentStepsUp(i);
    }
  }

  lemma ExponentStepsDown(i: nat)
    requires i < 44
    ensures ExponentStep(i)
  {
  }

  lemma ExponentStepsUp(i: nat)
    requires 44 <= i < NPOWERS - 1
    ensures ExponentStep(i)
  {
  }

  lemma StepsDown(i: nat)
    requires i < 44
    ensures StepDown(i)
  {
  }

  lemma StepsUp(i: nat)
    requires 44 <= i < NPOWERS - 1
    ensures StepUp(i)
  {
    if i < 66 {
      FirstStepsUp(i);
    } else {
      LastStepsUp(i);
    }
  }

  lemma FirstStepsUp(i: nat)
    requires 44 <= i < 66
    ensures StepUp(i)
  {
  }

  lemma LastStepsUp(i: nat)
    requires 66 <= i < NPOWERS - 1
    ensures StepUp(i)
  {
  }

  lemma PowTenStep(e: int)
    ensures Ten(e + 8) == 100000000.0 * Ten(e)
  {
    TenShift(e, 8);
    assert Pow10(8) == 100000000;
  }

  /** b units of 2^e' against a units of 2^e, where one entry's step lies between them. */
  lemma NextUnit(b: int, e: int, step: nat, e': int)
    requires (step == 0x400_0000 && e' == e + 26) || (step == 0x800_0000 && e' == e + 27)
    ensures Many(b, Two(e')) == Many(b * step, Two(e))
  {
    SmallPow2Values();
    assert Pow2(27) == 2 * Pow2(26);
    if step == 0x400_0000 {
      ManyShift(b, e, 26);
    } else {
      ManyShift(b, e, 27);
    }
  }

  lemma HundredMillion(a: int, r: real)
    ensures Many(a * 100000000, r) == 100000000.0 * Many(a, r)
  {
    var n: int :| n == 100000000;
    ManyOfMany(n, a, r);
    ManyIs(n, Many(a, r));
  }

  lemma WithinUp(lo: int, hi: int, lo': int, hi': int, e: int, step: nat, e': int, k: int)
    requires Within(lo, hi, e, k)
    requires (step == 0x400_0000 && e' == e + 26) || (step == 0x800_0000 && e' == e + 27)
    requires lo' * step <= lo * 100000000 && hi * 100000000 <= hi' * step
    ensures Within(lo', hi', e', k + 8)
  {
    TwoPositive(e);
    PowTenStep(k);
    NextUnit(lo', e, step, e');
    NextUnit(hi', e, step, e');
    HundredMillion(lo, Two(e));
    HundredMillion(hi, Two(e));
    ManyOrder(lo' * step, lo * 100000000, Two(e));
    ManyOrder(hi * 100000000, hi' * step, Two(e));
  }

  lemma WithinDown(lo: int, hi: int, lo': int, hi': int, e: int, step: nat, e': int, k: int)
    requires Within(lo', hi', e', k + 8)
    requires (step == 0x400_0000 && e' == e + 26) || (step == 0x800_0000 && e' == e + 27)
    requires lo * 100000000 <= lo' * step && hi' * step <= hi * 100000000
    ensures Within(lo, hi, e, k)
  {
    TwoPositive(e);
    PowTenStep(k);
    NextUnit(lo', e, step, e');
    NextUnit(hi', e, step, e');
    HundredMillion(lo, Two(e));
    HundredMillion(hi, Two(e));
    ManyOrder(lo * 100000000, lo' * step, Two(e));
    ManyOrder(hi' * step, hi * 100000000, Two(e));
  }

  lemma EncloseUp(i: nat)
    requires 44 <= i < NPOWERS - 1 && Enclosed(i)
    ensures Enclosed(i + 1)
  {
    ExponentSteps(i);
    StepsUp(i);
    WithinUp(Low(i), High(i), Low(i + 1), High(i + 1), Unit(i), BinaryStep(i), Unit(i + 1), DecimalExponent(i));
  }

  lemma EncloseDown(i: nat)
    requires i < 44 && Enclosed(i + 1)
    ensures Enclosed(i)
  {
    ExponentSteps(i);
    StepsDown(i);
    WithinDown(Low(i), High(i), Low(i + 1), High(i + 1), Unit(i), BinaryStep(i), Unit(i + 1), DecimalExponent(i));
  }

  /** Entry 44 is 10^4 exactly. */
  lemma TenThousand(n: int, e: int, k: int)
    requires n == 11258999068426240000 * 65536 && e == -66 && k == 4
    ensures Within(n, n, e, k)
  {
    var m: int, zero: int :| m == 10000 && zero == 0;
    SmallPow2Values();
    Pow2Add(33, 33);
    ManyShift(m, e, 66);
    ManyIs(m, Two(zero));
    TenShift(zero, 4);
    assert Pow10(4) == 10000;
  }

  lemma EncloseMiddle(i: nat)
    requires i == 44
    ensures Enclosed(i)
  {
    MiddleEntry(i);
    TenThousand(Low(i), Unit(i), DecimalExponent(i));
  }

  lemma MiddleEntry(i: nat)
    requires i == 44
    ensures Low(i) == High(i) == 11258999068426240000 * 65536 && Unit(i) == -66 && DecimalExponent(i) == 4
  {
  }

  lemma {:induction false} AllEnclosed(i: nat)
    requires i < NPOWERS
    ensures Enclosed(i)
    decreases if i < 44 then 44 - i else i - 44
  {
    if i < 44 {
      AllEnclosed(i + 1);
      EncloseDown(i);
    } else if i == 44 {
      EncloseMiddle(i);
    } else {
      AllEnclosed(i - 1);
      EncloseUp(i - 1);
    }
  }

  lemma WithinHalf(c: Fp, lo: int, hi: int, k: int, half: int)
    requires Within(lo, hi, c.exp - 16, k) && half == 32768
    requires c.frac * 65536 - half <= lo && hi <= c.frac * 65536 + half
    ensures Value(c) - Two(c.exp) / 2.0 <= Ten(k) <= Value(c) + Two(c.exp) / 2.0
  {
    TwoPositive(c.exp - 16);
    HalfUnits(c.frac, c.exp, half);
    HalfAway(c.frac * 65536, half, lo, hi, Two(c.exp - 16));
  }

  lemma HalfAway(n: int, half: int, lo: int, hi: int, unit: real)
    requires unit > 0.0 && n - half <= lo && hi <= n + half
    ensures Many(n, unit) + Many(-half, unit) <= Many(lo, unit) && Many(hi, unit) <= Many(n, unit) + Many(half, unit)
  {
    ManyOrder(n - half, lo, unit);
    ManyOrder(hi, n + half, unit);
    ManySum(n, -half, unit);
    ManySum(n, half, unit);
  }

  lemma HalfUnits(f: nat, e: int, half: int)
    requires half == 32768
    ensures Many(f * 65536, Two(e - 16)) == Many(f, Two(e))
    ensures Many(half, Two(e - 16)) == Two(e) / 2.0 && Many(-half, Two(e - 16)) == -Two(e) / 2.0
  {
    SmallPow2Values();
    ManyShift(f, e - 16, 16);
    TwoShift(e - 16, 16);
    ManyIs(half, Two(e - 16));
    ManyIs(-half, Two(e - 16));
  }

  /** Every cached power of ten is a normalised word within half a unit of the exact power. */
  lemma CachedPowersAccurate(i: nat)
    requires i < NPOWERS
    ensures TWO63 <= PowerTen(i).frac < TWO64
    ensures var c := PowerTen(i);
            var exact, half := Ten(DecimalExponent(i)), Two(c.exp) / 2.0;
            Value(c) - half <= exact <= Value(c) + half
  {
    AllEnclosed(i);
    EntriesFit(i);
    var half: int :| half == 32768;
    WithinHalf(PowerTen(i), Low(i), High(i), DecimalExponent(i), half);
  }
}
