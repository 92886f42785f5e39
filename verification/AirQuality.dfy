/** Binary32 values below 2^24, rounded to nearest with ties to even (IEEE 754-2019, sections 4.3.1 and 5.4.1). */
module Binary32 {

  /** Fraction bits of the smallest subnormal. */
  const FINEST: nat := 149

  function Pow2(k: nat): (p: real)
    ensures p >= 1.0
  {
    if k == 0 then 1.0 else 2.0 * Pow2(k - 1)
  }

  type Magnitude = x: real | 0.0 <= x < 16777216.0

  function RoundHalfEven(y: real): int {
    var f := y.Floor;
    var d := y - f as real;
    if d < 0.5 || (d == 0.5 && f % 2 == 0) then f else f + 1
  }

  /** x on the grid of p steps per unit. */
  function OnGrid(x: real, p: real): real
    requires p >= 1.0
  {
    RoundHalfEven(x * p) as real / p
  }

  /** x needs no more than 24 bits on the grid of p steps per unit. */
  predicate Fits(x: real, p: real) { x * p < 16777216.0 }

  /** x on the finest grid, of at most k fraction bits, on which a 24-bit significand reaches it. */
  function RoundFrom(x: Magnitude, k: nat): real {
    if k == 0 || Fits(x, Pow2(k)) then OnGrid(x, Pow2(k)) else RoundFrom(x, k - 1)
  }

  /** The value rounded to binary32. */
  function Fl(x: Magnitude): real { RoundFrom(x, FINEST) }

  lemma {:induction false} Pow2Grows(j: nat, k: nat)
    requires j <= k
    ensures Pow2(j) <= Pow2(k)
    decreases k
  {
    if j < k { Pow2Grows(j, k - 1); }
  }

  lemma Pow2Of8()
    ensures Pow2(8) == 256.0
  {
    assert Pow2(4) == 16.0;
  }

  lemma Product(q: real, p: real)
    requires q > 1.0 / 512.0 && p >= 256.0
    ensures q * p > 0.5
  {
    assert q * p >= q * 256.0;
  }

  lemma Quotient(q: real, p: real, d: real)
    requires p >= 256.0 && q * p == d && -0.5 <= d <= 0.5
    ensures -1.0 / 512.0 <= q <= 1.0 / 512.0
  {
    if q > 1.0 / 512.0 { Product(q, p); }
    if q < -1.0 / 512.0 { Product(-q, p); }
  }

  lemma GridError(x: real, p: real)
    requires p >= 256.0
    ensures -1.0 / 512.0 <= OnGrid(x, p) - x <= 1.0 / 512.0
  {
    var r := RoundHalfEven(x * p) as real;
    var q := r / p - x;
    assert q * p == r - x * p;
    Quotient(q, p, r - x * p);
  }

  lemma {:induction false} RoundFromError(x: Magnitude, k: nat)
    requires x < 65536.0 && k >= 8
    ensures -1.0 / 512.0 <= RoundFrom(x, k) - x <= 1.0 / 512.0
    decreases k
  {
    Pow2Grows(8, k);
    Pow2Of8();
    if Fits(x, Pow2(k)) {
      GridError(x, Pow2(k));
    } else if k > 8 {
      RoundFromError(x, k - 1);
    }
  }

  /** Below 2^16 the rounding error is at most 2^-9. */
  lemma FlError(x: Magnitude)
    requires x < 65536.0
    ensures -1.0 / 512.0 <= Fl(x) - x <= 1.0 / 512.0
  {
    RoundFromError(x, FINEST);
  }

  lemma {:induction false} Pow2Integral(k: nat) returns (n: int)
    ensures n as real == Pow2(k)
  {
    if k == 0 { n := 1; } else {
      n := Pow2Integral(k - 1);
      n := 2 * n;
    }
  }

  lemma RoundInteger(y: real, i: int)
    requires y == i as real
    ensures RoundHalfEven(y) as real == y
  {
  }

  lemma ProductOfIntegers(x: real, m: int, p: real, n: int)
    requires x == m as real && p == n as real
    ensures x * p == (m * n) as real
  {
  }

  lemma QuotientBack(a: real, x: real, p: real)
    requires p >= 1.0 && a == x * p
    ensures a / p == x
  {
  }

  lemma GridExact(x: real, p: real, i: int)
    requires p >= 1.0 && x * p == i as real
    ensures OnGrid(x, p) == x
  {
    RoundInteger(x * p, i);
    QuotientBack(RoundHalfEven(x * p) as real, x, p);
  }

  lemma {:induction false} RoundFromExact(x: Magnitude, m: nat, k: nat)
    requires x == m as real
    ensures RoundFrom(x, k) == x
    decreases k
  {
    var n := Pow2Integral(k);
    assert OnGrid(x, Pow2(k)) == x by {
      ProductOfIntegers(x, m, Pow2(k), n);
      GridExact(x, Pow2(k), m * n);
    }
    if k > 0 { RoundFromExact(x, m, k - 1); }
  }

  /** Integers are converted exactly. */
  lemma FlExact(m: nat)
    requires m < 65536
    ensures Fl(m as real) == m as real
  {
    RoundFromExact(m as real, m, FINEST);
  }

  lemma Apart(a: int, b: int, x: real, y: real)
    requires -1.0 / 512.0 <= x - a as real / 10.0 <= 1.0 / 512.0
    requires -1.0 / 512.0 <= y - b as real / 10.0 <= 1.0 / 512.0
    requires a == b ==> x == y
    ensures x <= y <==> a <= b
  {
  }

  /** y is x rounded to the nearest multiple of 1/p, ties going to the even multiple. */
  predicate Nearest(y: real, x: real, p: real, r: int)
    requires p >= 1.0
  {
    && y == r as real / p
    && -0.5 <= r as real - x * p <= 0.5
    && (r as real - x * p == 0.5 || r as real - x * p == -0.5 ==> r % 2 == 0)
  }

  lemma RoundsToNearest(y: real)
    ensures var r := RoundHalfEven(y);
      && -0.5 <= r as real - y <= 0.5
      && (r as real - y == 0.5 || r as real - y == -0.5 ==> r % 2 == 0)
  {
  }

  /** x needs all 24 bits on the grid of p steps per unit. */
  predicate Fills(x: real, p: real) { x * p >= 8388608.0 }

  lemma Halved(x: real, p: real, q: real, a: real)
    requires q == p + p && x * q >= a + a
    ensures x * p >= a
  {
    assert x * q == x * p + x * p;
  }

  lemma NextPow2(k: nat)
    ensures Pow2(k + 1) == Pow2(k) + Pow2(k)
  {
  }

  lemma HalfGrid(x: real, p: real, q: real)
    requires q == p + p && !Fits(x, q)
    ensures Fills(x, p)
  {
    Halved(x, p, q, 8388608.0);
  }

  function GridSteps(x: real, p: real): int { RoundHalfEven(x * p) }

  lemma OnGridIsNearest(x: real, p: real)
    requires p >= 1.0
    ensures Nearest(OnGrid(x, p), x, p, GridSteps(x, p))
  {
    RoundsToNearest(x * p);
  }

  /** The spacing on which RoundFrom rounds. */
  function GridOf(x: Magnitude, k: nat): nat {
    if k == 0 || Fits(x, Pow2(k)) then k else GridOf(x, k - 1)
  }

  lemma {:induction false} RoundFromGrid(x: Magnitude, k: nat)
    ensures GridOf(x, k) <= k && RoundFrom(x, k) == OnGrid(x, Pow2(GridOf(x, k)))
    decreases k
  {
    if k > 0 && !Fits(x, Pow2(k)) { RoundFromGrid(x, k - 1); }
  }

  lemma {:induction false} GridReaches(x: Magnitude, k: nat)
    ensures GridOf(x, k) < k ==> !Fits(x, Pow2(GridOf(x, k) + 1))
    decreases k
  {
    if k > 0 && !Fits(x, Pow2(k)) {
      GridReaches(x, k - 1);
      RoundFromGrid(x, k - 1);
    }
  }

  lemma {:induction false} GridFits(x: Magnitude, k: nat)
    ensures Fits(x, Pow2(GridOf(x, k)))
    decreases k
  {
    if k == 0 {
      WholeFits(x);
    } else if !Fits(x, Pow2(k)) {
      GridFits(x, k - 1);
    }
  }

  lemma WholeFits(x: Magnitude)
    ensures Fits(x, Pow2(0))
  {
  }

  lemma RoundFromIsNearest(x: Magnitude, k: nat)
    ensures var j := GridOf(x, k);
      && j <= k && Nearest(RoundFrom(x, k), x, Pow2(j), GridSteps(x, Pow2(j)))
      && (j == k || Fills(x, Pow2(j))) && Fits(x, Pow2(j))
  {
    var j := GridOf(x, k);
    RoundFromGrid(x, k);
    GridReaches(x, k);
    GridFits(x, k);
    OnGridIsNearest(x, Pow2(j));
    if j < k {
      NextPow2(j);
      HalfGrid(x, Pow2(j), Pow2(j + 1));
    }
  }

  /**
   * Fl rounds as binary32 does: to the nearest multiple, ties to even, of the spacing at which 24 significant
   * bits (or, below, the subnormals) reach the value.
   */
  lemma FlIsNearest(x: Magnitude) returns (j: nat, r: int)
    ensures j <= 149 && Nearest(Fl(x), x, Pow2(j), r)
    ensures (j == 149 || Fills(x, Pow2(j))) && Fits(x, Pow2(j))
  {
    var k := FINEST;
    RoundFromIsNearest(x, k);
    j := GridOf(x, k);
    r := GridSteps(x, Pow2(j));
  }

  /** Rounded quotients by ten compare like the numerators. */
  lemma TenthsCompare(a: nat, b: nat)
    requires a < 65536 && b < 65536
    ensures Fl(a as real / 10.0) <= Fl(b as real / 10.0) <==> a <= b
  {
    FlError(a as real / 10.0);
    FlError(b as real / 10.0);
    Apart(a, b, Fl(a as real / 10.0), Fl(b as real / 10.0));
  }
}

/** Unit conversion and the overall air quality level (src/air_quality_endpoint/air_quality_policy.cpp). */
module AirQualityPolicy {
  import opened Integers
  import opened Binary32

  /** AirQualityEnum of the Matter Application Cluster Specification, section 2.9. */
  datatype Level = Unknown | Good | Fair | Moderate | Poor | VeryPoor | ExtremelyPoor

  function Rank(l: Level): nat {
    match l
    case Unknown => 0
    case Good => 1
    case Fair => 2
    case Moderate => 3
    case Poor => 4
    case VeryPoor => 5
    case ExtremelyPoor => 6
  }

  function LevelOf(rank: nat): Level {
    if rank == 0 then Unknown
    else if rank == 1 then Good
    else if rank == 2 then Fair
    else if rank == 3 then Moderate
    else if rank == 4 then Poor
    else if rank == 5 then VeryPoor
    else ExtremelyPoor
  }

  /** The numbers of AirQualityEnum in section 2.9 of the Matter Application Cluster Specification. */
  lemma LevelCodes()
    ensures Rank(Unknown) == 0 && Rank(Good) == 1 && Rank(Fair) == 2 && Rank(Moderate) == 3
    ensures Rank(Poor) == 4 && Rank(VeryPoor) == 5 && Rank(ExtremelyPoor) == 6
  {
  }

  lemma RankInjective(l: Level)
    ensures LevelOf(Rank(l)) == l
  {
  }

  // ----- Unit converters -----

  function Co2RawToPpm(raw: u16): real { Fl(raw as real) }

  function PmRawToUgm3(raw: u16): real {
    FlExact(raw);
    FlExact(10);
    Fl(Fl(raw as real) / Fl(10.0))
  }

  function TemperatureRawToCentiDegC(raw: i16): (t: i16)
    ensures -16384 <= t <= 16383
    ensures if raw >= 0 then raw - 1 <= 2 * t <= raw else raw <= 2 * t <= raw + 1
  {
    TruncDiv(raw * 100, 200)
  }

  function HumidityRawToCentiPercent(raw: i16): u16 { raw % 0x1_0000 }

  // ----- Classification on binary32 values -----

  datatype Breakpoints = Breakpoints(good: real, fair: real, moderate: real, poor: real, veryPoor: real)

  const CO2_BREAKPOINTS_PPM := Breakpoints(Fl(800.0), Fl(1000.0), Fl(1500.0), Fl(2500.0), Fl(5000.0))
  const PM2P5_BREAKPOINTS_UGM3 := Breakpoints(Fl(9.0), Fl(35.4), Fl(55.4), Fl(125.4), Fl(225.4))
  const PM10_BREAKPOINTS_UGM3 := Breakpoints(Fl(54.0), Fl(154.0), Fl(254.0), Fl(354.0), Fl(424.0))

  function ClassifyChannel(value: real, bp: Breakpoints): Level {
    if value <= bp.good then Good
    else if value <= bp.fair then Fair
    else if value <= bp.moderate then Moderate
    else if value <= bp.poor then Poor
    else if value <= bp.veryPoor then VeryPoor
    else ExtremelyPoor
  }

  // ----- Classification on raw integers -----

  const CO2_LIMITS: seq<int> := [800, 1000, 1500, 2500, 5000]
  const PM2P5_LIMITS: seq<int> := [90, 354, 554, 1254, 2254]
  const PM10_LIMITS: seq<int> := [540, 1540, 2540, 3540, 4240]

  /** How many of the limits a raw value exceeds. */
  function Exceeded(raw: int, limits: seq<int>): nat {
    if limits == [] then 0 else Bit(raw > limits[0]) + Exceeded(raw, limits[1..])
  }

  lemma FiveLimits(raw: int, a: int, b: int, c: int, d: int, e: int)
    ensures Exceeded(raw, [a, b, c, d, e])
         == Bit(raw > a) + Bit(raw > b) + Bit(raw > c) + Bit(raw > d) + Bit(raw > e)
  {
    assert [a, b, c, d, e][1..] == [b, c, d, e] && [b, c, d, e][1..] == [c, d, e];
    assert [c, d, e][1..] == [d, e] && [d, e][1..] == [e] && [e][1..] == [];
    assert Exceeded(raw, [e]) == Bit(raw > e) + Exceeded(raw, []);
    assert Exceeded(raw, [d, e]) == Bit(raw > d) + Bit(raw > e);
    assert Exceeded(raw, [c, d, e]) == Bit(raw > c) + Exceeded(raw, [d, e]);
    assert Exceeded(raw, [b, c, d, e]) == Bit(raw > b) + Exceeded(raw, [c, d, e]);
    assert Exceeded(raw, [a, b, c, d, e]) == Bit(raw > a) + Exceeded(raw, [b, c, d, e]);
  }

  lemma ClassificationCounts(value: real, bp: Breakpoints, raw: int, a: int, b: int, c: int, d: int, e: int)
    requires a <= b <= c <= d <= e
    requires (value <= bp.good <==> raw <= a) && (value <= bp.fair <==> raw <= b)
    requires (value <= bp.moderate <==> raw <= c) && (value <= bp.poor <==> raw <= d)
    requires value <= bp.veryPoor <==> raw <= e
    ensures Rank(ClassifyChannel(value, bp)) == 1 + Exceeded(raw, [a, b, c, d, e])
  {
    FiveLimits(raw, a, b, c, d, e);
  }

  lemma LimitAt(raw: u16, limit: u16, bound: real)
    requires bound == limit as real / 10.0
    ensures PmRawToUgm3(raw) <= Fl(bound) <==> raw <= limit
  {
    FlExact(raw);
    FlExact(10);
    TenthsCompare(raw, limit);
  }

  /** The float classification of CO2 counts the exceeded integer limits. */
  lemma Co2ClassificationExact(raw: u16)
    ensures Rank(ClassifyChannel(Co2RawToPpm(raw), CO2_BREAKPOINTS_PPM)) == 1 + Exceeded(raw, CO2_LIMITS)
  {
    var v, bp := Co2RawToPpm(raw), CO2_BREAKPOINTS_PPM;
    assert v == raw as real by { FlExact(raw); }
    assert bp.good == 800.0 by { FlExact(800); }
    assert bp.fair == 1000.0 by { FlExact(1000); }
    assert bp.moderate == 1500.0 by { FlExact(1500); }
    assert bp.poor == 2500.0 by { FlExact(2500); }
    assert bp.veryPoor == 5000.0 by { FlExact(5000); }
    ClassificationCounts(v, bp, raw, 800, 1000, 1500, 2500, 5000);
  }

  lemma Pm2p5ClassificationExact(raw: u16)
    ensures Rank(ClassifyChannel(PmRawToUgm3(raw), PM2P5_BREAKPOINTS_UGM3)) == 1 + Exceeded(raw, PM2P5_LIMITS)
  {
    var v, bp := PmRawToUgm3(raw), PM2P5_BREAKPOINTS_UGM3;
    assert v <= bp.good <==> raw <= 90 by { LimitAt(raw, 90, 9.0); }
    assert v <= bp.fair <==> raw <= 354 by { LimitAt(raw, 354, 35.4); }
    assert v <= bp.moderate <==> raw <= 554 by { LimitAt(raw, 554, 55.4); }
    assert v <= bp.poor <==> raw <= 1254 by { LimitAt(raw, 1254, 125.4); }
    assert v <= bp.veryPoor <==> raw <= 2254 by { LimitAt(raw, 2254, 225.4); }
    ClassificationCounts(v, bp, raw, 90, 354, 554, 1254, 2254);
  }

  lemma Pm10ClassificationExact(raw: u16)
    ensures Rank(ClassifyChannel(PmRawToUgm3(raw), PM10_BREAKPOINTS_UGM3)) == 1 + Exceeded(raw, PM10_LIMITS)
  {
    var v, bp := PmRawToUgm3(raw), PM10_BREAKPOINTS_UGM3;
    assert v <= bp.good <==> raw <= 540 by { LimitAt(raw, 540, 54.0); }
    assert v <= bp.fair <==> raw <= 1540 by { LimitAt(raw, 1540, 154.0); }
    assert v <= bp.moderate <==> raw <= 2540 by { LimitAt(raw, 2540, 254.0); }
    assert v <= bp.poor <==> raw <= 3540 by { LimitAt(raw, 3540, 354.0); }
    assert v <= bp.veryPoor <==> raw <= 4240 by { LimitAt(raw, 4240, 424.0); }
    ClassificationCounts(v, bp, raw, 540, 1540, 2540, 3540, 4240);
  }

  /** The level that five inclusive upper bounds give a raw value. */
  function LevelBelow(raw: int, a: int, b: int, c: int, d: int, e: int): Level {
    if raw <= a then Good else if raw <= b then Fair else if raw <= c then Moderate
    else if raw <= d then Poor else if raw <= e then VeryPoor else ExtremelyPoor
  }

  lemma LevelOfCount(l: Level, raw: int, a: int, b: int, c: int, d: int, e: int)
    requires a <= b <= c <= d <= e && Rank(l) == 1 + Exceeded(raw, [a, b, c, d, e])
    ensures l == LevelBelow(raw, a, b, c, d, e)
  {
    FiveLimits(raw, a, b, c, d, e);
  }

  /** The level of each channel by its raw value, which counts whole ppm or tenths of a microgram. */
  lemma LevelsOfRawValues(raw: u16)
    ensures ClassifyChannel(Co2RawToPpm(raw), CO2_BREAKPOINTS_PPM) == LevelBelow(raw, 800, 1000, 1500, 2500, 5000)
    ensures ClassifyChannel(PmRawToUgm3(raw), PM2P5_BREAKPOINTS_UGM3) == LevelBelow(raw, 90, 354, 554, 1254, 2254)
    ensures ClassifyChannel(PmRawToUgm3(raw), PM10_BREAKPOINTS_UGM3) == LevelBelow(raw, 540, 1540, 2540, 3540, 4240)
  {
    Co2ClassificationExact(raw);
    Pm2p5ClassificationExact(raw);
    Pm10ClassificationExact(raw);
    LevelOfCount(ClassifyChannel(Co2RawToPpm(raw), CO2_BREAKPOINTS_PPM), raw, 800, 1000, 1500, 2500, 5000);
    LevelOfCount(ClassifyChannel(PmRawToUgm3(raw), PM2P5_BREAKPOINTS_UGM3), raw, 90, 354, 554, 1254, 2254);
    LevelOfCount(ClassifyChannel(PmRawToUgm3(raw), PM10_BREAKPOINTS_UGM3), raw, 540, 1540, 2540, 3540, 4240);
  }

  // ----- The overall level -----

  datatype PolicyInputs = PolicyInputs(
    co2Valid: bool, co2Raw: u16, pm2p5Valid: bool, pm2p5Raw: u16, pm10Valid: bool, pm10Raw: u16)

  /** The worst rank among the valid channels, by integer comparisons only; 0 when none is valid. */
  function WorstRank(i: PolicyInputs): nat {
    Max(if i.co2Valid then 1 + Exceeded(i.co2Raw, CO2_LIMITS) else 0,
           Max(if i.pm2p5Valid then 1 + Exceeded(i.pm2p5Raw, PM2P5_LIMITS) else 0,
                  if i.pm10Valid then 1 + Exceeded(i.pm10Raw, PM10_LIMITS) else 0))
  }

  /** l is the level of one of the valid channels. */
  predicate IsLevelOfSome(l: Level, i: PolicyInputs) {
    || (i.co2Valid && l == LevelBelow(i.co2Raw, 800, 1000, 1500, 2500, 5000))
    || (i.pm2p5Valid && l == LevelBelow(i.pm2p5Raw, 90, 354, 554, 1254, 2254))
    || (i.pm10Valid && l == LevelBelow(i.pm10Raw, 540, 1540, 2540, 3540, 4240))
  }

  /** l is no better than the level of any valid channel. */
  predicate IsWorst(l: Level, i: PolicyInputs) {
    && (i.co2Valid ==> Rank(LevelBelow(i.co2Raw, 800, 1000, 1500, 2500, 5000)) <= Rank(l))
    && (i.pm2p5Valid ==> Rank(LevelBelow(i.pm2p5Raw, 90, 354, 554, 1254, 2254)) <= Rank(l))
    && (i.pm10Valid ==> Rank(LevelBelow(i.pm10Raw, 540, 1540, 2540, 3540, 4240)) <= Rank(l))
  }

  lemma RankOfRaw(raw: u16)
    ensures Rank(LevelBelow(raw, 800, 1000, 1500, 2500, 5000)) == 1 + Exceeded(raw, CO2_LIMITS)
    ensures Rank(LevelBelow(raw, 90, 354, 554, 1254, 2254)) == 1 + Exceeded(raw, PM2P5_LIMITS)
    ensures Rank(LevelBelow(raw, 540, 1540, 2540, 3540, 4240)) == 1 + Exceeded(raw, PM10_LIMITS)
  {
    LevelsOfRawValues(raw);
    Co2ClassificationExact(raw);
    Pm2p5ClassificationExact(raw);
    Pm10ClassificationExact(raw);
  }

  lemma UnknownIffNone(i: PolicyInputs)
    ensures LevelOf(WorstRank(i)) == Unknown <==> !i.co2Valid && !i.pm2p5Valid && !i.pm10Valid
  {
    assert WorstRank(i) == 0 <==> !i.co2Valid && !i.pm2p5Valid && !i.pm10Valid;
  }

  /** The worst rank is that of the worst valid channel, and none but Unknown has it without one. */
  lemma WorstOfValid(l: Level, i: PolicyInputs)
    requires Rank(l) == WorstRank(i)
    ensures IsWorst(l, i)
    ensures if i.co2Valid || i.pm2p5Valid || i.pm10Valid then IsLevelOfSome(l, i) else l == Unknown
  {
    RankOfRaw(i.co2Raw);
    RankOfRaw(i.pm2p5Raw);
    RankOfRaw(i.pm10Raw);
    RankInjective(l);
    RankInjective(LevelBelow(i.co2Raw, 800, 1000, 1500, 2500, 5000));
    RankInjective(LevelBelow(i.pm2p5Raw, 90, 354, 554, 1254, 2254));
    RankInjective(LevelBelow(i.pm10Raw, 540, 1540, 2540, 3540, 4240));
  }

  method EvaluateAirQuality(inputs: PolicyInputs) returns (level: Level)
    ensures Rank(level) == WorstRank(inputs)
    ensures IsWorst(level, inputs)
    ensures if inputs.co2Valid || inputs.pm2p5Valid || inputs.pm10Valid then IsLevelOfSome(level, inputs)
      else level == Unknown
  {
    var worst, anyValid := Unknown, false;
    if inputs.co2Valid {
      anyValid := true;
      var l := ClassifyChannel(Co2RawToPpm(inputs.co2Raw), CO2_BREAKPOINTS_PPM);
      Co2ClassificationExact(inputs.co2Raw);
      if Rank(l) > Rank(worst) {
        worst := l;
      }
    }
    if inputs.pm2p5Valid {
      anyValid := true;
      var l := ClassifyChannel(PmRawToUgm3(inputs.pm2p5Raw), PM2P5_BREAKPOINTS_UGM3);
      Pm2p5ClassificationExact(inputs.pm2p5Raw);
      if Rank(l) > Rank(worst) {
        worst := l;
      }
    }
    if inputs.pm10Valid {
      anyValid := true;
      var l := ClassifyChannel(PmRawToUgm3(inputs.pm10Raw), PM10_BREAKPOINTS_UGM3);
      Pm10ClassificationExact(inputs.pm10Raw);
      if Rank(l) > Rank(worst) {
        worst := l;
      }
    }
    level := if anyValid then worst else Unknown;
    WorstOfValid(level, inputs);
  }

  lemma {:induction false} ExceededMonotone(a: int, b: int, limits: seq<int>)
    requires a <= b
    ensures Exceeded(a, limits) <= Exceeded(b, limits) <= |limits|
  {
    if limits != [] { ExceededMonotone(a, b, limits[1..]); }
  }

  /** a is no worse than b: fewer channels, or the same ones with readings no higher. */
  predicate NoWorse(a: PolicyInputs, b: PolicyInputs) {
    && (a.co2Valid ==> b.co2Valid && a.co2Raw <= b.co2Raw)
    && (a.pm2p5Valid ==> b.pm2p5Valid && a.pm2p5Raw <= b.pm2p5Raw)
    && (a.pm10Valid ==> b.pm10Valid && a.pm10Raw <= b.pm10Raw)
  }

  /** The overall level is monotone in every reading, does not see invalid ones, and is unknown iff none is valid. */
  lemma WorstRankProperties(a: PolicyInputs, b: PolicyInputs)
    ensures NoWorse(a, b) ==> WorstRank(a) <= WorstRank(b)
    ensures WorstRank(a) == 0 <==> !a.co2Valid && !a.pm2p5Valid && !a.pm10Valid
    ensures WorstRank(a) <= 6
  {
    ExceededMonotone(a.co2Raw, if a.co2Raw <= b.co2Raw then b.co2Raw else a.co2Raw, CO2_LIMITS);
    ExceededMonotone(a.pm2p5Raw, if a.pm2p5Raw <= b.pm2p5Raw then b.pm2p5Raw else a.pm2p5Raw, PM2P5_LIMITS);
    ExceededMonotone(a.pm10Raw, if a.pm10Raw <= b.pm10Raw then b.pm10Raw else a.pm10Raw, PM10_LIMITS);
  }
}
