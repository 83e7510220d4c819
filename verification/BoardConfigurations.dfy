/** Identifying a board by the two resistors of a voltage divider (`hal/board_identification/`):
    readings, identifiers and the generator of configurations. Values are real numbers. */
module BoardConfigurations {
  import opened Arithmetic
  import opened Bits
  import opened ResistorSeries

  const SAFETY_MARGIN: real := 5.0
  const UNKNOWN: nat := 0

  /** `tolerance`. */
  function Tolerance(t: ResistorTolerance): real {
    match t
    case E12_10 => 0.1
    case E24_5 => 0.05
    case E48_2 => 0.02
    case E96_1 => 0.01
    case E96_0_5 => 0.005
    case E192_0_1 => 0.001
  }

  /** The largest and the smallest value that a resistor may have. */
  function Largest(nominal: real, t: ResistorTolerance): real {
    nominal * (1.0 + SAFETY_MARGIN * Tolerance(t))
  }

  function Smallest(nominal: real, t: ResistorTolerance): real {
    nominal * (1.0 - SAFETY_MARGIN * Tolerance(t))
  }

  function Division(high: real, low: real): real
    requires high + low > 0.0
  {
    low / (high + low)
  }

  /** `expected_adc_measurement_value`: the scale is cut to sixteen bits, the value rounded down. */
  function Measurement(adcBits: nat, high: real, low: real): (m: int)
    requires high + low > 0.0
  {
    (Division(high, low) * (Pow2(adcBits) % 0x1_0000) as real).Floor
  }

  /** A divider from the supply through `high`, and from there through `low` to ground. */
  datatype VoltageDivider = VoltageDivider(high: real, low: real)

  predicate ValidDivider(d: VoltageDivider) {
    d.high > 0.0 && d.low > 0.0
  }

  function MinMeasurement(adcBits: nat, t: ResistorTolerance, d: VoltageDivider): int
    requires ValidDivider(d)
  {
    Spread(t, d);
    Measurement(adcBits, Largest(d.high, t), Smallest(d.low, t))
  }

  function MaxMeasurement(adcBits: nat, t: ResistorTolerance, d: VoltageDivider): int
    requires ValidDivider(d)
  {
    Spread(t, d);
    Measurement(adcBits, Smallest(d.high, t), Largest(d.low, t))
  }

  function IdealMeasurement(adcBits: nat, d: VoltageDivider): int
    requires ValidDivider(d)
  {
    Measurement(adcBits, d.high, d.low)
  }

  predicate IsMatch(adcBits: nat, t: ResistorTolerance, d: VoltageDivider, measurement: int)
    requires ValidDivider(d)
  {
    MinMeasurement(adcBits, t, d) <= measurement <= MaxMeasurement(adcBits, t, d)
  }

  /** `id`: the highest eight bits of the ideal measurement. */
  function Id(adcBits: nat, d: VoltageDivider): (id: nat)
    requires ValidDivider(d)
    ensures id < 0x100
  {
    (if adcBits > 8 then IdealMeasurement(adcBits, d) / Pow2(adcBits - 8) else IdealMeasurement(adcBits, d)) % 0x100
  }

  // ----- the tolerance band

  lemma Scale(x: real, k: real)
    requires x > 0.0 && k > 0.0
    ensures x * k > 0.0
  {}

  lemma EndsOfBand(nominal: real, t: ResistorTolerance)
    requires nominal > 0.0
    ensures 0.0 < Smallest(nominal, t) < nominal < Largest(nominal, t)
  {
    var m := SAFETY_MARGIN * Tolerance(t);
    assert 0.0 < m < 1.0;
    Scale(nominal, m);
    Scale(nominal, 1.0 - m);
    assert nominal * (1.0 - m) == nominal - nominal * m && nominal * (1.0 + m) == nominal + nominal * m;
  }

  /** Both ends of the band are positive. */
  lemma Spread(t: ResistorTolerance, d: VoltageDivider)
    requires ValidDivider(d)
    ensures 0.0 < Smallest(d.high, t) < Largest(d.high, t) && 0.0 < Smallest(d.low, t) < Largest(d.low, t)
  {
    hide Smallest, Largest;
    EndsOfBand(d.high, t);
    EndsOfBand(d.low, t);
  }

  lemma ProductsGrow(a: real, b: real, c: real, d: real)
    requires 0.0 <= a <= b && 0.0 <= c <= d
    ensures a * c <= b * d
  {
    assert a * c <= b * c && b * c <= b * d;
  }

  lemma NotNegative(x: real, p: real)
    requires p > 0.0 && x * p >= 0.0
    ensures x >= 0.0
  {
    if x < 0.0 { Scale(-x, p); }
  }

  lemma QuotientsCompare(a: real, b: real, c: real, d: real)
    requires b > 0.0 && d > 0.0 && a * d <= c * b
    ensures a / b <= c / d
  {
    var x, y := a / b, c / d;
    assert a == x * b && c == y * d;
    Regroup(x, y, b, d);
    Scale(b, d);
    NotNegative(y - x, b * d);
  }

  lemma Regroup(x: real, y: real, b: real, d: real)
    ensures (y - x) * (b * d) == (y * d) * b - (x * b) * d
  {}

  /** The division falls with the upper resistor and rises with the lower one. */
  lemma DivisionIsMonotonic(h1: real, l1: real, h2: real, l2: real)
    requires 0.0 < h2 <= h1 && 0.0 < l1 <= l2
    ensures Division(h1, l1) <= Division(h2, l2)
  {
    ProductsGrow(l1, l2, h2, h1);
    assert l1 * (h2 + l2) == l1 * h2 + l1 * l2 && l2 * (h1 + l1) == l2 * h1 + l1 * l2;
    QuotientsCompare(l1, h1 + l1, l2, h2 + l2);
  }

  lemma MeasurementIsMonotonic(adcBits: nat, h1: real, l1: real, h2: real, l2: real)
    requires 0.0 < h2 <= h1 && 0.0 < l1 <= l2
    ensures Measurement(adcBits, h1, l1) <= Measurement(adcBits, h2, l2)
  {
    DivisionIsMonotonic(h1, l1, h2, l2);
    var scale := (Pow2(adcBits) % 0x1_0000) as real;
    DivisionRange(h1, l1);
    ProductsGrow(Division(h1, l1), Division(h2, l2), scale, scale);
  }

  lemma DivisionRange(high: real, low: real)
    requires high > 0.0 && low > 0.0
    ensures 0.0 < Division(high, low) < 1.0
  {
    var q := Division(high, low);
    assert q * (high + low) == low;
    if q <= 0.0 { Product(-q, high + low); }
    if q >= 1.0 { Product(q - 1.0, high + low); assert q * (high + low) == (q - 1.0) * (high + low) + (high + low); }
  }

  lemma Product(a: real, b: real)
    requires a >= 0.0 && b > 0.0
    ensures a * b >= 0.0
  {}

  lemma Band(adcBits: nat, highMin: real, highMax: real, lowMin: real, lowMax: real, high: real, low: real)
    requires 0.0 < highMin <= high <= highMax && 0.0 < lowMin <= low <= lowMax
    ensures Measurement(adcBits, highMax, lowMin) <= Measurement(adcBits, high, low)
            <= Measurement(adcBits, highMin, lowMax)
  {
    hide Measurement;
    MeasurementIsMonotonic(adcBits, highMax, lowMin, high, low);
    MeasurementIsMonotonic(adcBits, high, low, highMin, lowMax);
  }

  /** Any two resistors within five tolerances of their nominal values give a reading that is accepted,
      at every resolution. */
  lemma BandIsAccepted(adcBits: nat, t: ResistorTolerance, d: VoltageDivider, high: real, low: real)
    requires ValidDivider(d)
    requires d.high * (1.0 - SAFETY_MARGIN * Tolerance(t)) <= high <= d.high * (1.0 + SAFETY_MARGIN * Tolerance(t))
    requires d.low * (1.0 - SAFETY_MARGIN * Tolerance(t)) <= low <= d.low * (1.0 + SAFETY_MARGIN * Tolerance(t))
    ensures high > 0.0 && low > 0.0 && IsMatch(adcBits, t, d, Measurement(adcBits, high, low))
  {
    hide Measurement, Division, Pow2, Tolerance;
    assert Smallest(d.high, t) <= high <= Largest(d.high, t) && Smallest(d.low, t) <= low <= Largest(d.low, t);
    hide Smallest, Largest;
    Spread(t, d);
    Band(adcBits, Smallest(d.high, t), Largest(d.high, t), Smallest(d.low, t), Largest(d.low, t), high, low);
  }

  lemma {:induction false} PowersOfTwo(n: nat)
    requires n <= 15
    ensures Pow2(n) < 0x1_0000
  {
    assert Pow2(15) == 32768;
    PowersGrow(n, 15);
  }

  lemma {:induction false} PowersGrow(a: nat, b: nat)
    requires a <= b
    ensures Pow2(a) <= Pow2(b)
    decreases b
  {
    if a < b { PowersGrow(a, b - 1); }
  }

  lemma {:induction false} PowersAdd(a: nat, b: nat)
    ensures Pow2(a + b) == Pow2(a) * Pow2(b)
  {
    if a > 0 {
      PowersAdd(a - 1, b);
      assert Pow2(a) * Pow2(b) == 2 * (Pow2(a - 1) * Pow2(b));
    }
  }

  lemma Uncut(n: nat)
    requires n < 0x1_0000
    ensures n % 0x1_0000 == n
  {}

  lemma FloorRange(x: real, n: nat)
    requires 0.0 <= x < n as real
    ensures 0 <= x.Floor < n
  {}

  lemma FloorOfFraction(q: real, n: nat)
    requires 0.0 < q < 1.0 && n > 0
    ensures 0 <= (q * n as real).Floor < n
  {
    Scale(1.0 - q, n as real);
    Scale(q, n as real);
    FloorRange(q * n as real, n);
  }

  lemma MeasurementUncut(adcBits: nat, high: real, low: real)
    requires high + low > 0.0 && adcBits <= 15
    ensures Measurement(adcBits, high, low) == (Division(high, low) * Pow2(adcBits) as real).Floor
  {
    hide Division, Pow2;
    PowersOfTwo(adcBits);
    Uncut(Pow2(adcBits));
  }

  /** Readings fit: up to fifteen bits nothing is cut off. */
  lemma MeasurementFits(adcBits: nat, d: VoltageDivider)
    requires ValidDivider(d) && adcBits <= 15
    ensures 0 <= IdealMeasurement(adcBits, d) < Pow2(adcBits)
  {
    hide Division, Pow2, Measurement;
    MeasurementUncut(adcBits, d.high, d.low);
    DivisionRange(d.high, d.low);
    FloorOfFraction(Division(d.high, d.low), Pow2(adcBits));
  }

  /** And so do identifiers: they are the highest eight bits. */
  lemma IdIsTopBits(adcBits: nat, d: VoltageDivider)
    requires ValidDivider(d) && 8 <= adcBits <= 15
    ensures Id(adcBits, d) == IdealMeasurement(adcBits, d) / Pow2(adcBits - 8)
  {
    MeasurementFits(adcBits, d);
    WordWidths();
    PowersAdd(8, adcBits - 8);
    TopBits(IdealMeasurement(adcBits, d), Pow2(adcBits - 8));
  }

  /** With eight bits or less the identifier is the whole reading. */
  lemma IdIsReading(adcBits: nat, d: VoltageDivider)
    requires ValidDivider(d) && adcBits <= 8
    ensures Id(adcBits, d) == IdealMeasurement(adcBits, d)
  {
    hide IdealMeasurement;
    MeasurementFits(adcBits, d);
    WordWidths();
    PowersGrow(adcBits, 8);
  }

  lemma TopBits(m: nat, p: nat)
    requires p > 0 && m < 0x100 * p
    ensures (m / p) % 0x100 == m / p && (p == 1 ==> m % 0x100 == m / p)
  {
    QuotientFits(m, p, 0x100);
  }

  lemma QuotientFits(m: nat, p: nat, n: nat)
    requires p > 0 && m < n * p
    ensures m / p < n
  {
    DivMod(m, p);
    LessTimes(m / p, n, p);
  }

  // ----- the generator

  /** The fraction `i / 2^(level + 1)` of a total resistance. */
  function LowTarget(sum: real, level: nat, i: nat): real {
    i as real * (sum / Pow2(level + 1) as real)
  }

  /** The parts of a total resistance that a fraction calls for: below, and above. Unrounded, they divide
      the supply just so. */
  lemma LowTargetIs(sum: real, level: nat, i: nat)
    requires sum > 0.0
    ensures LowTarget(sum, level, i) * Pow2(level + 1) as real == i as real * sum
    ensures Division(sum - LowTarget(sum, level, i), LowTarget(sum, level, i)) == i as real / Pow2(level + 1) as real
  {
    hide Pow2;
    var p, x := Pow2(level + 1) as real, i as real;
    assert sum / p * p == sum;
    TimesThen(x, sum / p, p);
    SameQuotient(LowTarget(sum, level, i), sum, x, p);
  }

  lemma TimesThen(x: real, y: real, p: real)
    ensures (x * y) * p == x * (y * p)
  {}

  lemma SameQuotient(a: real, b: real, c: real, d: real)
    requires b > 0.0 && d > 0.0 && a * d == c * b
    ensures a / b == c / d
  {
    QuotientsCompare(a, b, c, d);
    QuotientsCompare(c, d, a, b);
  }

  /** The divider of the closest values for a fraction. */
  ghost predicate IsCandidate(values: seq<real>, sum: real, level: nat, i: nat, d: VoltageDivider) {
    Closest(values, sum - LowTarget(sum, level, i), d.high) && Closest(values, LowTarget(sum, level, i), d.low)
  }

  /** If the values hold two that divide the supply in just that fraction and make up the total, these
      are the divider. */
  lemma ExactCandidate(values: seq<real>, sum: real, level: nat, i: nat, d: VoltageDivider, high: real, low: real)
    requires IsCandidate(values, sum, level, i, d) && sum > 0.0 && high in values && low in values
    requires high + low == sum && Division(high, low) == i as real / Pow2(level + 1) as real
    ensures d == VoltageDivider(high, low)
  {
    hide Pow2, LowTarget, Closest;
    var target := LowTarget(sum, level, i);
    LowTargetIs(sum, level, i);
    assert (sum - target) + target == sum;
    SameShare(low, target, sum);
    ClosestToMember(values, low, d.low);
    ClosestToMember(values, high, d.high);
  }

  lemma SameShare(a: real, b: real, sum: real)
    requires sum > 0.0 && a / sum == b / sum
    ensures a == b
  {
    assert a == a / sum * sum && b == b / sum * sum;
  }

  lemma ClosestToMember(values: seq<real>, target: real, r: real)
    requires Closest(values, target, r) && target in values
    ensures r == target
  {
    assert Distance(target, target) == 0.0;
  }

  ghost predicate Positive(values: seq<real>) {
    forall v <- values :: v > 0.0
  }

  ghost predicate AllValid(ds: seq<VoltageDivider>) {
    forall i | 0 <= i < |ds| :: ValidDivider(ds[i])
  }

  /** Identifiers are known and pairwise distinct. */
  ghost predicate Distinct(adcBits: nat, ds: seq<VoltageDivider>)
    requires AllValid(ds)
  {
    && (forall i | 0 <= i < |ds| :: Id(adcBits, ds[i]) != UNKNOWN)
    && forall i, j | 0 <= i < j < |ds| :: Id(adcBits, ds[i]) != Id(adcBits, ds[j])
  }

  /** The identifier is unknown or taken. */
  ghost predicate Accounted(adcBits: nat, ds: seq<VoltageDivider>, d: VoltageDivider)
    requires AllValid(ds)
  {
    ValidDivider(d) && (Id(adcBits, d) == UNKNOWN || exists k | 0 <= k < |ds| :: Id(adcBits, ds[k]) == Id(adcBits, d))
  }

  /** Every divider in the list is the candidate of some fraction below one of the first `levels` levels. */
  ghost predicate AllCandidates(values: seq<real>, sum: real, ds: seq<VoltageDivider>, levels: nat) {
    forall k | 0 <= k < |ds| :: Candidate(values, sum, ds[k], levels)
  }

  ghost predicate Candidate(values: seq<real>, sum: real, d: VoltageDivider, levels: nat) {
    exists level: nat, i: nat | level < levels && i < Pow2(level + 1) && i % 2 == 1 ::
      IsCandidate(values, sum, level, i, d)
  }

  /** Of the fractions `1, 3, 5, ...` below `limit` of a level none is missing. */
  ghost predicate LevelDone(adcBits: nat, values: seq<real>, sum: real, ds: seq<VoltageDivider>, level: nat, limit: nat)
    requires AllValid(ds)
  {
    forall i: nat, d | i < limit && i % 2 == 1 && IsCandidate(values, sum, level, i, d) :: Accounted(adcBits, ds, d)
  }

  ghost predicate LevelExhausted(adcBits: nat, values: seq<real>, sum: real, ds: seq<VoltageDivider>, level: nat)
    requires AllValid(ds)
  {
    LevelDone(adcBits, values, sum, ds, level, Pow2(level + 1))
  }

  /** What holds of the filled part of the result. */
  ghost predicate Good(adcBits: nat, values: seq<real>, sum: real, ds: seq<VoltageDivider>, levels: nat) {
    AllValid(ds) && Distinct(adcBits, ds) && AllCandidates(values, sum, ds, levels)
  }

  lemma GoodLater(adcBits: nat, values: seq<real>, sum: real, ds: seq<VoltageDivider>, levels: nat)
    requires Good(adcBits, values, sum, ds, levels)
    ensures Good(adcBits, values, sum, ds, levels + 1)
  {
    hide IsCandidate, Distinct, Pow2;
    forall k | 0 <= k < |ds| ensures Candidate(values, sum, ds[k], levels + 1) {
      assert Candidate(values, sum, ds[k], levels);
    }
  }

  /** `std::find` on the filled part. */
  method FindId(adcBits: nat, result: array<VoltageDivider>, index: nat, d: VoltageDivider) returns (found: bool)
    requires index <= result.Length && AllValid(result[..index]) && ValidDivider(d)
    ensures found <==> exists k | 0 <= k < index :: Id(adcBits, result[..index][k]) == Id(adcBits, d)
  {
    found := false;
    ghost var ds := result[..index];
    for k := 0 to index
      invariant !found && forall j | 0 <= j < k :: Id(adcBits, ds[j]) != Id(adcBits, d)
    {
      assert result[k] == ds[k];
      if Id(adcBits, result[k]) == Id(adcBits, d) { return true; }
    }
  }

  /** The divider for one fraction. */
  method MakeCandidate(values: array<real>, sum: real, level: nat, i: nat) returns (d: VoltageDivider)
    requires values.Length > 0 && Increasing(values[..]) && Positive(values[..])
    ensures IsCandidate(values[..], sum, level, i, d) && ValidDivider(d)
  {
    var interval := sum / Pow2(level + 1) as real;
    var lowSideResistorValue := i as real * interval;
    var highSideResistorValue := sum - lowSideResistorValue;
    var high := FindClosestResistor(values, highSideResistorValue);
    var low := FindClosestResistor(values, lowSideResistorValue);
    d := VoltageDivider(high, low);
    assert lowSideResistorValue == LowTarget(sum, level, i);
  }

  lemma AccountedLater(adcBits: nat, ds: seq<VoltageDivider>, more: seq<VoltageDivider>, d: VoltageDivider)
    requires AllValid(ds) && AllValid(more) && ds <= more && Accounted(adcBits, ds, d)
    ensures Accounted(adcBits, more, d)
  {
    if Id(adcBits, d) != UNKNOWN {
      var k :| 0 <= k < |ds| && Id(adcBits, ds[k]) == Id(adcBits, d);
      assert more[k] == ds[k];
    }
  }

  lemma LevelDoneLater(adcBits: nat, values: seq<real>, sum: real, ds: seq<VoltageDivider>, more: seq<VoltageDivider>,
                       level: nat, limit: nat)
    requires AllValid(ds) && AllValid(more) && ds <= more && LevelDone(adcBits, values, sum, ds, level, limit)
    ensures LevelDone(adcBits, values, sum, more, level, limit)
  {
    forall i: nat, d | i < limit && i % 2 == 1 && IsCandidate(values, sum, level, i, d)
      ensures Accounted(adcBits, more, d)
    {
      AccountedLater(adcBits, ds, more, d);
    }
  }

  lemma CandidateIsUnique(values: seq<real>, sum: real, level: nat, i: nat, d: VoltageDivider, e: VoltageDivider)
    requires IsCandidate(values, sum, level, i, d) && IsCandidate(values, sum, level, i, e)
    ensures d == e
  {
    var lowTarget := LowTarget(sum, level, i);
    ClosestIsUnique(values, sum - lowTarget, d.high, e.high);
    ClosestIsUnique(values, lowTarget, d.low, e.low);
  }

  lemma NextOdd(i: nat, j: nat)
    requires i % 2 == 1 && j % 2 == 1 && j < i + 2
    ensures j <= i
  {}

  /** One more fraction of a level. */
  lemma LevelDoneMore(adcBits: nat, values: seq<real>, sum: real, ds: seq<VoltageDivider>, level: nat, i: nat,
                      d: VoltageDivider)
    requires AllValid(ds) && LevelDone(adcBits, values, sum, ds, level, i) && i % 2 == 1
    requires IsCandidate(values, sum, level, i, d) && Accounted(adcBits, ds, d)
    ensures LevelDone(adcBits, values, sum, ds, level, i + 2)
  {
    hide IsCandidate, Accounted, AllValid;
    forall j: nat, e | j < i + 2 && j % 2 == 1 && IsCandidate(values, sum, level, j, e)
      ensures Accounted(adcBits, ds, e)
    {
      NextOdd(i, j);
      if j == i { CandidateIsUnique(values, sum, level, i, d, e); }
    }
  }

  lemma GoodMore(adcBits: nat, values: seq<real>, sum: real, ds: seq<VoltageDivider>, level: nat, i: nat,
                 d: VoltageDivider)
    requires Good(adcBits, values, sum, ds, level + 1) && ValidDivider(d) && !Accounted(adcBits, ds, d)
    requires IsCandidate(values, sum, level, i, d) && i < Pow2(level + 1) && i % 2 == 1
    ensures Good(adcBits, values, sum, ds + [d], level + 1) && Accounted(adcBits, ds + [d], d)
  {
    assert Candidate(values, sum, d, level + 1);
    assert (ds + [d])[|ds|] == d;
  }

  lemma NotFound(adcBits: nat, ds: seq<VoltageDivider>, d: VoltageDivider, found: bool)
    requires AllValid(ds) && ValidDivider(d)
    requires found <==> exists k | 0 <= k < |ds| :: Id(adcBits, ds[k]) == Id(adcBits, d)
    ensures Accounted(adcBits, ds, d) <==> Id(adcBits, d) == UNKNOWN || found
  {}

  /** The fractions of a level before `i` are dealt with. */
  ghost predicate Underway(adcBits: nat, values: seq<real>, sum: real, ds: seq<VoltageDivider>, level: nat, i: nat) {
    Good(adcBits, values, sum, ds, level + 1) && LevelDone(adcBits, values, sum, ds, level, i)
  }

  /** What the generator does with the divider of one fraction. */
  method Consider(adcBits: nat, ghost values: seq<real>, ghost sum: real, result: array<VoltageDivider>, index: nat,
                  ghost level: nat, ghost i: nat, d: VoltageDivider)
    returns (newIndex: nat)
    requires index < result.Length && Underway(adcBits, values, sum, result[..index], level, i)
    requires IsCandidate(values, sum, level, i, d) && ValidDivider(d) && i < Pow2(level + 1) && i % 2 == 1
    modifies result
    ensures index <= newIndex <= result.Length && result[..index] == old(result[..index])
    ensures Underway(adcBits, values, sum, result[..newIndex], level, i + 2)
  {
    hide IsCandidate, LevelDone, Accounted, AllCandidates, Distinct;
    ghost var ds := result[..index];
    var found := FindId(adcBits, result, index, d);
    NotFound(adcBits, ds, d, found);
    newIndex := index;
    if Id(adcBits, d) != UNKNOWN && !found {
      GoodMore(adcBits, values, sum, ds, level, i, d);
      LevelDoneLater(adcBits, values, sum, ds, ds + [d], level, i);
      result[index] := d;
      newIndex := index + 1;
      assert result[..newIndex] == ds + [d];
    }
    LevelDoneMore(adcBits, values, sum, result[..newIndex], level, i, d);
  }

  lemma OddNumber(k: nat)
    ensures (2 * k + 1) % 2 == 1
  {}

  /** `generate_voltage_divider_configurations_iterative`: the fractions of one level, until the result
      is full. */
  method GenerateLevel(adcBits: nat, values: array<real>, sum: real, result: array<VoltageDivider>, level: nat,
                       start: nat)
    returns (index: nat)
    requires values.Length > 0 && Increasing(values[..]) && Positive(values[..])
    requires start <= result.Length && Good(adcBits, values[..], sum, result[..start], level)
    modifies result
    ensures start <= index <= result.Length && result[..start] == old(result[..start])
    ensures Good(adcBits, values[..], sum, result[..index], level + 1)
    ensures index < result.Length ==> LevelExhausted(adcBits, values[..], sum, result[..index], level)
  {
    ghost var vs, before := values[..], result[..start];
    GoodLater(adcBits, vs, sum, before, level);
    index := start;
    var i := 1;
    ghost var k := 0;
    while i < Pow2(level + 1) && index < result.Length
      invariant i == 2 * k + 1 && start <= index <= result.Length && result[..start] == before
      invariant Underway(adcBits, vs, sum, result[..index], level, i)
      decreases Pow2(level + 1) - i
    {
      var d := MakeCandidate(values, sum, level, i);
      OddNumber(k);
      ghost var ds := result[..index];
      index := Consider(adcBits, vs, sum, result, index, level, i, d);
      assert result[..|ds|][..start] == ds[..start] == before;
      i := i + 2;
      k := k + 1;
    }
  }

  /** Unless the result is full, no level gone through has anything more to offer. */
  ghost predicate LevelsExhausted(adcBits: nat, values: seq<real>, sum: real, ds: seq<VoltageDivider>, levels: nat)
    requires AllValid(ds)
  {
    forall l | 0 <= l < levels :: LevelExhausted(adcBits, values, sum, ds, l)
  }

  lemma LevelsExhaustedMore(adcBits: nat, values: seq<real>, sum: real, ds: seq<VoltageDivider>,
                            more: seq<VoltageDivider>, levels: nat)
    requires AllValid(ds) && AllValid(more) && ds <= more && LevelsExhausted(adcBits, values, sum, ds, levels)
    requires LevelExhausted(adcBits, values, sum, more, levels)
    ensures LevelsExhausted(adcBits, values, sum, more, levels + 1)
  {
    forall l | 0 <= l < levels ensures LevelExhausted(adcBits, values, sum, more, l) {
      assert LevelExhausted(adcBits, values, sum, ds, l);
      LevelDoneLater(adcBits, values, sum, ds, more, l, Pow2(l + 1));
    }
  }

  /** `generate_voltage_divider_configurations`: ends when the result is full or a whole level has
      brought nothing new. In the filled part identifiers are known and distinct, every divider is the
      best one for some fraction, and unless the result is full none of the `levels` levels gone
      through has anything more to offer, and all of it came from the levels before the last one. */
  method Generate(adcBits: nat, t: ResistorTolerance, sum: real, capacity: nat)
    returns (result: array<VoltageDivider>, index: nat, ghost values: seq<real>, ghost levels: nat)
    ensures values == Decades(BaseValues(t), MAX_DECADE)
    ensures result.Length == capacity && index <= capacity && Good(adcBits, values, sum, result[..index], levels)
    ensures index < capacity ==>
              && levels > 0 && LevelsExhausted(adcBits, values, sum, result[..index], levels)
              && Good(adcBits, values, sum, result[..index], levels - 1)
  {
    TablesAreSeries(t);
    var series := GenerateSeries(BaseValues(t));
    values := series[..];
    result := new VoltageDivider[capacity](_ => VoltageDivider(0.0, 0.0));
    var level := 0;
    levels := 0;
    index := 0;
    var prevIndex := -1;
    while index < capacity && prevIndex != index
      invariant level == levels && prevIndex <= index <= capacity && (level == 0 ==> prevIndex != index)
      invariant series[..] == values && Good(adcBits, values, sum, result[..index], levels)
      invariant prevIndex == index ==> Good(adcBits, values, sum, result[..index], levels - 1)
      invariant index < capacity ==> LevelsExhausted(adcBits, values, sum, result[..index], levels)
      decreases capacity - prevIndex
    {
      prevIndex := index;
      ghost var before := result[..index];
      index := GenerateLevel(adcBits, series, sum, result, level, index);
      assert result[..index][..|before|] == before;
      if index < capacity { LevelsExhaustedMore(adcBits, values, sum, before, result[..index], levels); }
      level := level + 1;
      levels := level;
    }
  }
}
