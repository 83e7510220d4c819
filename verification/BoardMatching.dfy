/** Which readings a voltage divider accepts, and which board a reading identifies
    (`hal/board_identification/voltage_divider.h`, `hal/board_identification/board_ids.cc`). */
module BoardMatching {
  import opened Arithmetic
  import opened Bits
  import opened ResistorSeries
  import opened BoardConfigurations

  // ----- readings

  /** The full scale of a converter, cut to sixteen bits. */
  function FullScale(adcBits: nat): nat {
    Pow2(adcBits) % 0x1_0000
  }

  lemma FloorIs(x: real, m: int)
    ensures x.Floor == m <==> m as real <= x < m as real + 1.0
  {}

  /** `x / s` is what `x` is of `s`. */
  lemma QuotientBetween(x: real, s: real, m: real)
    requires s > 0.0
    ensures m <= x / s <==> m * s <= x
    ensures x / s < m <==> x < m * s
  {
    var q := x / s;
    assert x == q * s;
    assert (q - m) * s == x - m * s;
    if q >= m { Product(q - m, s); } else { Scale(m - q, s); assert (m - q) * s == m * s - x; }
  }

  /** A reading is the share of the lower resistor in full scale, rounded down. */
  lemma ReadingIs(adcBits: nat, high: real, low: real, m: int)
    requires high > 0.0 && low > 0.0
    ensures Measurement(adcBits, high, low) == m
            <==> m as real * (high + low) <= low * FullScale(adcBits) as real < (m + 1) as real * (high + low)
  {
    hide Pow2;
    var s, scale := high + low, FullScale(adcBits) as real;
    assert Division(high, low) * scale == low * scale / s by { ShareOfScale(low, s, scale); }
    FloorIs(low * scale / s, m);
    QuotientBetween(low * scale, s, m as real);
    QuotientBetween(low * scale, s, (m + 1) as real);
  }

  lemma ShareOfScale(low: real, s: real, scale: real)
    requires s > 0.0
    ensures low / s * scale == low * scale / s
  {
    var q := low / s;
    assert q * s == low;
    assert (q * scale) * s == low * scale;
  }

  // ----- accepted readings

  /** A value within the fraction `part` of the nominal one. */
  predicate Within(x: real, nominal: real, part: real) {
    nominal - nominal * part <= x <= nominal + nominal * part
  }

  /** Two resistors within five tolerances of their nominal values. */
  predicate InBand(t: ResistorTolerance, d: VoltageDivider, r: VoltageDivider) {
    && ValidDivider(r)
    && Within(r.high, d.high, 5.0 * Tolerance(t)) && Within(r.low, d.low, 5.0 * Tolerance(t))
  }

  function Reading(adcBits: nat, r: VoltageDivider): int
    requires ValidDivider(r)
  {
    Measurement(adcBits, r.high, r.low)
  }

  /** What is within five tolerances lies between the ends of the band. */
  lemma WithinEnds(x: real, nominal: real, t: ResistorTolerance)
    ensures Within(x, nominal, 5.0 * Tolerance(t)) <==> Smallest(nominal, t) <= x <= Largest(nominal, t)
  {
    hide Tolerance;
    var m := 5.0 * Tolerance(t);
    assert nominal * (1.0 - m) == nominal - nominal * m && nominal * (1.0 + m) == nominal + nominal * m;
  }

  lemma BandIsBetween(t: ResistorTolerance, d: VoltageDivider, r: VoltageDivider)
    requires ValidDivider(d)
    ensures InBand(t, d, r) <==>
              Smallest(d.high, t) <= r.high <= Largest(d.high, t) && Smallest(d.low, t) <= r.low <= Largest(d.low, t)
  {
    hide Tolerance, Within, Smallest, Largest;
    EndsOfBand(d.high, t);
    EndsOfBand(d.low, t);
    WithinEnds(r.high, d.high, t);
    WithinEnds(r.low, d.low, t);
  }

  /** The resistors at the two ends of the band. */
  lemma BandEnds(adcBits: nat, t: ResistorTolerance, d: VoltageDivider)
    returns (least: VoltageDivider, most: VoltageDivider)
    requires ValidDivider(d)
    ensures InBand(t, d, least) && Reading(adcBits, least) == MinMeasurement(adcBits, t, d)
    ensures InBand(t, d, most) && Reading(adcBits, most) == MaxMeasurement(adcBits, t, d)
  {
    hide Measurement, InBand, Smallest, Largest;
    Spread(t, d);
    least := VoltageDivider(Largest(d.high, t), Smallest(d.low, t));
    most := VoltageDivider(Smallest(d.high, t), Largest(d.low, t));
    BandIsBetween(t, d, least);
    BandIsBetween(t, d, most);
  }

  /** A reading is accepted if and only if it lies between the readings of two pairs of resistors that
      are within five tolerances of nominal. */
  lemma MatchIsBand(adcBits: nat, t: ResistorTolerance, d: VoltageDivider, m: int)
    requires ValidDivider(d)
    ensures IsMatch(adcBits, t, d, m)
            <==> exists r, s | InBand(t, d, r) && InBand(t, d, s) :: Reading(adcBits, r) <= m <= Reading(adcBits, s)
  {
    hide Measurement, Tolerance, MinMeasurement, MaxMeasurement;
    var least, most := BandEnds(adcBits, t, d);
    if exists r, s | InBand(t, d, r) && InBand(t, d, s) :: Reading(adcBits, r) <= m <= Reading(adcBits, s) {
      var r, s :| InBand(t, d, r) && InBand(t, d, s) && Reading(adcBits, r) <= m <= Reading(adcBits, s);
      BandMatches(adcBits, t, d, r);
      BandMatches(adcBits, t, d, s);
    }
    if IsMatch(adcBits, t, d, m) { assert Reading(adcBits, least) <= m <= Reading(adcBits, most); }
  }

  lemma BandMatches(adcBits: nat, t: ResistorTolerance, d: VoltageDivider, r: VoltageDivider)
    requires ValidDivider(d) && InBand(t, d, r)
    ensures IsMatch(adcBits, t, d, Reading(adcBits, r))
  {
    hide Measurement, InBand, Smallest, Largest;
    Spread(t, d);
    BandIsBetween(t, d, r);
    Band(adcBits, Smallest(d.high, t), Largest(d.high, t), Smallest(d.low, t), Largest(d.low, t), r.high, r.low);
  }

  /** A reading above that of every pair in the band, or below, is rejected. */
  lemma OutsideIsRejected(adcBits: nat, t: ResistorTolerance, d: VoltageDivider, m: int)
    requires ValidDivider(d)
    requires (forall r | InBand(t, d, r) :: Reading(adcBits, r) < m)
             || (forall r | InBand(t, d, r) :: m < Reading(adcBits, r))
    ensures !IsMatch(adcBits, t, d, m)
  {
    hide Measurement, Within, IsMatch;
    MatchIsBand(adcBits, t, d, m);
  }

  /** The readings of twelve bits that a divider of two equal resistors accepts. */
  function EqualBand(t: ResistorTolerance): (int, int) {
    match t
    case E12_10 => (1024, 3072)
    case E24_5 => (1536, 2560)
    case E48_2 => (1843, 2252)
    case E96_1 => (1945, 2150)
    case E96_0_5 => (1996, 2099)
    case E192_0_1 => (2037, 2058)
  }

  lemma EqualResistors(t: ResistorTolerance, r: real, m: int)
    requires r > 0.0
    ensures IsMatch(12, t, VoltageDivider(r, r), m) <==> EqualBand(t).0 <= m <= EqualBand(t).1
  {
    hide Measurement, Largest, Smallest;
    var p := 5.0 * Tolerance(t);
    EndsOfBand(r, t);
    EndsAre(r, t);
    UnequalReading(r, 1.0 + p, 1.0 - p, Largest(r, t), Smallest(r, t), EqualBand(t).0);
    UnequalReading(r, 1.0 - p, 1.0 + p, Smallest(r, t), Largest(r, t), EqualBand(t).1);
  }

  lemma EndsAre(r: real, t: ResistorTolerance)
    ensures Largest(r, t) == r * (1.0 + 5.0 * Tolerance(t)) && Smallest(r, t) == r * (1.0 - 5.0 * Tolerance(t))
  {
    hide Tolerance;
  }

  /** Two resistors that are off by the same part, one up and one down. */
  lemma UnequalReading(r: real, x: real, y: real, high: real, low: real, m: int)
    requires r > 0.0 && x + y == 2.0 && m as real <= 2048.0 * y < m as real + 1.0
    requires high > 0.0 && low > 0.0 && high == r * x && low == r * y
    ensures Measurement(12, high, low) == m
  {
    hide Measurement, FullScale;
    TwelveBits();
    ReadingIs(12, high, low, m);
    assert high + low == 2.0 * r by { Distributes(r, x, y); }
    NotBelow(r, y, low, m as real);
    NotAbove(r, y, low, m as real);
  }

  lemma TwelveBits()
    ensures FullScale(12) == 4096
  {
    assert Pow2(12) == 4096;
  }

  /** Multiplying by a positive number keeps the order. */
  lemma TimesKeepsOrder(a: real, b: real, r: real)
    requires r > 0.0
    ensures a <= b ==> a * r <= b * r
    ensures a < b ==> a * r < b * r
  {
    if a < b {
      Scale(b - a, r);
      assert (b - a) * r == b * r - a * r;
    }
  }

  lemma SideTimes(r: real, y: real)
    ensures (2048.0 * y) * (2.0 * r) == (r * y) * 4096.0
  {}

  lemma NotBelow(r: real, y: real, low: real, m: real)
    requires r > 0.0 && low == r * y && m <= 2048.0 * y
    ensures m * (2.0 * r) <= low * 4096.0
  {
    TimesKeepsOrder(m, 2048.0 * y, 2.0 * r);
    SideTimes(r, y);
  }

  lemma NotAbove(r: real, y: real, low: real, m: real)
    requires r > 0.0 && low == r * y && 2048.0 * y < m + 1.0
    ensures low * 4096.0 < (m + 1.0) * (2.0 * r)
  {
    TimesKeepsOrder(2048.0 * y, m + 1.0, 2.0 * r);
    SideTimes(r, y);
  }

  lemma Distributes(r: real, x: real, y: real)
    requires x + y == 2.0
    ensures r * x + r * y == 2.0 * r
  {
    assert r * x + r * y == r * (x + y);
  }

  // ----- boards

  const ADC_BITS: nat := 12
  const LOWEST: int := 0x72
  const HIGHEST: int := 0xf15
  const COMMS_BOARD_1: nat := 0x20
  const COMMS_BOARD_2: nat := 0xdf

  /** No two configurations accept the same reading. */
  ghost predicate Apart(t: ResistorTolerance, ds: seq<VoltageDivider>)
    requires AllValid(ds)
  {
    forall i, j, m | 0 <= i < j < |ds| :: !(IsMatch(ADC_BITS, t, ds[i], m) && IsMatch(ADC_BITS, t, ds[j], m))
  }

  /** `determine_board_id`, for any list of configurations: the first one that accepts the reading, but
      for the readings near the ends of the scale. */
  method DetermineBoardId(t: ResistorTolerance, configurations: seq<VoltageDivider>, reading: int) returns (id: nat)
    requires AllValid(configurations)
    ensures reading < LOWEST ==> id == COMMS_BOARD_1
    ensures reading > HIGHEST ==> id == COMMS_BOARD_2
    ensures LOWEST <= reading <= HIGHEST ==>
              if exists i | 0 <= i < |configurations| :: IsMatch(ADC_BITS, t, configurations[i], reading)
              then exists i | 0 <= i < |configurations| ::
                     && IsMatch(ADC_BITS, t, configurations[i], reading) && id == Id(ADC_BITS, configurations[i])
                     && forall j | 0 <= j < i :: !IsMatch(ADC_BITS, t, configurations[j], reading)
              else id == UNKNOWN
    ensures LOWEST <= reading <= HIGHEST && Apart(t, configurations) ==>
              forall i, r | 0 <= i < |configurations| && InBand(t, configurations[i], r)
                            && Reading(ADC_BITS, r) == reading :: id == Id(ADC_BITS, configurations[i])
  {
    hide IsMatch, Id, Within, Measurement;
    id := UNKNOWN;
    if reading < LOWEST {
      id := COMMS_BOARD_1;
    } else if reading > HIGHEST {
      id := COMMS_BOARD_2;
    } else {
      ghost var chosen := |configurations|;
      for i := 0 to |configurations|
        invariant id == UNKNOWN && chosen == |configurations|
        invariant forall j | 0 <= j < i :: !IsMatch(ADC_BITS, t, configurations[j], reading)
      {
        if IsMatch(ADC_BITS, t, configurations[i], reading) {
          id := Id(ADC_BITS, configurations[i]);
          chosen := i;
          break;
        }
      }
      forall i, r | 0 <= i < |configurations| && InBand(t, configurations[i], r)
                    && Reading(ADC_BITS, r) == reading
        ensures IsMatch(ADC_BITS, t, configurations[i], reading)
      {
        BandMatches(ADC_BITS, t, configurations[i], r);
      }
    }
  }
}
