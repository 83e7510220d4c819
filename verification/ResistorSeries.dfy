/** Series of resistor values (`hal/board_identification/resistor_series.h`). Values are real numbers. */
module ResistorSeries {
  import opened Arithmetic

  /** The tables of the source, row by row: the significant digits of each series. */
  const E12_ROWS: seq<seq<nat>> := [
    [100, 120, 150, 180, 220, 270, 330, 390, 470, 560, 680, 820]]
  const E24_ROWS: seq<seq<nat>> := [
    [100, 110, 120, 130, 150, 160, 180, 200, 220, 240, 270, 300],
    [330, 360, 390, 430, 470, 510, 560, 620, 680, 750, 820, 910]]
  const E48_ROWS: seq<seq<nat>> := [
    [100, 105, 110, 115, 121, 127, 133, 140, 147, 154, 162, 169],
    [178, 187, 196, 205, 215, 226, 237, 249, 261, 274, 287, 301],
    [316, 332, 348, 365, 383, 402, 422, 442, 464, 487, 511, 536],
    [562, 590, 619, 649, 681, 715, 750, 787, 825, 865, 909, 953]]
  const E96_ROWS: seq<seq<nat>> := [
    [100, 102, 105, 107, 110, 113, 115, 118, 121, 124, 127, 130],
    [133, 137, 140, 143, 147, 150, 154, 158, 162, 165, 169, 174],
    [178, 182, 187, 191, 196, 200, 205, 210, 215, 221, 226, 232],
    [237, 243, 249, 255, 261, 267, 274, 280, 287, 294, 301, 309],
    [316, 324, 332, 340, 348, 357, 365, 374, 383, 392, 402, 412],
    [422, 432, 442, 453, 464, 475, 487, 499, 511, 523, 536, 549],
    [562, 576, 590, 604, 619, 634, 649, 665, 681, 698, 715, 732],
    [750, 768, 787, 806, 825, 845, 866, 887, 909, 931, 953, 976]]
  const E192_ROWS: seq<seq<nat>> := [
    [100, 101, 102, 104, 105, 106, 107, 109, 110, 111, 113, 114],
    [115, 117, 118, 120, 121, 123, 124, 126, 127, 129, 130, 132],
    [133, 135, 137, 138, 140, 142, 143, 145, 147, 149, 150, 152],
    [154, 156, 158, 160, 162, 164, 165, 167, 169, 172, 174, 176],
    [178, 180, 182, 184, 187, 189, 191, 193, 196, 198, 200, 203],
    [205, 208, 210, 213, 215, 218, 221, 223, 226, 229, 232, 234],
    [237, 240, 243, 246, 249, 252, 255, 258, 261, 264, 267, 271],
    [274, 277, 280, 284, 287, 291, 294, 298, 301, 305, 309, 312],
    [316, 320, 324, 328, 332, 336, 340, 344, 348, 352, 357, 361],
    [365, 370, 374, 379, 383, 388, 392, 397, 402, 407, 412, 417],
    [422, 427, 432, 437, 442, 448, 453, 459, 464, 470, 475, 481],
    [487, 493, 499, 505, 511, 517, 523, 530, 536, 542, 549, 556],
    [562, 569, 576, 583, 590, 597, 604, 612, 619, 627, 634, 642],
    [649, 657, 665, 673, 681, 690, 698, 706, 715, 723, 732, 741],
    [750, 759, 768, 777, 787, 796, 806, 816, 825, 835, 845, 856],
    [866, 876, 887, 898, 909, 920, 931, 942, 953, 965, 976, 988]]

  /** The nominal accuracy of a resistor, with the series it comes from. */
  datatype ResistorTolerance = E12_10 | E24_5 | E48_2 | E96_1 | E96_0_5 | E192_0_1

  function Rows(t: ResistorTolerance): seq<seq<nat>> {
    match t
    case E12_10 => E12_ROWS
    case E24_5 => E24_ROWS
    case E48_2 => E48_ROWS
    case E96_1 => E96_ROWS
    case E96_0_5 => E96_ROWS
    case E192_0_1 => E192_ROWS
  }

  function Join(rows: seq<seq<nat>>): seq<nat> {
    if rows == [] then [] else Join(rows[..|rows| - 1]) + rows[|rows| - 1]
  }

  /** The significant digits of a series. */
  function BaseValues(t: ResistorTolerance): seq<nat> {
    Join(Rows(t))
  }

  const MIN_DECADE: int := -2
  const MAX_DECADE: int := 6

  /** Three significant digits, in increasing order. */
  ghost predicate BaseSeries(base: seq<nat>) {
    && base != [] && (forall i | 0 <= i < |base| :: 100 <= base[i] < 1000)
    && forall i, j | 0 <= i < j < |base| :: base[i] < base[j]
  }

  /** A row of a table. */
  ghost predicate Row(row: seq<nat>) {
    && |row| == 12 && 100 <= row[0] && row[11] < 1000
    && row[0] < row[1] < row[2] < row[3] < row[4] < row[5] < row[6] < row[7] < row[8] < row[9] < row[10] < row[11]
  }

  ghost predicate Table(rows: seq<seq<nat>>) {
    && rows != [] && (forall i | 0 <= i < |rows| :: Row(rows[i]))
    && forall i | 0 <= i < |rows| - 1 :: rows[i][11] < rows[i + 1][0]
  }

  lemma {:induction false} RowOrder(row: seq<nat>, i: nat, j: nat)
    requires Row(row) && i < j < 12
    ensures row[i] < row[j]
    decreases j
  {
    assert row[j - 1] < row[j];
    if i < j - 1 { RowOrder(row, i, j - 1); }
  }

  lemma RowIsSeries(row: seq<nat>)
    requires Row(row)
    ensures BaseSeries(row)
  {
    forall i, j | 0 <= i < j < 12 ensures row[i] < row[j] { RowOrder(row, i, j); }
    forall i | 0 <= i < 12 ensures 100 <= row[i] < 1000 {
      if i > 0 { RowOrder(row, 0, i); }
      if i < 11 { RowOrder(row, i, 11); }
    }
  }

  lemma SeriesJoin(a: seq<nat>, b: seq<nat>)
    requires BaseSeries(a) && BaseSeries(b) && a[|a| - 1] < b[0]
    ensures BaseSeries(a + b)
  {
    forall i, j | 0 <= i < |a| && 0 <= j < |b| ensures a[i] < b[j] {
      assert a[i] <= a[|a| - 1] && b[0] <= b[j];
    }
  }

  lemma {:induction false} TableIsSeries(rows: seq<seq<nat>>)
    requires Table(rows)
    ensures BaseSeries(Join(rows)) && Join(rows) != [] && Join(rows)[|Join(rows)| - 1] == rows[|rows| - 1][11]
  {
    hide Row, Table, BaseSeries;
    var n := |rows| - 1;
    TableEnds(rows);
    RowIsSeries(rows[n]);
    if n == 0 {
      assert Join(rows) == rows[n];
    } else {
      TableIsSeries(rows[..n]);
      SeriesJoin(Join(rows[..n]), rows[n]);
    }
  }

  /** The last row of a table goes on where the rows before it end. */
  lemma TableEnds(rows: seq<seq<nat>>)
    requires Table(rows)
    ensures var n := |rows| - 1;
      && n >= 0 && Row(rows[n]) && |rows[n]| == 12
      && (n > 0 ==> Table(rows[..n]) && |rows[n - 1]| == 12 && rows[n - 1][11] < rows[n][0])
  {}

  lemma E96IsTable()
    ensures Table(E96_ROWS)
  {}

  lemma E192IsTable()
    ensures Table(E192_ROWS)
  {}

  /** All tables of the source are series. */
  lemma TablesAreSeries(t: ResistorTolerance)
    ensures BaseSeries(BaseValues(t))
  {
    match t {
      case E96_1 => E96IsTable();
      case E96_0_5 => E96IsTable();
      case E192_0_1 => E192IsTable();
      case _ =>
    }
    TableIsSeries(Rows(t));
  }

  /** A row of a series holds every second value of two rows of the next finer one. */
  ghost predicate EverySecond(row: seq<nat>, a: seq<nat>, b: seq<nat>) {
    |row| == |a| == |b| == 12 && forall i | 0 <= i < 6 :: row[i] == a[2 * i] && row[6 + i] == b[2 * i]
  }

  lemma E96InE192(r: nat)
    requires r < 8
    ensures EverySecond(E96_ROWS[r], E192_ROWS[2 * r], E192_ROWS[2 * r + 1])
  {}

  lemma E48InE96(r: nat)
    requires r < 4
    ensures EverySecond(if r == 3 then E48_ROWS[3][9 := 866] else E48_ROWS[r], E96_ROWS[2 * r], E96_ROWS[2 * r + 1])
    ensures E48_ROWS[3][9] == 865
  {}

  /** The finer series contain the coarser ones, as IEC 60063 has it, but for one value: the E48 table
      says 865 where the E96 table says 866. */
  lemma SeriesNest()
    ensures forall r | 0 <= r < 8 :: EverySecond(E96_ROWS[r], E192_ROWS[2 * r], E192_ROWS[2 * r + 1])
    ensures forall r | 0 <= r < 3 :: EverySecond(E48_ROWS[r], E96_ROWS[2 * r], E96_ROWS[2 * r + 1])
    ensures EverySecond(E48_ROWS[3][9 := 866], E96_ROWS[6], E96_ROWS[7]) && E48_ROWS[3][9] == 865
    ensures EverySecond(E12_ROWS[0], E24_ROWS[0], E24_ROWS[1])
  {
    hide EverySecond;
    forall r | 0 <= r < 8 ensures EverySecond(E96_ROWS[r], E192_ROWS[2 * r], E192_ROWS[2 * r + 1]) { E96InE192(r); }
    forall r | 0 <= r < 3 ensures EverySecond(E48_ROWS[r], E96_ROWS[2 * r], E96_ROWS[2 * r + 1]) { E48InE96(r); }
    E48InE96(3);
    E12InE24();
  }

  lemma E12InE24()
    ensures EverySecond(E12_ROWS[0], E24_ROWS[0], E24_ROWS[1])
  {}

  function Pow10(d: int): (r: real)
    ensures r > 0.0
    decreases if d < 0 then -d else d
  {
    if d == 0 then 1.0 else if d > 0 then 10.0 * Pow10(d - 1) else Pow10(d + 1) / 10.0
  }

  lemma NextDecade(d: int)
    ensures Pow10(d + 1) == 10.0 * Pow10(d)
  {}

  function Scaled(value: nat, scale: real): real {
    value as real * scale / 100.0
  }

  function Decade(base: seq<nat>, d: int): (r: seq<real>)
    ensures |r| == |base|
  {
    seq(|base|, i requires 0 <= i < |base| => Scaled(base[i], Pow10(d)))
  }

  /** All decades from the lowest one up to `d`. */
  function Decades(base: seq<nat>, d: int): seq<real>
    decreases d - MIN_DECADE + 1
  {
    if d < MIN_DECADE then [] else Decades(base, d - 1) + Decade(base, d)
  }

  predicate Increasing(s: seq<real>) {
    forall i, j | 0 <= i < j < |s| :: s[i] < s[j]
  }

  lemma ScaledOrder(a: nat, b: nat, scale: real)
    requires scale > 0.0 && a < b
    ensures Scaled(a, scale) < Scaled(b, scale)
  {
    assert (b as real - a as real) * scale > 0.0;
  }

  lemma DecadeRange(base: seq<nat>, d: int)
    requires BaseSeries(base)
    ensures Increasing(Decade(base, d)) && forall v <- Decade(base, d) :: Pow10(d) <= v < Pow10(d + 1)
  {
    NextDecade(d);
    var s := Decade(base, d);
    forall i, j | 0 <= i < j < |s| ensures s[i] < s[j] { ScaledOrder(base[i], base[j], Pow10(d)); }
    forall i | 0 <= i < |s| ensures Pow10(d) <= s[i] < Pow10(d + 1) {
      if base[i] > 100 { ScaledOrder(100, base[i], Pow10(d)); }
      ScaledOrder(base[i], 1000, Pow10(d));
    }
  }

  /** The values of a whole series increase, over all decades. */
  lemma {:induction false} SeriesIncreases(base: seq<nat>, d: int)
    requires BaseSeries(base)
    ensures Increasing(Decades(base, d)) && forall v <- Decades(base, d) :: 0.0 < v < Pow10(d + 1)
    decreases d - MIN_DECADE + 1
  {
    if d >= MIN_DECADE {
      var low, high := Decades(base, d - 1), Decade(base, d);
      SeriesIncreases(base, d - 1);
      DecadeRange(base, d);
      NextDecade(d);
      forall i, j | 0 <= i < |low| && 0 <= j < |high| ensures low[i] < high[j] {
        assert low[i] in low && high[j] in high;
      }
      forall v <- low + high ensures 0.0 < v < Pow10(d + 1) {
        assert v in low || v in high;
      }
    }
  }

  /** The inner loop of `generate_series`. */
  method FillDecade(result: array<real>, start: nat, base: seq<nat>, decade: int) returns (index: nat)
    requires start + |base| <= result.Length
    modifies result
    ensures index == start + |base|
    ensures forall j | 0 <= j < start :: result[j] == old(result[j])
    ensures forall j | 0 <= j < |base| :: result[start + j] == Decade(base, decade)[j]
  {
    var scale := Pow10(decade);
    index := start;
    for k := 0 to |base|
      invariant index == start + k
      invariant forall j | 0 <= j < start :: result[j] == old(result[j])
      invariant forall j | 0 <= j < k :: result[start + j] == Scaled(base[j], scale)
    {
      result[index] := base[k] as real * scale / 100.0;
      index := index + 1;
    }
  }

  /** `generate_series`. */
  method GenerateSeries(base: seq<nat>) returns (result: array<real>)
    requires BaseSeries(base)
    ensures fresh(result) && result[..] == Decades(base, MAX_DECADE) && Increasing(result[..]) && result.Length > 0
    ensures forall v <- result[..] :: v > 0.0
  {
    SeriesIncreases(base, MAX_DECADE);
    DecadesLength(base, MAX_DECADE);
    result := new real[|base| * (MAX_DECADE - MIN_DECADE + 1)](_ => 0.0);
    var index := 0;
    for decade := MIN_DECADE to MAX_DECADE + 1
      invariant index == |Decades(base, decade - 1)| <= result.Length
      invariant result[..index] == Decades(base, decade - 1)
    {
      ghost var before, start := result[..index], index;
      RoomForDecade(base, decade);
      index := FillDecade(result, index, base, decade);
      PrefixGrows(result[..], start, index, before, Decade(base, decade));
    }
    assert result[..index] == result[..];
  }

  lemma PrefixGrows(s: seq<real>, start: nat, end: nat, before: seq<real>, more: seq<real>)
    requires end == start + |more| <= |s| && |before| == start && (forall j | 0 <= j < start :: s[j] == before[j])
    requires forall j | 0 <= j < |more| :: s[start + j] == more[j]
    ensures s[..end] == before + more
  {
    forall j | 0 <= j < end ensures s[j] == (before + more)[j] {
      if j >= start { assert s[start + (j - start)] == more[j - start]; }
    }
  }

  lemma RoomForDecade(base: seq<nat>, decade: int)
    requires MIN_DECADE <= decade <= MAX_DECADE
    ensures |Decades(base, decade - 1)| + |base| == |Decades(base, decade)| <= |base| * (MAX_DECADE - MIN_DECADE + 1)
  {
    DecadesLength(base, decade);
    MoreTimes(decade - MIN_DECADE + 1, MAX_DECADE - MIN_DECADE + 1, |base|);
  }

  lemma {:induction false} DecadesLength(base: seq<nat>, d: int)
    requires d >= MIN_DECADE - 1
    ensures |Decades(base, d)| == |base| * (d - MIN_DECADE + 1)
    decreases d - MIN_DECADE
  {
    if d >= MIN_DECADE {
      DecadesLength(base, d - 1);
      assert |base| * (d - MIN_DECADE + 1) == |base| * (d - MIN_DECADE) + |base|;
    }
  }

  function Distance(a: real, b: real): real {
    if a < b then b - a else a - b
  }

  /** No value of the series is closer to the target; of two that are as close, it is the upper. */
  ghost predicate Closest(values: seq<real>, target: real, r: real) {
    && r in values
    && (forall v <- values :: Distance(r, target) <= Distance(v, target))
    && forall v <- values | Distance(v, target) == Distance(r, target) :: v <= r
  }

  lemma ClosestIsUnique(values: seq<real>, target: real, a: real, b: real)
    requires Closest(values, target, a) && Closest(values, target, b)
    ensures a == b
  {}

  /** `find_closest_resistor`. */
  method FindClosestResistor(values: array<real>, target: real) returns (r: real)
    requires values.Length > 0 && Increasing(values[..])
    ensures Closest(values[..], target, r)
  {
    var low, high := 0, values.Length;
    assert forall i, j | 0 <= i < j < values.Length :: values[..][i] < values[..][j];
    while low < high
      invariant 0 <= low <= high <= values.Length
      invariant forall i | 0 <= i < low :: values[i] < target
      invariant forall i | high <= i < values.Length :: target <= values[i]
    {
      var mid := low + (high - low) / 2;
      if values[mid] < target {
        low := mid + 1;
      } else {
        high := mid;
      }
    }
    ghost var at := low;
    if low == 0 {
      r := values[0];
    } else if low == values.Length {
      r := values[low - 1];
      at := low - 1;
    } else {
      var below, above := values[low - 1], values[low];
      if target - below < above - target {
        r := below;
        at := low - 1;
      } else {
        r := above;
      }
    }
    assert values[..][at] == r;
    forall v <- values[..]
      ensures Distance(r, target) <= Distance(v, target) && (Distance(v, target) == Distance(r, target) ==> v <= r)
    {
      var i :| 0 <= i < values.Length && values[i] == v;
      if i < low - 1 { assert values[..][i] < values[..][low - 1]; }
      if i > low { assert values[..][low] < values[..][i]; }
    }
  }
}
