/**
 * A model of the analysis pipeline of VSM Analyser: the unit conversion of a
 * recorded field/moment sweep and the feature extraction performed on it
 * (saturation moment, coercivity, remanence, integrated magnetic moment and
 * differential susceptibility).
 *
 * Every quantity is an exact `real`. The source scans its lists with loops
 * that update local accumulators; each such loop is a method here, proved
 * against a specification function whose own properties are stated as
 * ensures clauses and lemmas.
 */
module VSMAnalyser {

  // ---------------------------------------------------------------------------
  // Data loading and unit conversion
  // ---------------------------------------------------------------------------

  /** One parsed row of the input file: field in oersted, moment in emu. */
  datatype RawSample = RawSample(oersted: real, emu: real)

  /** Field in tesla of a field given in oersted (1 T = 10000 Oe); lossless over the reals. */
  function ToTesla(oersted: real): (tesla: real)
    ensures tesla * 10000.0 == oersted
  {
    oersted / 10000.0
  }

  /** Moment in A·m² of a moment given in emu (1 A·m² = 1000 emu); lossless over the reals. */
  function ToAm2(emu: real): (am2: real)
    ensures am2 * 1000.0 == emu
  {
    emu / 1000.0
  }

  /** The raw rows a normalised series came from, undoing both conversions. */
  function Denormalise(field: seq<real>, moment: seq<real>): (rows: seq<RawSample>)
    requires |field| == |moment|
    ensures |rows| == |field|
  {
    seq(|field|, i requires 0 <= i < |field| =>
      RawSample(field[i] * 10000.0, moment[i] * 1000.0))
  }

  /**
   * Splits the parsed rows into a field series (tesla) and a moment series
   * (A·m²), keeping the rows in their recorded order. The conversion loses
   * nothing: the rows can be rebuilt from the two series.
   */
  method ReadRawData(rows: seq<RawSample>) returns (field: seq<real>, moment: seq<real>)
    ensures |field| == |rows| && |moment| == |rows|
    ensures forall i :: 0 <= i < |rows| ==>
      field[i] == ToTesla(rows[i].oersted) && moment[i] == ToAm2(rows[i].emu)
    ensures Denormalise(field, moment) == rows
  {
    field, moment := [], [];
    for i := 0 to |rows|
      invariant |field| == i && |moment| == i
      invariant forall j :: 0 <= j < i ==>
        field[j] == ToTesla(rows[j].oersted) && moment[j] == ToAm2(rows[j].emu)
    {
      field := field + [ToTesla(rows[i].oersted)];
      moment := moment + [ToAm2(rows[i].emu)];
    }
  }

  // ---------------------------------------------------------------------------
  // Saturation moment
  // ---------------------------------------------------------------------------

  /** The largest value of a non-empty series, scanning from the front. */
  function Max(s: seq<real>): (m: real)
    requires |s| > 0
    ensures m in s
    ensures forall i :: 0 <= i < |s| ==> s[i] <= m
  {
    if |s| == 1 then s[0]
    else
      var m := Max(s[..|s| - 1]);
      if s[|s| - 1] > m then s[|s| - 1] else m
  }

  /** The maximum does not depend on the order in which samples were recorded. */
  lemma MaxOrderIndependent(a: seq<real>, b: seq<real>)
    requires |a| > 0 && multiset(a) == multiset(b)
    ensures |b| > 0 && Max(a) == Max(b)
  {
    assert |b| == |multiset(b)| == |multiset(a)| == |a|;
    var ma, mb := Max(a), Max(b);
    assert ma in multiset(b);
    assert mb in multiset(a);
    assert ma in b && mb in a;
  }

  /** Running-maximum scan over the moment series. */
  method SaturationMoment(moment: seq<real>) returns (saturation: real)
    requires |moment| > 0
    ensures saturation in moment
    ensures forall i :: 0 <= i < |moment| ==> moment[i] <= saturation
    ensures saturation == Max(moment)
  {
    saturation := moment[0];
    for i := 0 to |moment|
      invariant saturation == Max(moment[..if i == 0 then 1 else i])
    {
      if moment[i] > saturation {
        saturation := moment[i];
      }
      assert moment[..i + 1][..i] == moment[..i];
    }
    assert moment[..|moment|] == moment;
  }

  // ---------------------------------------------------------------------------
  // Coercivity
  // ---------------------------------------------------------------------------

  /** `k` indexes a minimal element of `s` and no earlier element is as small. */
  ghost predicate IsFirstMinimum(s: seq<real>, k: int) {
    0 <= k < |s| &&
    (forall j :: 0 <= j < |s| ==> s[k] <= s[j]) &&
    (forall j :: 0 <= j < k ==> s[k] < s[j])
  }

  /** Index of the first minimal element, scanning from the front with `<`. */
  function FirstArgMin(s: seq<real>): (k: nat)
    requires |s| > 0
    ensures IsFirstMinimum(s, k)
  {
    if |s| == 1 then 0
    else
      var k := FirstArgMin(s[..|s| - 1]);
      if s[|s| - 1] < s[k] then |s| - 1 else k
  }

  /** FirstArgMin is exactly the first minimal index: both directions. */
  lemma FirstArgMinCharacterised(s: seq<real>, k: int)
    requires |s| > 0
    ensures FirstArgMin(s) == k <==> IsFirstMinimum(s, k)
  {
  }

  /**
   * The field recorded at the first sample of minimal moment. The field series
   * needs only be long enough to hold that index.
   */
  method Coercivity(field: seq<real>, moment: seq<real>) returns (coercivity: real)
    requires |moment| > 0 && FirstArgMin(moment) < |field|
    ensures coercivity == field[FirstArgMin(moment)]
    ensures forall k :: IsFirstMinimum(moment, k) ==> coercivity == field[k]
  {
    var minMoment := moment[0];
    var minIndex := 0;
    for i := 0 to |moment|
      invariant minIndex == FirstArgMin(moment[..if i == 0 then 1 else i])
      invariant minMoment == moment[minIndex]
    {
      if moment[i] < minMoment {
        minMoment := moment[i];
        minIndex := i;
      }
      assert moment[..i + 1][..i] == moment[..i];
    }
    assert moment[..|moment|] == moment;
    coercivity := field[minIndex];
    forall k | IsFirstMinimum(moment, k) ensures coercivity == field[k] {
      FirstArgMinCharacterised(moment, k);
    }
  }

  // ---------------------------------------------------------------------------
  // Remanence
  // ---------------------------------------------------------------------------

  /** The moment at the last recorded sample (a positional convention). */
  function Remanence(moment: seq<real>): (remanence: real)
    requires |moment| > 0
    ensures moment == moment[..|moment| - 1] + [remanence]
  {
    moment[|moment| - 1]
  }

  /** Remanence changes if and only if the last sample changes. */
  lemma RemanenceOnlyReadsLastSample(a: seq<real>, b: seq<real>)
    requires |a| > 0 && |b| > 0
    ensures Remanence(a) == Remanence(b) <==> a[|a| - 1] == b[|b| - 1]
  {
  }

  /** Appending a sample makes that sample's moment the remanence. */
  lemma RemanenceOfAppendedSample(prefix: seq<real>, m: real)
    ensures Remanence(prefix + [m]) == m
  {
  }

  // ---------------------------------------------------------------------------
  // Magnetic moment: signed trapezoidal integration
  // ---------------------------------------------------------------------------

  /**
   * Signed area of the trapezoid under the segment from (f0, m0) to (f1, m1):
   * negative when the field decreases.
   */
  function TrapezoidArea(m0: real, m1: real, f0: real, f1: real): real {
    (m1 + m0) * (f1 - f0) / 2.0
  }

  /** Traversing a segment backwards negates its trapezoid. */
  lemma TrapezoidBackwards(m0: real, m1: real, f0: real, f1: real)
    ensures TrapezoidArea(m1, m0, f1, f0) == -TrapezoidArea(m0, m1, f0, f1)
  {
    var h, w := m0 + m1, f1 - f0;
    assert m1 + m0 == h && f0 - f1 == -w;
    assert h * (-w) == -(h * w);
  }

  /** Under a constant moment a trapezoid is a rectangle. */
  lemma TrapezoidConstant(c: real, f0: real, f1: real)
    ensures TrapezoidArea(c, c, f0, f1) == c * (f1 - f0)
  {
  }

  /** Adjacent rectangles of equal height add up to one rectangle. */
  lemma RectanglesAdd(c: real, f0: real, f1: real, f2: real)
    ensures c * (f1 - f0) + c * (f2 - f1) == c * (f2 - f0)
  {
  }

  /** A non-negative moment over a non-decreasing step gives a non-negative trapezoid. */
  lemma TrapezoidNonNegative(m0: real, m1: real, f0: real, f1: real)
    requires 0.0 <= m0 && 0.0 <= m1 && f0 <= f1
    ensures 0.0 <= TrapezoidArea(m0, m1, f0, f1)
  {
    var h, w := m1 + m0, f1 - f0;
    assert 0.0 <= h && 0.0 <= w;
    assert 0.0 <= h * w;
  }

  /** Signed area of the trapezoid between samples i-1 and i of the series. */
  function Trapezoid(field: seq<real>, moment: seq<real>, i: int): real
    requires 0 < i < |field| && i < |moment|
  {
    TrapezoidArea(moment[i - 1], moment[i], field[i - 1], field[i])
  }

  /**
   * Sum of the trapezoids over consecutive samples 1..|field|-1 in series
   * order; zero when there are fewer than two field samples.
   */
  function Area(field: seq<real>, moment: seq<real>): real
    requires |field| <= 1 || |field| <= |moment|
  {
    if |field| <= 1 then 0.0
    else Area(field[..|field| - 1], moment) + Trapezoid(field, moment, |field| - 1)
  }

  /** The area depends only on the moments paired with a field sample. */
  lemma {:induction false} AreaReadsPairedMoments(field: seq<real>, m1: seq<real>, m2: seq<real>)
    requires |field| <= |m1| && |field| <= |m2|
    requires m1[..|field|] == m2[..|field|]
    ensures Area(field, m1) == Area(field, m2)
  {
    var n := |field|;
    if n > 1 {
      assert m1[n - 1] == m1[..n][n - 1] && m2[n - 1] == m2[..n][n - 1];
      assert m1[n - 2] == m1[..n][n - 2] && m2[n - 2] == m2[..n][n - 2];
      assert m1[..n - 1] == m1[..n][..n - 1] && m2[..n - 1] == m2[..n][..n - 1];
      AreaReadsPairedMoments(field[..n - 1], m1, m2);
    }
  }

  /** Peeling the first trapezoid off the front instead of the back. */
  lemma {:induction false} AreaFirstTrapezoid(field: seq<real>, moment: seq<real>)
    requires 2 <= |field| <= |moment|
    ensures Area(field, moment) == Trapezoid(field, moment, 1) + Area(field[1..], moment[1..])
  {
    var n := |field|;
    if n > 2 {
      AreaFirstTrapezoid(field[..n - 1], moment);
      assert field[..n - 1][1..] == field[1..][..n - 2];
      assert Trapezoid(field[1..], moment[1..], n - 2) == Trapezoid(field, moment, n - 1);
      assert Trapezoid(field[..n - 1], moment, 1) == Trapezoid(field, moment, 1);
    }
  }

  /** A sequence in reverse order. */
  function Reverse(s: seq<real>): (r: seq<real>)
    ensures |r| == |s|
    ensures forall i :: 0 <= i < |s| ==> r[i] == s[|s| - 1 - i]
  {
    if s == [] then [] else Reverse(s[1..]) + [s[0]]
  }

  /** Dropping the last element of a reversal reverses the tail. */
  lemma ReversePrefix(s: seq<real>)
    requires |s| > 0
    ensures Reverse(s)[..|s| - 1] == Reverse(s[1..])
  {
    assert Reverse(s) == Reverse(s[1..]) + [s[0]];
  }

  /** The last trapezoid of a reversed sweep is the first one, traversed backwards. */
  lemma TrapezoidReversed(field: seq<real>, moment: seq<real>)
    requires 2 <= |field| == |moment|
    ensures Trapezoid(Reverse(field), Reverse(moment), |field| - 1) == -Trapezoid(field, moment, 1)
  {
    var n := |field|;
    var rf, rm := Reverse(field), Reverse(moment);
    assert rf[n - 1] == field[0] && rf[n - 2] == field[1];
    assert rm[n - 1] == moment[0] && rm[n - 2] == moment[1];
    TrapezoidBackwards(moment[0], moment[1], field[0], field[1]);
  }

  /**
   * Integration is signed: traversing the same sweep in the opposite
   * direction negates the area.
   */
  lemma {:induction false} AreaOfReversedSweep(field: seq<real>, moment: seq<real>)
    requires |field| == |moment|
    ensures Area(Reverse(field), Reverse(moment)) == -Area(field, moment)
  {
    var n := |field|;
    if n > 1 {
      var rf, rm := Reverse(field), Reverse(moment);
      ReversePrefix(field);
      ReversePrefix(moment);
      AreaReadsPairedMoments(rf[..n - 1], rm, Reverse(moment[1..]));
      AreaOfReversedSweep(field[1..], moment[1..]);
      TrapezoidReversed(field, moment);
      AreaFirstTrapezoid(field, moment);
    }
  }

  /**
   * For a constant moment `c` the trapezoids telescope to the rectangle
   * c * (last field - first field).
   */
  lemma {:induction false} ConstantMomentTelescopes(field: seq<real>, moment: seq<real>, c: real)
    requires 1 <= |field| <= |moment|
    requires forall i :: 0 <= i < |field| ==> moment[i] == c
    ensures Area(field, moment) == c * (field[|field| - 1] - field[0])
  {
    var n := |field|;
    if n > 1 {
      ConstantMomentTelescopes(field[..n - 1], moment, c);
      TrapezoidConstant(c, field[n - 2], field[n - 1]);
      RectanglesAdd(c, field[0], field[n - 2], field[n - 1]);
    }
  }

  /** A non-decreasing field sweep under a non-negative moment has non-negative area. */
  lemma {:induction false} AreaNonNegative(field: seq<real>, moment: seq<real>)
    requires |field| <= |moment|
    requires forall i :: 0 < i < |field| ==> field[i - 1] <= field[i]
    requires forall i :: 0 <= i < |field| ==> 0.0 <= moment[i]
    ensures 0.0 <= Area(field, moment)
  {
    var n := |field|;
    if n > 1 {
      AreaNonNegative(field[..n - 1], moment);
      TrapezoidNonNegative(moment[n - 2], moment[n - 1], field[n - 2], field[n - 1]);
    }
  }

  /** Accumulates the trapezoids over consecutive samples in series order. */
  method MagneticMoment(field: seq<real>, moment: seq<real>) returns (area: real)
    requires |field| <= 1 || |field| <= |moment|
    ensures area == Area(field, moment)
    ensures |field| <= 1 ==> area == 0.0
  {
    area := 0.0;
    var i := 1;
    while i < |field|
      invariant 1 <= i && (|field| == 0 || i <= |field|)
      invariant area == if |field| == 0 then 0.0 else Area(field[..i], moment)
    {
      var trapezoidArea := (moment[i] + moment[i - 1]) * (field[i] - field[i - 1]) / 2.0;
      assert field[..i + 1][..i] == field[..i];
      assert Trapezoid(field[..i + 1], moment, i) == trapezoidArea;
      area := area + trapezoidArea;
      i := i + 1;
    }
    assert field[..|field|] == field;
  }

  // ---------------------------------------------------------------------------
  // Differential susceptibility
  // ---------------------------------------------------------------------------

  /** The moment change each slope predicts over its field step: chi[i] * Δfield[i]. */
  function Steps(chi: seq<real>, field: seq<real>): (steps: seq<real>)
    requires |chi| < |field|
    ensures |steps| == |chi|
  {
    seq(|chi|, i requires 0 <= i < |chi| => chi[i] * (field[i + 1] - field[i]))
  }

  /** Running sums: the series that starts at m0 and moves by each step in turn. */
  function Accumulate(m0: real, steps: seq<real>): (m: seq<real>)
    ensures |m| == |steps| + 1 && m[0] == m0
  {
    if steps == [] then [m0]
    else
      var k := |steps| - 1;
      var prev := Accumulate(m0, steps[..k]);
      prev + [prev[k] + steps[k]]
  }

  /**
   * Accumulating the forward differences of a series from its first sample
   * gives the series back.
   */
  lemma {:induction false} AccumulateDifferences(moment: seq<real>, steps: seq<real>)
    requires 0 < |moment| && |steps| == |moment| - 1
    requires forall i :: 0 <= i < |steps| ==> steps[i] == moment[i + 1] - moment[i]
    ensures Accumulate(moment[0], steps) == moment
  {
    var k := |steps| - 1;
    if k >= 0 {
      var prefix := moment[..k + 1];
      AccumulateDifferences(prefix, steps[..k]);
      assert steps[..|steps| - 1] == steps[..k];
      assert Accumulate(moment[0], steps) == prefix + [moment[k] + steps[k]];
      assert prefix + [moment[k + 1]] == moment;
    }
  }

  /** Multiplying a difference quotient by its step gives back the difference. */
  lemma QuotientTimesStep(q: real, dm: real, df: real)
    requires df != 0.0 && q == dm / df
    ensures q * df == dm
  {
  }

  /** Each difference quotient is the slope that turns its field step into its moment step. */
  lemma QuotientsAreSlopes(moment: seq<real>, field: seq<real>, chi: seq<real>)
    requires |chi| < |moment| <= |field|
    requires forall i :: 0 <= i < |chi| ==> field[i + 1] != field[i]
    requires forall i :: 0 <= i < |chi| ==>
      chi[i] == (moment[i + 1] - moment[i]) / (field[i + 1] - field[i])
    ensures forall i :: 0 <= i < |chi| ==>
      chi[i] * (field[i + 1] - field[i]) == moment[i + 1] - moment[i]
  {
    forall t | 0 <= t < |chi|
      ensures chi[t] * (field[t + 1] - field[t]) == moment[t + 1] - moment[t]
    {
      QuotientTimesStep(chi[t], moment[t + 1] - moment[t], field[t + 1] - field[t]);
    }
  }

  /**
   * Differentiating and integrating are inverse: stepping from the first
   * moment by each slope times its field step gives back the moment series.
   */
  lemma AccumulateSlopes(moment: seq<real>, field: seq<real>, chi: seq<real>)
    requires 0 < |moment| <= |field| && |chi| == |moment| - 1
    requires forall i :: 0 <= i < |chi| ==>
      chi[i] * (field[i + 1] - field[i]) == moment[i + 1] - moment[i]
    ensures Accumulate(moment[0], Steps(chi, field)) == moment
  {
    var steps := Steps(chi, field);
    assert forall t :: 0 <= t < |chi| ==> steps[t] == chi[t] * (field[t + 1] - field[t]);
    AccumulateDifferences(moment, steps);
  }

  /**
   * Integrating the differential susceptibility recovers the moment series:
   * from the first moment, each quotient times its field step reproduces the
   * next moment.
   */
  lemma SusceptibilityIntegratesBack(moment: seq<real>, field: seq<real>, chi: seq<real>)
    requires 0 < |moment| <= |field| && |chi| == |moment| - 1
    requires forall i :: 0 <= i < |chi| ==> field[i + 1] != field[i]
    requires forall i :: 0 <= i < |chi| ==>
      chi[i] == (moment[i + 1] - moment[i]) / (field[i + 1] - field[i])
    ensures Accumulate(moment[0], Steps(chi, field)) == moment
  {
    QuotientsAreSlopes(moment, field, chi);
    AccumulateSlopes(moment, field, chi);
  }

  /**
   * The forward differences of moment and field, then their element-wise
   * quotients Δmoment/Δfield. The source divides unconditionally, so a zero
   * field step is excluded by the precondition.
   */
  method DifferentialSusceptibility(moment: seq<real>, field: seq<real>) returns (chi: seq<real>)
    requires |moment| <= 1 || |moment| <= |field|
    requires forall i :: 0 <= i < |moment| - 1 ==> field[i + 1] != field[i]
    ensures |chi| == if |moment| == 0 then 0 else |moment| - 1
    ensures forall i :: 0 <= i < |chi| ==>
      chi[i] == (moment[i + 1] - moment[i]) / (field[i + 1] - field[i])
  {
    ghost var pairs := if |moment| == 0 then 0 else |moment| - 1;
    var diffMoment, diffField := [], [];
    var i := 0;
    while i < |moment| - 1
      invariant 0 <= i <= pairs
      invariant |diffMoment| == i && |diffField| == i
      invariant forall t :: 0 <= t < i ==> diffMoment[t] == moment[t + 1] - moment[t]
      invariant forall t :: 0 <= t < i ==> diffField[t] == field[t + 1] - field[t]
      invariant forall t :: 0 <= t < i ==> diffField[t] != 0.0
    {
      diffMoment := diffMoment + [moment[i + 1] - moment[i]];
      diffField := diffField + [field[i + 1] - field[i]];
      i := i + 1;
    }
    // One entry per consecutive pair in each list, filled in index order.
    assert |diffMoment| == |diffField| == pairs;

    chi := [];
    for j := 0 to |diffMoment|
      invariant |chi| == j
      invariant forall t :: 0 <= t < j ==> chi[t] == diffMoment[t] / diffField[t]
    {
      var dm := diffMoment[j];
      var df := diffField[j];
      chi := chi + [dm / df];
    }
  }

  // ---------------------------------------------------------------------------
  // The pipeline on a recorded sweep
  // ---------------------------------------------------------------------------

  /** A quotient of two known steps has the value whose product with the field step is the moment step. */
  lemma SlopeOf(q: real, dm: real, df: real, v: real)
    requires df != 0.0 && q == dm / df
    requires v * df == dm
    ensures q == v
  {
  }

  /** The signed area of the four-sample sweep, one trapezoid at a time. */
  lemma ExampleSweepArea()
    ensures Area([0.0, 0.5, 1.0, -1.0], [0.1, 0.08, 0.05, -0.1]) == 0.1275
  {
    var f, m := [0.0, 0.5, 1.0, -1.0], [0.1, 0.08, 0.05, -0.1];
    assert f[..3][..2] == f[..2] && f[..2][..1] == f[..1] && f[..4] == f;
    assert Trapezoid(f[..2], m, 1) == TrapezoidArea(0.1, 0.08, 0.0, 0.5) == 0.045;
    assert Trapezoid(f[..3], m, 2) == TrapezoidArea(0.08, 0.05, 0.5, 1.0) == 0.0325;
    assert Trapezoid(f, m, 3) == TrapezoidArea(0.05, -0.1, 1.0, -1.0) == 0.05;
    assert Area(f[..2], m) == 0.045;
    assert Area(f[..3], m) == 0.0775;
  }

  /**
   * The feature extraction run on the four-sample sweep
   * (0 Oe, 100 emu), (5000 Oe, 80 emu), (10000 Oe, 50 emu), (-10000 Oe, -100 emu).
   */
  method ExampleSweep() returns (saturation: real, coercivity: real, remanence: real,
                                 area: real)
    ensures saturation == 0.1 && coercivity == -1.0 && remanence == -0.1
    ensures area == 0.1275
  {
    var rows := [RawSample(0.0, 100.0), RawSample(5000.0, 80.0),
                 RawSample(10000.0, 50.0), RawSample(-10000.0, -100.0)];
    var field, moment := ReadRawData(rows);
    assert field == [0.0, 0.5, 1.0, -1.0];
    assert moment == [0.1, 0.08, 0.05, -0.1];
    saturation := SaturationMoment(moment);
    FirstArgMinCharacterised(moment, 3);
    coercivity := Coercivity(field, moment);
    remanence := Remanence(moment);
    area := MagneticMoment(field, moment);
    ExampleSweepArea();
  }

  /** The differential susceptibility of the same four-sample sweep, in SI units. */
  method ExampleSweepSusceptibility() returns (chi: seq<real>)
    ensures chi == [-0.04, -0.06, 0.075]
  {
    var field, moment := [0.0, 0.5, 1.0, -1.0], [0.1, 0.08, 0.05, -0.1];
    chi := DifferentialSusceptibility(moment, field);
    assert moment[1] - moment[0] == -0.02 && field[1] - field[0] == 0.5;
    SlopeOf(chi[0], -0.02, 0.5, -0.04);
    assert moment[2] - moment[1] == -0.03 && field[2] - field[1] == 0.5;
    SlopeOf(chi[1], -0.03, 0.5, -0.06);
    assert moment[3] - moment[2] == -0.15 && field[3] - field[2] == -2.0;
    SlopeOf(chi[2], -0.15, -2.0, 0.075);
  }
}
