# VSM Analyser — a verified model of the analysis pipeline

VSM Analyser reads a sweep recorded by a vibrating-sample magnetometer. The
sweep is a list of (field, moment) rows in oersted and emu. The program
converts the rows to SI units (tesla, A·m²) and derives six results from
the resulting field and moment series. Five of them are modelled here:

- the **saturation moment**, the largest moment;
- the **coercivity**, the field at the first sample of smallest moment;
- the **remanence**, the moment of the last sample;
- the **magnetic moment**, the signed trapezoidal area under moment against field,
  summed in series order;
- the **differential susceptibility**, the list of quotients Δmoment/Δfield over
  consecutive samples.

The sixth result, the anisotropy constants k1 and k2 fitted by SciPy, is not
modelled; see the `fit_anisotropy_constants` line under "Left out".

The model is the Dafny module `VSMAnalyser` in `vsm_analyser.dfy`. All
quantities are exact `real`s. Each loop of the source that updates an
accumulator or appends to a list is a `method` with loop invariants. Each
such method is proved against a specification function (`Max`,
`FirstArgMin`, `Area`) or states its result element by element. The
properties the pipeline relies on are proved about those functions as
lemmas:

- the maximum does not depend on sample order;
- the first arg-min is characterised in both directions;
- integration is signed, so reversing a sweep negates its area;
- under a constant moment the trapezoids telescope to a rectangle;
- integrating the susceptibility from the first moment gives the moment series back.

At `VSManalyser.py:93` the code divides by Δfield without a guard. It does not
skip pairs whose field does not change. The model therefore makes a non-zero
field step a precondition of `DifferentialSusceptibility`, instead of dropping
those pairs.

The preconditions are exactly the conditions under which the Python code
raises no `IndexError`:

- saturation, coercivity and remanence need a non-empty moment series;
- coercivity needs the field series to reach the index of the first minimal moment;
- the trapezoid sum needs a moment for every field sample once there are two
  or more field samples;
- the susceptibility needs a field sample for every moment once there are two
  or more moments.

## Model

| member | source | states |
|---|---|---|
| VSMAnalyser.ToTesla | VSManalyser.py:21-22 | The oersted-to-tesla conversion is exact and invertible: the result times 10000 is the input. |
| VSMAnalyser.ToAm2 | VSManalyser.py:23-24 | The emu-to-A·m² conversion is exact and invertible: the result times 1000 is the input. |
| VSMAnalyser.ReadRawData | VSManalyser.py:16-25 | Both series have one entry per row, in row order. Entry i is row i's field in tesla and moment in A·m². Undoing the conversions rebuilds exactly the input rows. |
| VSMAnalyser.Max | VSManalyser.py:29-33 | The maximum of a non-empty series occurs in the series and is at least every element. |
| VSMAnalyser.MaxOrderIndependent | VSManalyser.py:29-33 | Two series holding the same samples in any order have the same maximum. |
| VSMAnalyser.SaturationMoment | VSManalyser.py:28-34 | The running-maximum scan returns a value that occurs in the moment series, is at least every moment, and equals `Max`. |
| VSMAnalyser.FirstArgMin | VSManalyser.py:38-43 | The index found indexes a minimal moment, and every earlier moment is strictly larger. |
| VSMAnalyser.FirstArgMinCharacterised | VSManalyser.py:40-43 | An index is the one found if and only if it is the first minimal index. Because the scan uses strict `<`, the first minimum wins ties. |
| VSMAnalyser.Coercivity | VSManalyser.py:37-45 | The result is the field at the first minimal moment, and equals the field at every index that is the first minimum. |
| VSMAnalyser.Remanence | VSManalyser.py:48-50 | The moment series is its earlier samples followed by the remanence, so the remanence is the last sample. |
| VSMAnalyser.RemanenceOnlyReadsLastSample | VSManalyser.py:49 | Two series have equal remanence if and only if their last samples are equal; no other sample matters. |
| VSMAnalyser.RemanenceOfAppendedSample | VSManalyser.py:49 | Appending a sample to any series makes that sample the remanence. |
| VSMAnalyser.TrapezoidBackwards | VSManalyser.py:57 | Helper of AreaOfReversedSweep: one trapezoid traversed from the later sample to the earlier one has the opposite signed area. |
| VSMAnalyser.TrapezoidConstant | VSManalyser.py:57 | Helper of ConstantMomentTelescopes: under equal moments at both ends one trapezoid is the rectangle moment × field step. |
| VSMAnalyser.TrapezoidNonNegative | VSManalyser.py:57 | Helper of AreaNonNegative: non-negative moments over a non-decreasing field step give a non-negative trapezoid. |
| VSMAnalyser.AreaReadsPairedMoments | VSManalyser.py:55-57 | The area depends only on the moments at indices that have a field sample; later moments do not matter. |
| VSMAnalyser.AreaFirstTrapezoid | VSManalyser.py:55-58 | The sum taken from the back equals the first trapezoid plus the area of the sweep without its first sample. |
| VSMAnalyser.AreaOfReversedSweep | VSManalyser.py:55-58 | Integration is signed: the same sweep traversed in reverse order has the negated area. |
| VSMAnalyser.ConstantMomentTelescopes | VSManalyser.py:55-58 | If every moment equals c, the area is c × (last field − first field). |
| VSMAnalyser.AreaNonNegative | VSManalyser.py:55-58 | A non-decreasing field sweep under non-negative moments has non-negative area. |
| VSMAnalyser.MagneticMoment | VSManalyser.py:53-60 | The accumulating loop returns the recursive trapezoid sum `Area` over consecutive pairs in series order. The result is 0 with fewer than two field samples. |
| VSMAnalyser.DifferentialSusceptibility | VSManalyser.py:76-96 | The result has one entry per consecutive pair: none for fewer than two moments, otherwise n−1. Entry i is (moment[i+1] − moment[i]) / (field[i+1] − field[i]), built from difference lists that pair the same positions. |
| VSMAnalyser.AccumulateDifferences | VSManalyser.py:82-84 | Summing the forward differences of a series from its first sample gives the series back, so the difference list loses only the starting value. |
| VSMAnalyser.QuotientsAreSlopes | VSManalyser.py:90-93 | Each quotient times its field step is its moment step. |
| VSMAnalyser.AccumulateSlopes | VSManalyser.py:82-93 | Stepping from the first moment by each slope times its field step gives back the moment series. |
| VSMAnalyser.SusceptibilityIntegratesBack | VSManalyser.py:76-96 | The susceptibility is an inverse of integration: from the first moment, each quotient times its field step reproduces every later moment. |
| VSMAnalyser.ExampleSweepArea | VSManalyser.py:53-60 | The sweep field (0, 0.5, 1, −1) T with moment (0.1, 0.08, 0.05, −0.1) A·m² has signed area 0.1275. |
| VSMAnalyser.ExampleSweep | VSManalyser.py:130-134 | The pipeline on the rows (0 Oe, 100 emu), (5000 Oe, 80 emu), (10000 Oe, 50 emu), (−10000 Oe, −100 emu) gives saturation 0.1, coercivity −1.0, remanence −0.1 and magnetic moment 0.1275. |
| VSMAnalyser.ExampleSweepSusceptibility | VSManalyser.py:136 | The same sweep's differential susceptibility is (−0.04, −0.06, 0.075). |

## Left out

- The Tk window, its button, text widget and footer, and the event loop (`VSManalyser.py:9-13`, `141-154`): user interface.
- `main`'s file dialog and the `numpy.loadtxt` parsing (`VSManalyser.py:17`, `128-129`, `137-138`): input and output. `ReadRawData` starts from already-parsed rows. A one-row file, which `loadtxt` returns as a one-dimensional array, is therefore not modelled.
- `fit_anisotropy_constants` (`VSManalyser.py:63-73`, `135`): a call into SciPy's non-linear least-squares fit over cosines, with no algorithm visible in the source.
- `plot_data` (`VSManalyser.py:99-114`): Matplotlib rendering.
- `display_parameters` (`VSManalyser.py:117-125`): text formatting, rounding to three digits, and the mean of the susceptibility list.
- IEEE-754 floating point: the model computes over exact reals. It has no rounding, no infinities and no NaN, so divisions by the constants 10000, 1000 and 2 are exact.
- DifferentialSusceptibility: requires every consecutive field step to be non-zero. The source divides anyway and obtains an infinity or NaN from NumPy floats, which exact reals cannot represent. Pairs with a zero field step are not skipped, because the code does not skip them.
- The Python failure paths (an `IndexError` on an empty series or a series too short to index) are not modelled as error results. They are excluded by preconditions that match exactly the inputs on which the code does not fail.
