/** The additive synthesis in `WaveFormFileWrite`: the saw, square and
    triangle generators each fill a table of sine harmonics, one row per
    harmonic up to the Nyquist limit, and sum the rows column by column with
    a fixed sign per row. The sine rows themselves (`generateSineWave`, which
    calls `Math.sin`) are a parameter: `sine(f, a, j)` is sample `j` of the
    sine of frequency `f` and amplitude `a`. Doubles are modelled as reals. */
module WaveFormFileWrite {
  import opened JavaArith

  const SAMPLE_RATE: int := 41000
  const BIT_DEPTH: int := 16
  const FREQ1: int := 50
  const AMPLITUDE: int := 65
  const PRECISION: int := 50
  const DURATION: int := 15
  /** The length of every generated buffer. */
  const SIZE: nat := SAMPLE_RATE * DURATION * BIT_DEPTH / 8
  /** `SAMPLE_RATE / 2` in `int` arithmetic: the highest harmonic frequency kept. */
  const NYQUIST: int := SAMPLE_RATE / 2

  /** The three harmonic generators. */
  datatype WaveKind = Saw | Square | Triangle

  /** The sample values of `generateSineWave(f, a)`, left uninterpreted. */
  type SineTable = (int, real, int) -> real

  // ---------------------------------------------------------------------
  // Specification: the harmonic schedule and the summed wave.

  /** The multiplier of row `i`: `i + 1` for the saw (every harmonic), `2 * i + 1`
      for the square and the triangle (odd harmonics only), as `int`s. */
  function Multiplier(kind: WaveKind, i: nat): (m: Int)
    requires i <= INT_MAX
    ensures m != 0
  {
    if kind == Saw then
      Wrap32(i + 1)
    else
      var x := 2 * i + 1 + TWO_31;
      var m := Wrap32(2 * i + 1);
      assert m == x % TWO_32 - TWO_31 && x == TWO_32 * (x / TWO_32) + x % TWO_32;
      assert m == 2 * i + 1 - TWO_32 * (x / TWO_32);
      m
  }

  /** The frequency of row `i`: `freq * multiplier` as an `int`. */
  function Product(kind: WaveKind, freq: Int, i: nat): Int
    requires i <= INT_MAX
  {
    Wrap32(freq as int * Multiplier(kind, i) as int)
  }

  /** The row at which the fill loop stops: the first `i >= from` whose frequency
      lies above the Nyquist limit, or `precision` when none does. */
  function CutoffFrom(kind: WaveKind, freq: Int, precision: nat, from: nat): (c: nat)
    requires precision <= INT_MAX
    decreases precision - from
  {
    if from >= precision then from
    else if Product(kind, freq, from) > NYQUIST then from
    else CutoffFrom(kind, freq, precision, from + 1)
  }

  function Cutoff(kind: WaveKind, freq: Int, precision: nat): nat
    requires precision <= INT_MAX
  {
    CutoffFrom(kind, freq, precision, 0)
  }

  /** Entry `(i, j)` of the harmonics table after the fill loop: row `i` holds the
      full sine at the row's frequency with amplitude `amp / multiplier` below the
      cutoff, and stays zero from the cutoff on. */
  function Harmonic(kind: WaveKind, freq: Int, amp: real, precision: nat, sine: SineTable, i: nat, j: nat): real
    requires precision <= INT_MAX && i < precision
  {
    if i < Cutoff(kind, freq, precision) then Row(kind, freq, amp, sine, i, j) else 0.0
  }

  /** The sign `Math.pow(-1, i + 1)` of triangle row `i`: -1 for even rows, +1 for odd. */
  function TriangleSign(i: nat): real
  {
    if i % 2 == 0 then -1.0 else 1.0
  }

  /** What the summation loop adds for row `i`: the entry itself for the saw and
      the square, the entry times the row's sign for the triangle. */
  function Weighted(kind: WaveKind, i: nat, v: real): real
  {
    if kind == Triangle then TriangleSign(i) * v else v
  }

  /** The left-to-right sum of a column, each entry weighted by its row. */
  function WeightedSum(kind: WaveKind, column: seq<real>): real
  {
    if |column| == 0 then 0.0
    else WeightedSum(kind, column[..|column| - 1]) + Weighted(kind, |column| - 1, column[|column| - 1])
  }

  /** Column `j` of the harmonics table after the fill loop. */
  function HarmonicColumn(kind: WaveKind, freq: Int, amp: real, precision: nat, sine: SineTable, j: nat): (c: seq<real>)
    requires precision <= INT_MAX
    ensures |c| == precision
  {
    seq(precision, i requires 0 <= i < precision => Harmonic(kind, freq, amp, precision, sine, i, j))
  }

  /** What a generator returns: `SIZE` summed samples, or the exception of
      `new double[precision][SIZE]` for a negative precision. */
  function Wave(kind: WaveKind, freq: Int, amp: real, precision: Int, sine: SineTable): Outcome<seq<real>>
  {
    if precision < 0 then Throws(NegativeArraySizeException)
    else Ok(seq(SIZE, j requires 0 <= j < SIZE => WeightedSum(kind, HarmonicColumn(kind, freq, amp, precision, sine, j))))
  }

  /** Column `j` of a table, top to bottom. */
  function Column(h: array2<real>, j: nat): (c: seq<real>)
    requires j < h.Length1
    reads h
    ensures |c| == h.Length0
  {
    seq(h.Length0, i requires 0 <= i < h.Length0 reads h => h[i, j])
  }

  // ---------------------------------------------------------------------
  // The generators.

  method GenerateSawWave(freq: Int, amp: real, precision: Int, sine: SineTable) returns (r: Outcome<array<real>>)
    ensures r.Ok? ==> fresh(r.value)
    ensures Contents(r) == Wave(Saw, freq, amp, precision, sine)
  {
    r := GenerateHarmonicWave(Saw, freq, amp, precision, sine);
  }

  method GenerateSquareWave(freq: Int, amp: real, precision: Int, sine: SineTable) returns (r: Outcome<array<real>>)
    ensures r.Ok? ==> fresh(r.value)
    ensures Contents(r) == Wave(Square, freq, amp, precision, sine)
  {
    r := GenerateHarmonicWave(Square, freq, amp, precision, sine);
  }

  method GenerateTriangleWave(freq: Int, amp: real, precision: Int, sine: SineTable) returns (r: Outcome<array<real>>)
    ensures r.Ok? ==> fresh(r.value)
    ensures Contents(r) == Wave(Triangle, freq, amp, precision, sine)
  {
    r := GenerateHarmonicWave(Triangle, freq, amp, precision, sine);
  }

  /** The body the three generators share: allocate the output and the table,
      fill the rows up to the cutoff, sum the columns. */
  method GenerateHarmonicWave(kind: WaveKind, freq: Int, amp: real, precision: Int, sine: SineTable)
    returns (r: Outcome<array<real>>)
    ensures r.Ok? ==> fresh(r.value)
    ensures Contents(r) == Wave(kind, freq, amp, precision, sine)
  {
    var wave := new real[SIZE](_ => 0.0);
    if precision < 0 {
      return Throws(NegativeArraySizeException);
    }
    var harmonics := new real[precision, SIZE]((_, _) => 0.0);
    FillHarmonics(harmonics, kind, freq, amp, sine);
    SumHarmonics(wave, harmonics, kind);
    ghost var expected := Wave(kind, freq, amp, precision, sine).value;
    forall j | 0 <= j < SIZE
      ensures wave[j] == expected[j]
    {
      assert Column(harmonics, j) == HarmonicColumn(kind, freq, amp, precision, sine, j);
    }
    assert wave[..] == expected;
    return Ok(wave);
  }

  /** The fill loop: row `i` takes the sine at multiplier `Multiplier(kind, i)`
      until the first frequency above the Nyquist limit breaks the loop. */
  method FillHarmonics(harmonics: array2<real>, kind: WaveKind, freq: Int, amp: real, sine: SineTable)
    requires harmonics.Length0 <= INT_MAX && harmonics.Length1 == SIZE
    requires forall i, j :: 0 <= i < harmonics.Length0 && 0 <= j < SIZE ==> harmonics[i, j] == 0.0
    modifies harmonics
    ensures forall i, j :: 0 <= i < harmonics.Length0 && 0 <= j < SIZE ==>
      harmonics[i, j] == Harmonic(kind, freq, amp, harmonics.Length0, sine, i, j)
  {
    var precision := harmonics.Length0;
    ghost var cutoff := Cutoff(kind, freq, precision);
    var i := 0;
    while i < precision
      invariant i <= precision && CutoffFrom(kind, freq, precision, i) == cutoff
      invariant forall k, j :: 0 <= k < precision && 0 <= j < SIZE ==>
        harmonics[k, j] == if k < i then Row(kind, freq, amp, sine, k, j) else 0.0
    {
      var multiplier := Multiplier(kind, i);
      if Wrap32(freq as int * multiplier as int) > SAMPLE_RATE / 2 {
        break;
      }
      CopyRow(harmonics, i, sine, Wrap32(freq as int * multiplier as int), amp / (multiplier as real));
      i := i + 1;
    }
    assert i == cutoff;
  }

  /** Row `i` of the table when it is filled. */
  function Row(kind: WaveKind, freq: Int, amp: real, sine: SineTable, i: nat, j: nat): real
    requires i <= INT_MAX
  {
    sine(Product(kind, freq, i), amp / (Multiplier(kind, i) as real), j)
  }

  /** `System.arraycopy(generateSineWave(f, a), 0, harmonics[i], 0, SIZE)`. */
  method CopyRow(harmonics: array2<real>, i: nat, sine: SineTable, f: Int, a: real)
    requires i < harmonics.Length0 && harmonics.Length1 == SIZE
    modifies harmonics
    ensures forall k, j :: 0 <= k < harmonics.Length0 && 0 <= j < SIZE ==>
      harmonics[k, j] == if k == i then sine(f, a, j) else old(harmonics[k, j])
  {
    for j := 0 to SIZE
      invariant forall k, t :: 0 <= k < harmonics.Length0 && 0 <= t < SIZE ==>
        harmonics[k, t] == if k == i && t < j then sine(f, a, t) else old(harmonics[k, t])
    {
      harmonics[i, j] := sine(f, a, j);
    }
  }

  /** The summation loops: every output sample is the weighted sum of its column,
      over all `precision` rows. */
  method SumHarmonics(wave: array<real>, harmonics: array2<real>, kind: WaveKind)
    requires wave.Length == harmonics.Length1
    requires forall j :: 0 <= j < wave.Length ==> wave[j] == 0.0
    modifies wave
    ensures forall j :: 0 <= j < wave.Length ==> wave[j] == WeightedSum(kind, Column(harmonics, j))
  {
    for j := 0 to wave.Length
      invariant forall t :: 0 <= t < wave.Length ==>
        wave[t] == if t < j then WeightedSum(kind, Column(harmonics, t)) else 0.0
    {
      ghost var column := Column(harmonics, j);
      for i := 0 to harmonics.Length0
        invariant wave[j] == WeightedSum(kind, column[..i])
        invariant forall t :: 0 <= t < wave.Length && t != j ==>
          wave[t] == if t < j then WeightedSum(kind, Column(harmonics, t)) else 0.0
      {
        assert column[..i + 1][..i] == column[..i];
        wave[j] := wave[j] + Weighted(kind, i, harmonics[i, j]);
      }
      assert column[..harmonics.Length0] == column;
    }
  }

  // ---------------------------------------------------------------------
  // The harmonic schedule.

  /** The loop stops at the first row whose frequency lies strictly above the
      Nyquist limit: every row before it is at or below the limit, and the row
      at the cutoff, if any, is above it. */
  lemma {:induction false} CutoffFromIsFirst(kind: WaveKind, freq: Int, precision: nat, from: nat)
    requires precision <= INT_MAX && from <= precision
    ensures from <= CutoffFrom(kind, freq, precision, from) <= precision
    ensures forall i :: from <= i < CutoffFrom(kind, freq, precision, from) ==> Product(kind, freq, i) <= NYQUIST
    ensures CutoffFrom(kind, freq, precision, from) < precision ==>
      Product(kind, freq, CutoffFrom(kind, freq, precision, from)) > NYQUIST
    decreases precision - from
  {
    if from < precision && Product(kind, freq, from) <= NYQUIST {
      CutoffFromIsFirst(kind, freq, precision, from + 1);
    }
  }

  /** The kept rows form a prefix: row `i` is filled if and only if every
      frequency up to and including row `i` is at most `SAMPLE_RATE / 2`. */
  lemma {:induction false} CutoffIsFirst(kind: WaveKind, freq: Int, precision: nat, i: nat)
    requires precision <= INT_MAX && i < precision
    ensures i < Cutoff(kind, freq, precision) <==> forall k :: 0 <= k <= i ==> Product(kind, freq, k) <= NYQUIST
  {
    CutoffFromIsFirst(kind, freq, precision, 0);
  }

  /** With every frequency at or below the limit, no row is cut. */
  lemma {:induction false} NoCutoff(kind: WaveKind, freq: Int, precision: nat)
    requires precision <= INT_MAX
    requires forall i :: 0 <= i < precision ==> Product(kind, freq, i) <= NYQUIST
    ensures Cutoff(kind, freq, precision) == precision
  {
    CutoffFromIsFirst(kind, freq, precision, 0);
  }

  /** The saw uses every multiple of the base frequency, the square and the
      triangle only the odd ones (while the multiplier fits an `int`). */
  lemma {:induction false} MultiplierSchedule(kind: WaveKind, i: nat)
    requires i < 0x4000_0000
    ensures Multiplier(kind, i) == if kind == Saw then i + 1 else 2 * i + 1
  {
  }

  /** From row `2^30` on, the `int` `2 * i + 1` of the square and the triangle wraps
      around: row `2^30` gets the multiplier `-2^31 + 1`. */
  lemma {:induction false} MultiplierWraps(kind: WaveKind)
    requires kind != Saw
    ensures Multiplier(kind, 0x4000_0000) == -0x7FFF_FFFF
  {
    assert 2 * 0x4000_0000 + 1 == TWO_31 + 1;
  }

  /** The generators' defaults, base frequency 50 and precision 50, cut nothing:
      the highest saw frequency is 2500 and the highest odd one 4950. */
  lemma {:induction false} DefaultsKeepEveryHarmonic(kind: WaveKind)
    ensures Product(Saw, FREQ1, 49) == 2500 && Product(Square, FREQ1, 49) == 4950
    ensures Cutoff(kind, FREQ1, PRECISION) == PRECISION
  {
    forall i | 0 <= i < PRECISION
      ensures Product(kind, FREQ1, i) <= NYQUIST
    {
      assert Multiplier(kind, i) <= 99;
    }
    NoCutoff(kind, FREQ1, PRECISION);
  }

  /** A frequency exactly at the limit is kept: at base 4100 the odd multipliers
      1, 3 and 5 give 4100, 12300 and 20500, and 7 gives 28700, which is cut. */
  lemma {:induction false} NyquistIsInclusive()
    ensures Product(Square, 4100, 2) == NYQUIST
    ensures Cutoff(Square, 4100, PRECISION) == 3
  {
    CutoffFromIsFirst(Square, 4100, PRECISION, 0);
    assert Product(Square, 4100, 3) > NYQUIST;
    assert forall k :: 0 <= k <= 2 ==> Product(Square, 4100, k) <= NYQUIST;
    CutoffIsFirst(Square, 4100, PRECISION, 2);
  }

  /** At base 20000 only the fundamental survives, for every kind of wave. */
  lemma {:induction false} HighBaseKeepsOneRow(kind: WaveKind)
    ensures Cutoff(kind, 20000, PRECISION) == 1
  {
    CutoffIsFirst(kind, 20000, PRECISION, 0);
    assert Product(kind, 20000, 1) > NYQUIST;
    CutoffIsFirst(kind, 20000, PRECISION, 1);
  }

  /** Every buffer holds 41000 * 15 * 16 / 8 samples. */
  lemma {:induction false} OutputSize()
    ensures SIZE == 1_230_000 && NYQUIST == 20500
  {
  }

  // ---------------------------------------------------------------------
  // The summation.

  /** `(-1)^n`, as `Math.pow(-1, n)` yields it for a natural exponent. */
  function PowMinusOne(n: nat): real
  {
    if n == 0 then 1.0 else -PowMinusOne(n - 1)
  }

  /** The triangle's row signs are `(-1)^(i+1)`: -1, +1, -1, ... starting negative. */
  lemma {:induction false} TriangleSignIsPower(i: nat)
    ensures TriangleSign(i) == PowMinusOne(i + 1)
  {
    if i > 0 {
      TriangleSignIsPower(i - 1);
    }
  }

  lemma {:induction false} TriangleSignsStartNegative()
    ensures [TriangleSign(0), TriangleSign(1), TriangleSign(2)] == [-1.0, 1.0, -1.0]
    ensures [Multiplier(Triangle, 0), Multiplier(Triangle, 1), Multiplier(Triangle, 2)] == [1, 3, 5]
  {
  }

  /** Entries that are zero contribute nothing, whatever their row's sign. */
  lemma {:induction false} ZeroTailAddsNothing(kind: WaveKind, column: seq<real>, k: nat)
    requires k <= |column|
    requires forall i :: k <= i < |column| ==> column[i] == 0.0
    ensures WeightedSum(kind, column) == WeightedSum(kind, column[..k])
  {
    if |column| > k {
      var n := |column| - 1;
      assert column[..n][..k] == column[..k];
      ZeroTailAddsNothing(kind, column[..n], k);
    } else {
      assert column[..k] == column;
    }
  }

  /** The summation loops still run over all `precision` rows, but the rows from
      the cutoff on are zero, so each sample is the weighted sum of the kept
      harmonics alone. */
  lemma {:induction false} RowsPastCutoffAddNothing(kind: WaveKind, freq: Int, amp: real, precision: nat, sine: SineTable, j: nat)
    requires precision <= INT_MAX
    ensures var column := HarmonicColumn(kind, freq, amp, precision, sine, j);
      var c := Cutoff(kind, freq, precision);
      c <= precision &&
      WeightedSum(kind, column) == WeightedSum(kind, column[..c]) &&
      forall i :: 0 <= i < c ==> column[i] == Row(kind, freq, amp, sine, i, j)
  {
    CutoffFromIsFirst(kind, freq, precision, 0);
    ZeroTailAddsNothing(kind, HarmonicColumn(kind, freq, amp, precision, sine, j), Cutoff(kind, freq, precision));
  }

  /** The saw and the square add their rows unweighted; the triangle negates every
      even row. */
  lemma {:induction false} SumOfSigns(kind: WaveKind, column: seq<real>)
    ensures kind != Triangle ==> WeightedSum(kind, column) == PlainSum(column)
    ensures WeightedSum(Triangle, column) == PlainSum(seq(|column|, i requires 0 <= i < |column| => TriangleSign(i) * column[i]))
  {
    if |column| > 0 {
      var n := |column| - 1;
      SumOfSigns(kind, column[..n]);
      var signed := seq(|column|, i requires 0 <= i < |column| => TriangleSign(i) * column[i]);
      assert signed[..n] == seq(n, i requires 0 <= i < n => TriangleSign(i) * column[..n][i]);
    }
  }

  /** The left-to-right sum of a sequence. */
  function PlainSum(s: seq<real>): real
  {
    if |s| == 0 then 0.0 else PlainSum(s[..|s| - 1]) + s[|s| - 1]
  }
}
