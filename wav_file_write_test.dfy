/** The encoding half of the PCM codec in `WavFileWriteTest`: `packBits` and
    its fixed-width and general helpers, which cut each `long` sample into
    bytes, and the step of `genLongWave` that tiles one cycle of a wave into
    a longer buffer. */
module WavFileWriteTest {
  import opened JavaArith
  import opened Radix

  // ---------------------------------------------------------------------
  // Specification: the byte layout, as functions on sequences.

  /** The shift distance that selects byte `b` of a `w`-byte sample:
      `8 * (w - b - 1)` big-endian, `8 * b` little-endian. */
  function LaneShift(isBigEndian: bool, w: nat, b: nat): int
  {
    8 * (if isBigEndian then w - b - 1 else b)
  }

  /** `(byte) ((x >>> d) & 0xffL)`, as the unsigned pattern of the byte. */
  function LaneByte(x: Long, d: int): Byte
  {
    LowByte(Ushr(x, d))
  }

  /** The `w` bytes one sample is cut into. */
  function SampleBytes(x: Long, isBigEndian: bool, w: nat): (r: seq<Byte>)
    ensures |r| == w
  {
    seq(w, b requires 0 <= b < w => LaneByte(x, LaneShift(isBigEndian, w, b)))
  }

  /** The bytes of all samples, `w` per sample, in sample order. */
  function Packed(s: seq<Long>, isBigEndian: bool, w: nat): (r: seq<Byte>)
    ensures |r| == |s| * w
  {
    if |s| == 0 then []
    else Packed(s[..|s| - 1], isBigEndian, w) + SampleBytes(s[|s| - 1], isBigEndian, w)
  }

  /** `(int) Math.ceil(bitsPerSample / 8)`: the division is already truncated to
      an `int`, so the ceiling changes nothing. */
  function BytesPerSample(bitsPerSample: Int): int
  {
    JavaDiv(bitsPerSample, 8)
  }

  /** The number of bytes per sample `packBits` writes for a given depth. */
  function PackWidth(bitsPerSample: Int): int
  {
    match bitsPerSample
    case 8 => 1
    case 16 => 2
    case 24 => 3
    case _ => BytesPerSample(bitsPerSample)
  }

  /** The byte count `samples.length * w` stays within `int`, so no index
      expression of the packers wraps around. */
  predicate ByteCountFits(n: nat, bitsPerSample: Int)
  {
    -TWO_31 <= n * PackWidth(bitsPerSample) <= INT_MAX
  }

  /** `packAnyBit`: a negative byte count fails the allocation; otherwise each
      sample becomes `bytesPerSample` bytes (a negative width arises here only
      for an empty input, whose output is empty). */
  function PackAny(s: seq<Long>, isBigEndian: bool, bitsPerSample: Int): Outcome<seq<Byte>>
  {
    var w := BytesPerSample(bitsPerSample);
    if |s| * w < 0 then Throws(NegativeArraySizeException)
    else Ok(Packed(s, isBigEndian, if w < 0 then 0 else w))
  }

  /** `packBits`: the fixed-width cases (8 bits ignoring the byte order), and the
      general routine for every other depth. */
  function PackBitsSpec(s: seq<Long>, isBigEndian: bool, bitsPerSample: Int): Outcome<seq<Byte>>
  {
    match bitsPerSample
    case 8 => Ok(Packed(s, false, 1))
    case 16 => Ok(Packed(s, isBigEndian, 2))
    case 24 => Ok(Packed(s, isBigEndian, 3))
    case _ => PackAny(s, isBigEndian, bitsPerSample)
  }

  // ---------------------------------------------------------------------
  // The routines themselves.

  method PackBits(samples: array<Long>, isBigEndian: bool, bitsPerSample: Int)
    returns (r: Outcome<array<Byte>>)
    requires ByteCountFits(samples.Length, bitsPerSample)
    ensures r.Ok? ==> fresh(r.value)
    ensures Contents(r) == PackBitsSpec(samples[..], isBigEndian, bitsPerSample)
  {
    match bitsPerSample
    case 8 =>
      var bytes := Pack8Bit(samples);
      return Ok(bytes);
    case 16 =>
      var bytes := Pack16Bit(samples, isBigEndian);
      return Ok(bytes);
    case 24 =>
      var bytes := Pack24Bit(samples, isBigEndian);
      return Ok(bytes);
    case _ =>
      r := PackAnyBit(samples, isBigEndian, bitsPerSample);
  }

  method Pack8Bit(samples: array<Long>) returns (byteArray: array<Byte>)
    ensures fresh(byteArray)
    ensures byteArray[..] == Packed(samples[..], false, 1)
  {
    var numOfBytes := samples.Length;
    byteArray := new Byte[numOfBytes];
    for i := 0 to samples.Length
      invariant byteArray[..i] == Packed(samples[..i], false, 1)
    {
      UshrZero(samples[i]);
      assert samples[..i + 1][..i] == samples[..i];
      byteArray[i] := LowByte(samples[i]);
      assert byteArray[..i + 1] == byteArray[..i] + [byteArray[i]];
    }
    assert samples[..samples.Length] == samples[..];
    assert byteArray[..numOfBytes] == byteArray[..];
  }

  method Pack16Bit(samples: array<Long>, isBigEndian: bool) returns (byteArray: array<Byte>)
    requires samples.Length * 2 <= INT_MAX
    ensures fresh(byteArray)
    ensures byteArray[..] == Packed(samples[..], isBigEndian, 2)
  {
    var numOfBytes := samples.Length * 2;
    byteArray := new Byte[numOfBytes];
    for i := 0 to samples.Length
      invariant byteArray[..i * 2] == Packed(samples[..i], isBigEndian, 2)
    {
      Write16(byteArray, i * 2, samples[i], isBigEndian);
      PackedSnoc(samples[..], isBigEndian, 2, i);
    }
    assert samples[..samples.Length] == samples[..];
    assert byteArray[..numOfBytes] == byteArray[..];
  }

  /** The body of the loop of `pack16Bit`: the two bytes of `x` at `offset`. */
  method Write16(byteArray: array<Byte>, offset: nat, x: Long, isBigEndian: bool)
    requires offset + 2 <= byteArray.Length
    modifies byteArray
    ensures byteArray[..offset + 2] == old(byteArray[..offset]) + SampleBytes(x, isBigEndian, 2)
    ensures byteArray[offset + 2..] == old(byteArray[offset + 2..])
  {
    SampleBytes16(x, isBigEndian);
    if isBigEndian {
      byteArray[offset] := LowByte(Ushr(x, 8));
      byteArray[offset + 1] := LowByte(x);
    } else {
      byteArray[offset] := LowByte(x);
      byteArray[offset + 1] := LowByte(Ushr(x, 8));
    }
  }

  method Pack24Bit(samples: array<Long>, isBigEndian: bool) returns (byteArray: array<Byte>)
    requires samples.Length * 3 <= INT_MAX
    ensures fresh(byteArray)
    ensures byteArray[..] == Packed(samples[..], isBigEndian, 3)
  {
    var numOfBytes := samples.Length * 3;
    byteArray := new Byte[numOfBytes];
    for i := 0 to samples.Length
      invariant byteArray[..i * 3] == Packed(samples[..i], isBigEndian, 3)
    {
      Write24(byteArray, i * 3, samples[i], isBigEndian);
      PackedSnoc(samples[..], isBigEndian, 3, i);
    }
    assert samples[..samples.Length] == samples[..];
    assert byteArray[..numOfBytes] == byteArray[..];
  }

  /** The body of the loop of `pack24Bit`: the three bytes of `x` at `offset`. */
  method Write24(byteArray: array<Byte>, offset: nat, x: Long, isBigEndian: bool)
    requires offset + 3 <= byteArray.Length
    modifies byteArray
    ensures byteArray[..offset + 3] == old(byteArray[..offset]) + SampleBytes(x, isBigEndian, 3)
    ensures byteArray[offset + 3..] == old(byteArray[offset + 3..])
  {
    SampleBytes24(x, isBigEndian);
    if isBigEndian {
      byteArray[offset] := LowByte(Ushr(x, 16));
      byteArray[offset + 1] := LowByte(Ushr(x, 8));
      byteArray[offset + 2] := LowByte(x);
    } else {
      byteArray[offset] := LowByte(x);
      byteArray[offset + 1] := LowByte(Ushr(x, 8));
      byteArray[offset + 2] := LowByte(Ushr(x, 16));
    }
  }

  method PackAnyBit(samples: array<Long>, isBigEndian: bool, bitsPerSample: Int)
    returns (r: Outcome<array<Byte>>)
    requires ByteCountFits(samples.Length, bitsPerSample)
    ensures r.Ok? ==> fresh(r.value)
    ensures Contents(r) == PackAny(samples[..], isBigEndian, bitsPerSample)
  {
    var bytesPerSample := BytesPerSample(bitsPerSample);
    var numOfBytes := samples.Length * bytesPerSample;
    if numOfBytes < 0 {
      return Throws(NegativeArraySizeException);
    }
    var byteArray := new Byte[numOfBytes];
    WriteSamples(byteArray, samples, isBigEndian, if bytesPerSample < 0 then 0 else bytesPerSample);
    return Ok(byteArray);
  }

  /** The outer loop of `packAnyBit`, lines 119 to 127: sample `i` written from
      `i * bytesPerSample` on. A negative width only reaches here with no samples,
      where the loop does not run, so it is passed as 0. */
  method WriteSamples(byteArray: array<Byte>, samples: array<Long>, isBigEndian: bool, bytesPerSample: nat)
    requires byteArray.Length == samples.Length * bytesPerSample
    modifies byteArray
    ensures byteArray[..] == Packed(samples[..], isBigEndian, bytesPerSample)
  {
    var offset := 0;
    for i := 0 to samples.Length
      invariant i * bytesPerSample <= byteArray.Length
      invariant byteArray[..i * bytesPerSample] == Packed(samples[..i], isBigEndian, bytesPerSample)
    {
      offset := i * bytesPerSample;
      SampleInBounds(samples.Length, i, bytesPerSample);
      ghost var before := byteArray[..offset];
      WriteSample(byteArray, offset, samples[i], isBigEndian, bytesPerSample);
      PackedSnoc(samples[..], isBigEndian, bytesPerSample, i);
      assert byteArray[..(i + 1) * bytesPerSample] == before + SampleBytes(samples[i], isBigEndian, bytesPerSample);
    }
    assert samples[..samples.Length] == samples[..];
    assert byteArray[..samples.Length * bytesPerSample] == byteArray[..];
  }

  /** The packed prefix grows by one sample's bytes at a time. */
  lemma {:induction false} PackedSnoc(s: seq<Long>, isBigEndian: bool, w: nat, i: nat)
    requires i < |s|
    ensures Packed(s[..i + 1], isBigEndian, w) == Packed(s[..i], isBigEndian, w) + SampleBytes(s[i], isBigEndian, w)
    ensures i * w + w == (i + 1) * w
  {
    assert s[..i + 1][..i] == s[..i];
  }

  /** One pass of the inner loops of `packAnyBit`: the `bytesPerSample` bytes of
      sample `x` written from `offset` on, earlier bytes left alone. */
  method WriteSample(byteArray: array<Byte>, offset: nat, x: Long, isBigEndian: bool, bytesPerSample: nat)
    requires offset + bytesPerSample <= byteArray.Length
    modifies byteArray
    ensures byteArray[..offset + bytesPerSample] == old(byteArray[..offset]) + SampleBytes(x, isBigEndian, bytesPerSample)
    ensures byteArray[offset + bytesPerSample..] == old(byteArray[offset + bytesPerSample..])
  {
    ghost var lane := SampleBytes(x, isBigEndian, bytesPerSample);
    if isBigEndian {
      for b := 0 to bytesPerSample
        invariant byteArray[..offset + b] == old(byteArray[..offset]) + lane[..b]
        invariant byteArray[offset + bytesPerSample..] == old(byteArray[offset + bytesPerSample..])
      {
        byteArray[offset + b] := LowByte(Ushr(x, 8 * (bytesPerSample - b - 1)));
        assert byteArray[..offset + b + 1] == byteArray[..offset + b] + [byteArray[offset + b]];
        assert lane[..b + 1] == lane[..b] + [lane[b]];
      }
    } else {
      for b := 0 to bytesPerSample
        invariant byteArray[..offset + b] == old(byteArray[..offset]) + lane[..b]
        invariant byteArray[offset + bytesPerSample..] == old(byteArray[offset + bytesPerSample..])
      {
        byteArray[offset + b] := LowByte(Ushr(x, 8 * b));
        assert byteArray[..offset + b + 1] == byteArray[..offset + b] + [byteArray[offset + b]];
        assert lane[..b + 1] == lane[..b] + [lane[b]];
      }
    }
    assert lane[..bytesPerSample] == lane;
  }

  /** The bytes of sample `i < n`, at `i * w` to `i * w + w`, lie inside `n * w`. */
  lemma {:induction false} SampleInBounds(n: nat, i: nat, w: nat)
    requires i < n
    ensures i * w + w == (i + 1) * w <= n * w
  {
    var rest := n - i - 1;
    assert n * w == (i + 1) * w + rest * w;
    assert rest * w >= 0;
  }

  /** The two bytes `pack16Bit` writes for one sample, in the order it writes them. */
  lemma {:induction false} SampleBytes16(x: Long, isBigEndian: bool)
    ensures SampleBytes(x, isBigEndian, 2) ==
      if isBigEndian then [LowByte(Ushr(x, 8)), LowByte(x)] else [LowByte(x), LowByte(Ushr(x, 8))]
  {
    UshrZero(x);
  }

  /** The three bytes `pack24Bit` writes for one sample, in the order it writes them. */
  lemma {:induction false} SampleBytes24(x: Long, isBigEndian: bool)
    ensures SampleBytes(x, isBigEndian, 3) ==
      if isBigEndian then [LowByte(Ushr(x, 16)), LowByte(Ushr(x, 8)), LowByte(x)]
      else [LowByte(x), LowByte(Ushr(x, 8)), LowByte(Ushr(x, 16))]
  {
    UshrZero(x);
  }

  // ---------------------------------------------------------------------
  // The byte layout.

  /** Byte `b` of sample `i` sits at index `i * w + b` and depends on sample `i` alone. */
  lemma {:induction false} PackedAt(s: seq<Long>, isBigEndian: bool, w: nat, i: nat, b: nat)
    requires i < |s| && b < w
    ensures i * w + b < |s| * w
    ensures Packed(s, isBigEndian, w)[i * w + b] == SampleBytes(s[i], isBigEndian, w)[b]
  {
    SampleInBounds(|s|, i, w);
    var n := |s| - 1;
    if i < n {
      PackedAt(s[..n], isBigEndian, w, i, b);
      SampleInBounds(n, i, w);
    } else {
      assert i * w + b - n * w == b;
    }
  }

  /** The bytes `i * w` to `i * w + w - 1` of the output are sample `i`'s bytes. */
  lemma {:induction false} FrameOfPacked(s: seq<Long>, isBigEndian: bool, w: nat, i: nat)
    requires i < |s| && w > 0
    ensures i * w + w <= |s| * w
    ensures Packed(s, isBigEndian, w)[i * w..i * w + w] == SampleBytes(s[i], isBigEndian, w)
  {
    SampleInBounds(|s|, i, w);
    forall b | 0 <= b < w
      ensures Packed(s, isBigEndian, w)[i * w..i * w + w][b] == SampleBytes(s[i], isBigEndian, w)[b]
    {
      PackedAt(s, isBigEndian, w, i, b);
    }
  }

  /** Big-endian order is little-endian order reversed. */
  lemma {:induction false} BigIsReversedLittle(x: Long, w: nat, b: nat)
    requires b < w
    ensures SampleBytes(x, true, w)[b] == SampleBytes(x, false, w)[w - 1 - b]
  {
    assert LaneShift(true, w, b) == LaneShift(false, w, w - 1 - b);
  }

  /** Little-endian byte `b < 8` of a sample is bits `8b` to `8b + 7` of its
      64-bit pattern: for up to eight bytes, the base-256 digits of that pattern. */
  lemma {:induction false} LittleBytesAreDigits(x: Long, w: nat)
    requires w <= 8
    ensures SampleBytes(x, false, w) == LittleDigits(Unsigned(x), w)
  {
    forall b | 0 <= b < w
      ensures SampleBytes(x, false, w)[b] == LittleDigits(Unsigned(x), w)[b]
    {
      LowByteOfUshr(x, 8 * b);
      LittleDigitsAt(Unsigned(x), w, b);
    }
  }

  /** For up to eight bytes per sample, the little-endian bytes of a sample read
      back in base 256 give the sample modulo `256^w`. */
  lemma {:induction false} LittleBytesRecombine(x: Long, w: nat)
    requires w <= 8
    ensures LittleValue(SampleBytes(x, false, w)) == Unsigned(x) % Pow2(8 * w)
    ensures (LittleValue(SampleBytes(x, false, w)) - x) % Pow2(8 * w) == 0
  {
    LittleBytesAreDigits(x, w);
    LittleValueOfDigits(Unsigned(x), w);
    LowBitsCongruent(x, 8 * w);
  }

  /** Keeping the low `k <= 64` bits of a long's unsigned reading leaves it
      congruent to the long modulo `2^k`. */
  lemma {:induction false} LowBitsCongruent(x: Long, k: nat)
    requires k <= 64
    ensures (Unsigned(x) % Pow2(k) - x) % Pow2(k) == 0
  {
    var p := Pow2(k);
    Pow2Divides(k, 64);
    Pow2Values();
    assert p * Pow2(64 - k) == TWO_64;
    UnsignedCongruent(x);
    ModOfCongruent(Unsigned(x), x, p, Pow2(64 - k));
  }

  /** The converse of `LittleBytesRecombine`: every frame of up to eight bytes is
      what the little-endian loop writes for the `long` those bytes spell. */
  lemma {:induction false} LittleBytesOfValue(s: seq<Byte>)
    requires |s| <= 8
    ensures SampleBytes(Wrap64(LittleValue(s)), false, |s|) == s
  {
    var v := LittleValue(s);
    LittleValueFits(s);
    UnsignedWrap(v);
    LittleBytesAreDigits(Wrap64(v), |s|);
    DigitsOfLittleValue(s);
  }

  /** At most eight bytes spell a value below `2^64`. */
  lemma {:induction false} LittleValueFits(s: seq<Byte>)
    requires |s| <= 8
    ensures LittleValue(s) < TWO_64
  {
    var k := 8 * |s|;
    var p, q := Pow2(k), Pow2(64 - k);
    LittleValueBound(s);
    Pow2Divides(k, 64);
    Pow2Values();
    assert p * q == TWO_64;
    MulMono(1, q, p);
    assert q * p == p * q;
  }

  /** Beyond eight bytes per sample the shift distances wrap around modulo 64,
      so the little-endian lanes repeat every eight bytes. */
  lemma {:induction false} LittleLanesRepeat(x: Long, w: nat, b: nat)
    requires 8 <= b < w
    ensures SampleBytes(x, false, w)[b] == SampleBytes(x, false, w)[b - 8]
  {
    assert SampleBytes(x, false, w)[b] == LaneByte(x, 8 * b);
    assert SampleBytes(x, false, w)[b - 8] == LaneByte(x, 8 * (b - 8));
    assert 8 * b == 8 * (b - 8) + 64;
    ModPeriod(8 * (b - 8), 64);
  }

  /** One byte per sample keeps the low byte of the sample in either byte order,
      as `pack8Bit` does. */
  lemma {:induction false} OneByteLayout(s: seq<Long>, i: nat)
    requires i < |s|
    ensures Packed(s, true, 1) == Packed(s, false, 1)
    ensures Packed(s, false, 1)[i] == LowByte(s[i])
  {
    SampleBytesOneByte(s);
    PackedAt(s, false, 1, i, 0);
    UshrZero(s[i]);
  }

  lemma {:induction false} SampleBytesOneByte(s: seq<Long>)
    ensures Packed(s, true, 1) == Packed(s, false, 1)
  {
    if |s| > 0 {
      SampleBytesOneByte(s[..|s| - 1]);
      assert SampleBytes(s[|s| - 1], true, 1) == SampleBytes(s[|s| - 1], false, 1);
    }
  }

  /** `0x1234` at 16 bits packs to `34 12` little-endian and `12 34` big-endian. */
  lemma {:induction false} Example16Bit()
    ensures Packed([0x1234], false, 2) == [0x34, 0x12]
    ensures Packed([0x1234], true, 2) == [0x12, 0x34]
  {
    var s: seq<Long> := [0x1234];
    SingleSample(0x1234, false, 2);
    SingleSample(0x1234, true, 2);
    SampleBytes16(0x1234, false);
    SampleBytes16(0x1234, true);
    SecondByte(0x1234);
    DivModUnique(0x1234, 256, 0x12, 0x34);
    DivModUnique(0x12, 256, 0, 0x12);
    assert LowByte(0x1234) == 0x34;
    assert SampleBytes(0x1234, false, 2) == [0x34, 0x12];
  }

  /** A one-sample buffer holds exactly that sample's bytes. */
  lemma {:induction false} SingleSample(x: Long, isBigEndian: bool, w: nat)
    ensures Packed([x], isBigEndian, w) == SampleBytes(x, isBigEndian, w)
  {
    var s := [x];
    assert s[..0] == [];
    assert Packed(s, isBigEndian, w) == Packed(s[..0], isBigEndian, w) + SampleBytes(s[0], isBigEndian, w);
  }

  // ---------------------------------------------------------------------
  // Output width and the fast paths.

  /** The three fixed-width routines write exactly what the general routine
      writes for the same depth, so `packBits` is `packAnyBit` throughout. */
  lemma {:induction false} PackBitsFastPaths(s: seq<Long>, isBigEndian: bool, bitsPerSample: Int)
    ensures PackBitsSpec(s, isBigEndian, bitsPerSample) == PackAny(s, isBigEndian, bitsPerSample)
  {
    if bitsPerSample == 8 {
      SampleBytesOneByte(s);
    }
  }

  /** `packBits` writes `samples.length * w` bytes, `w` being the truncated
      `bitsPerSample / 8`, and fails only when that count is negative. */
  lemma {:induction false} PackBitsLength(s: seq<Long>, isBigEndian: bool, bitsPerSample: Int)
    ensures PackBitsSpec(s, isBigEndian, bitsPerSample).Ok? <==> |s| * PackWidth(bitsPerSample) >= 0
    ensures PackBitsSpec(s, isBigEndian, bitsPerSample).Ok? ==>
      |PackBitsSpec(s, isBigEndian, bitsPerSample).value| == |s| * PackWidth(bitsPerSample)
  {
    PackBitsFastPaths(s, isBigEndian, bitsPerSample);
    var w := BytesPerSample(bitsPerSample);
    if w < 0 && |s| > 0 {
      MulMono(1, |s|, -w);
      assert |s| * -w == -(|s| * w);
    }
  }

  /** The truncating division: 12 bits give one byte per sample, 4 bits none,
      and -12 bits minus one. */
  lemma {:induction false} WidthExamples()
    ensures PackWidth(12) == 1 && PackWidth(4) == 0 && PackWidth(-12) == -1
    ensures PackWidth(32) == 4 && PackWidth(8) == 1 && PackWidth(16) == 2 && PackWidth(24) == 3
  {
  }

  // ---------------------------------------------------------------------
  // Tiling one cycle into a long buffer (`genLongWave`, before quantisation).

  /** `cycles` copies of one cycle, back to back. */
  function Repeat(wave: seq<real>, cycles: nat): (r: seq<real>)
    ensures |r| == cycles * |wave|
  {
    if cycles == 0 then [] else Repeat(wave, cycles - 1) + wave
  }

  /** A fresh `double[]` of length `n`. */
  function Zeros(n: nat): (r: seq<real>)
    ensures |r| == n && forall j :: 0 <= j < n ==> r[j] == 0.0
  {
    seq(n, _ => 0.0)
  }

  /** The buffer `genLongWave` fills: `duration * sampleRate` slots (an `int`
      product), as many whole cycles as fit, the remainder left at zero. The
      division by the cycle length comes before the allocation. */
  function Tiled(wave: seq<real>, duration: Int, sampleRate: Int): Outcome<seq<real>>
  {
    var size := Wrap32(duration as int * sampleRate as int);
    if |wave| == 0 then Throws(ArithmeticException)
    else if size < 0 then Throws(NegativeArraySizeException)
    else
      var cycles := size / |wave|;
      CyclesFit(size, |wave|);
      Ok(Repeat(wave, cycles) + Zeros(size - cycles * |wave|))
  }

  /** Lines 36 to 42 of `genLongWave`: the sample buffer after the copy loop. */
  method TileWave(wave: array<real>, duration: Int, sampleRate: Int) returns (r: Outcome<array<real>>)
    ensures r.Ok? ==> fresh(r.value)
    ensures Contents(r) == Tiled(wave[..], duration, sampleRate)
  {
    var longWaveSize := Wrap32(duration as int * sampleRate as int);
    if wave.Length == 0 {
      return Throws(ArithmeticException);
    }
    var cycles := JavaDiv(longWaveSize, wave.Length);
    if longWaveSize < 0 {
      return Throws(NegativeArraySizeException);
    }
    assert cycles == longWaveSize / wave.Length;
    DivAtMost(longWaveSize, wave.Length);
    CyclesFit(longWaveSize, wave.Length);
    var samples := new real[longWaveSize](_ => 0.0);
    for i := 0 to cycles
      invariant samples[..] == Repeat(wave[..], i) + Zeros(longWaveSize - i * wave.Length)
    {
      SampleInBounds(cycles, i, wave.Length);
      ghost var rest := Zeros(longWaveSize - (i + 1) * wave.Length);
      assert Zeros(longWaveSize - i * wave.Length) == Zeros(wave.Length) + rest;
      ArrayCopy(wave, 0, samples, i * wave.Length, wave.Length);
      assert samples[..] == Repeat(wave[..], i) + wave[..] + rest;
    }
    return Ok(samples);
  }

  /** `System.arraycopy(src, srcPos, dest, destPos, length)` between two distinct
      arrays, with every index in bounds. */
  method ArrayCopy(src: array<real>, srcPos: nat, dest: array<real>, destPos: nat, length: nat)
    requires src != dest
    requires srcPos + length <= src.Length && destPos + length <= dest.Length
    modifies dest
    ensures dest[..] == old(dest[..destPos]) + src[srcPos..srcPos + length] + old(dest[destPos + length..])
  {
    for k := 0 to length
      invariant forall j :: 0 <= j < dest.Length ==>
        dest[j] == if destPos <= j < destPos + k then src[srcPos + (j - destPos)] else old(dest[j])
    {
      dest[destPos + k] := src[srcPos + k];
    }
    ghost var expected := old(dest[..destPos]) + src[srcPos..srcPos + length] + old(dest[destPos + length..]);
    forall j | 0 <= j < dest.Length
      ensures dest[j] == expected[j]
    {
      if j < destPos {
      } else if j < destPos + length {
        assert expected[j] == src[srcPos..srcPos + length][j - destPos];
      } else {
        assert expected[j] == old(dest[destPos + length..])[j - destPos - length];
      }
    }
    assert dest[..] == expected;
  }

  /** Whole cycles fit: `(size / L) * L <= size`. */
  lemma {:induction false} CyclesFit(size: nat, l: nat)
    requires l > 0
    ensures (size / l) * l <= size
  {
  }

  /** Slot `k * L + t` of the `k`-th whole cycle holds sample `t` of the cycle;
      every slot after the last whole cycle holds 0. */
  lemma {:induction false} TiledAt(wave: seq<real>, duration: Int, sampleRate: Int, j: nat)
    requires Tiled(wave, duration, sampleRate).Ok?
    requires j < |Tiled(wave, duration, sampleRate).value|
    ensures |Tiled(wave, duration, sampleRate).value| == Wrap32(duration as int * sampleRate as int)
    ensures var cycles := |Tiled(wave, duration, sampleRate).value| / |wave|;
      Tiled(wave, duration, sampleRate).value[j] ==
        if j < cycles * |wave| then wave[j % |wave|] else 0.0
  {
    var size := Wrap32(duration as int * sampleRate as int);
    var cycles := size / |wave|;
    CyclesFit(size, |wave|);
    if j < cycles * |wave| {
      RepeatAt(wave, cycles, j);
    }
  }

  lemma {:induction false} RepeatAt(wave: seq<real>, cycles: nat, j: nat)
    requires j < cycles * |wave|
    ensures |wave| > 0 && Repeat(wave, cycles)[j] == wave[j % |wave|]
  {
    var l := |wave|;
    var n := cycles - 1;
    if j < n * l {
      RepeatAt(wave, n, j);
    } else {
      var t := j - n * l;
      assert 0 <= t < l;
      DivModUnique(j, l, n, t);
    }
  }

  /** A cycle of three samples tiled into seven slots: two whole cycles and a zero. */
  lemma {:induction false} TiledExample()
    ensures Tiled([1.0, 2.0, 3.0], 7, 1) == Ok([1.0, 2.0, 3.0, 1.0, 2.0, 3.0, 0.0])
  {
    var w := [1.0, 2.0, 3.0];
    assert Wrap32(7 * 1) == 7;
    assert Repeat(w, 2) == w + w by {
      assert Repeat(w, 1) == [] + w;
    }
    assert Zeros(7 - 2 * 3) == [0.0];
    assert |w| == 3 && 7 / 3 == 2;
    assert Tiled(w, 7, 1) == Ok(Repeat(w, 2) + Zeros(7 - 2 * 3));
    assert w + w + [0.0] == [1.0, 2.0, 3.0, 1.0, 2.0, 3.0, 0.0];
  }
}
