# JavaSoundTest PCM codec and harmonic synthesis, in Dafny

This project models the sample-processing core of JavaSoundTest, a small Java
program that writes and reads WAV audio. It covers three parts.

* **The encoder in `WavFileWriteTest`.**
  - `packBits` cuts an array of `long` samples into bytes, big- or little-endian.
  - `pack8Bit`, `pack16Bit` and `pack24Bit` handle the fixed depths.
  - `packAnyBit` handles every other depth.
  - `genLongWave` tiles one cycle of a wave into a longer buffer with `System.arraycopy`.
* **The decoder in `WaveFormFileRead`.**
  - `unpackBits` turns bytes back into samples, through `unpack8Bit`, `unpack16Bit`, `unpack24Bit` and `unpackAnyBit`.
  - `extendSign` then sign-extends every sample as `(x << k) >> k`.
* **The additive synthesis in `WaveFormFileWrite`.**
  - `generateSawWave`, `generateSquareWave` and `generateTriangleWave` are modelled.
  - Each fills a table with sine harmonics up to the Nyquist limit `SAMPLE_RATE / 2`.
  - It then sums the table column by column. The triangle gives row `i` the sign `(-1)^(i+1)`.

Every routine is modelled as the Java code is written, except as listed under "## Left out". Integer semantics follow the Java Language Specification:

* `int` and `long` arithmetic wraps around.
* `/` truncates toward zero.
* A `long` shift uses only its distance mod 64.
* `>>` is arithmetic and `>>>` is logical.
* `(byte)` combined with `& 0xffL` keeps the low eight bits.

Module `JavaArith` defines these operators on unbounded integers. Module `Radix` holds little-endian base-256 helpers.

Every loop of the modelled routines is a Dafny method with a `while` or `for` loop over arrays. Each method is proved against a specification function on sequences: `Packed`, `Unpack16`, `UnpackAny`, `ExtendAll`, `Tiled` or `Wave`.

The lemmas about those functions state what the code actually does:

* where the pack/unpack/extend pipeline gives the samples back;
* the byte windows the decoders read;
* the exceptions that are thrown;
* the harmonic cutoff.

The code has three defects (see "## Findings"). Module `RoundTrip` shows each defect on the as-written model. Module `CorrectedCodec` stands beside the as-written model: it gives the frame layout the code evidently intends and proves the round trip for it.

## Model

| member | source | states |
|---|---|---|
| JavaArith.Wrap32 | JavaSoundTest/src/WaveFormFileRead.java:141 | an `int` product that fits in 32 bits is unchanged by the wrap-around |
| JavaArith.Wrap64 | JavaSoundTest/src/WaveFormFileRead.java:74 | Java's `long` wrap-around, applied after `<<`, `>>>` and the OR: a value already in the `long` range is unchanged, and `Wrap64Congruent` states that the result differs from its input by a multiple of `2^64` |
| JavaArith.JavaDiv | JavaSoundTest/src/WavFileWriteTest.java:116 | Java integer division truncates toward zero: in all four sign cases the quotient is the quotient of the magnitudes, negated when exactly one operand is negative |
| JavaArith.Shr | JavaSoundTest/src/WaveFormFileRead.java:74 | `x >> d` is the floor of `x / 2^(d mod 64)`, so it lies in the signed range of `64 - (d mod 64)` bits |
| JavaArith.Shl | JavaSoundTest/src/WaveFormFileRead.java:74 | `x << d` is `x` times `2^(d mod 64)` up to a multiple of `2^64`: only the low six bits of the distance count, and the product wraps around |
| JavaArith.Ushr | JavaSoundTest/src/WavFileWriteTest.java:123-125 | defines `x >>> d` as the unsigned pattern of `x` divided by `2^(d mod 64)`; its byte lanes are stated by `LowByteOfUshr` and `LittleBytesAreDigits` |
| JavaArith.LowByte | JavaSoundTest/src/WavFileWriteTest.java:123-125 | `(byte) (v & 0xffL)`, read back through `& 0xffL`, is a value in 0..255 congruent to `v` modulo 256 |
| JavaArith.Or | JavaSoundTest/src/WaveFormFileRead.java:146-148 | the `long` OR of `x` and `y` has zero as its identity on both sides, so the first OR into a fresh zero sample stores the shifted byte itself |
| JavaArith.ShlShrCongruent | JavaSoundTest/src/WaveFormFileRead.java:74 | `(x << k) >> k` agrees with `x` modulo `2^(64-k)` |
| JavaArith.ShlShrFixed | JavaSoundTest/src/WaveFormFileRead.java:74 | `(x << k) >> k` returns `x` unchanged when `x` already fits in `64 - k` signed bits |
| WavFileWriteTest.BytesPerSample | JavaSoundTest/src/WavFileWriteTest.java:116 | defines the width as `bitsPerSample / 8` truncated toward zero; `Math.ceil` of an `int` quotient changes nothing (values in `WidthExamples`) |
| WavFileWriteTest.PackAny | JavaSoundTest/src/WavFileWriteTest.java:115-129 | defines `packAnyBit`'s result: `NegativeArraySizeException` for a negative byte count, else `BytesPerSample` bytes per sample; `PackAnyBit` is proved against it |
| WavFileWriteTest.PackBitsSpec | JavaSoundTest/src/WavFileWriteTest.java:65-72 | defines `packBits`'s dispatch: 8 bits little-endian at width 1, 16 and 24 bits at widths 2 and 3, every other depth through `PackAny` |
| WavFileWriteTest.LaneShift | JavaSoundTest/src/WavFileWriteTest.java:123-125 | defines the shift distance of byte `b`: `8 * (w - b - 1)` big-endian and `8 * b` little-endian; `BigIsReversedLittle` states that big-endian byte `b` takes the distance of little-endian byte `w - 1 - b`, and `LittleLanesRepeat` that distances wrap modulo 64 past 8 bytes |
| WavFileWriteTest.LaneByte | JavaSoundTest/src/WavFileWriteTest.java:123-125 | defines `(byte) ((x >>> d) & 0xffL)`; `LowByteOfUshr` states that for `d < 64` it is the unsigned pattern of `x` divided by `2^d`, modulo 256 |
| WavFileWriteTest.PackWidth | JavaSoundTest/src/WavFileWriteTest.java:65-72 | defines the width each branch of `packBits` writes: 1, 2 and 3 bytes at 8, 16 and 24 bits, `BytesPerSample` otherwise; `PackBitsLength` states that `packBits` returns `samples.length * PackWidth` bytes, and `WidthExamples` gives its values |
| WavFileWriteTest.SampleBytes | JavaSoundTest/src/WavFileWriteTest.java:120-126 | a sample is cut into exactly `w` bytes |
| WavFileWriteTest.Packed | JavaSoundTest/src/WavFileWriteTest.java:120-127 | the packed buffer has `w` bytes per sample |
| WavFileWriteTest.PackBits | JavaSoundTest/src/WavFileWriteTest.java:65-72 | the returned array (or exception) is `PackBitsSpec`: one byte per sample, ignoring the byte order, at 8 bits; two or three bytes at 16 and 24; `packAnyBit` otherwise |
| WavFileWriteTest.Pack8Bit | JavaSoundTest/src/WavFileWriteTest.java:74-81 | the output is the low byte of every sample, in order |
| WavFileWriteTest.Pack16Bit | JavaSoundTest/src/WavFileWriteTest.java:83-96 | the output is every sample's two bytes, in the requested byte order, in sample order |
| WavFileWriteTest.Write16 | JavaSoundTest/src/WavFileWriteTest.java:87-93 | one iteration writes sample `x`'s two bytes at `2i` and `2i+1` and leaves every other byte, before and after them, unchanged |
| WavFileWriteTest.Pack24Bit | JavaSoundTest/src/WavFileWriteTest.java:98-113 | the output is every sample's three bytes, in the requested byte order, in sample order |
| WavFileWriteTest.Write24 | JavaSoundTest/src/WavFileWriteTest.java:102-110 | one iteration writes sample `x`'s three bytes at `3i` to `3i+2` and leaves every other byte, before and after them, unchanged |
| WavFileWriteTest.PackAnyBit | JavaSoundTest/src/WavFileWriteTest.java:115-129 | a negative byte count throws `NegativeArraySizeException`; otherwise the output is `bitsPerSample / 8` (truncated) bytes per sample, big- or little-endian |
| WavFileWriteTest.WriteSamples | JavaSoundTest/src/WavFileWriteTest.java:119-127 | the outer loop leaves the whole buffer equal to `Packed`: sample `i`'s `w` bytes at `i * w` to `i * w + w - 1`, in sample order |
| WavFileWriteTest.WriteSample | JavaSoundTest/src/WavFileWriteTest.java:121-126 | the inner loops write sample `i`'s bytes at `offset` to `offset + w - 1` and keep every earlier and every later byte |
| WavFileWriteTest.PackedSnoc | JavaSoundTest/src/WavFileWriteTest.java:120-127 | each pass of the outer loop appends one sample's bytes to the packed prefix |
| WavFileWriteTest.SampleInBounds | JavaSoundTest/src/WavFileWriteTest.java:121 | the offset `i * w` plus `w` never passes the buffer length `n * w` |
| WavFileWriteTest.SampleBytes16 | JavaSoundTest/src/WavFileWriteTest.java:87-93 | at width 2 the lanes are `x >>> 8` then `x` big-endian, and the reverse little-endian |
| WavFileWriteTest.SampleBytes24 | JavaSoundTest/src/WavFileWriteTest.java:102-110 | at width 3 the lanes are `x >>> 16`, `x >>> 8`, `x` big-endian, and the reverse little-endian |
| WavFileWriteTest.PackedAt | JavaSoundTest/src/WavFileWriteTest.java:121-125 | byte `b` of sample `i` sits at index `i * w + b` and depends on sample `i` alone |
| WavFileWriteTest.FrameOfPacked | JavaSoundTest/src/WavFileWriteTest.java:121-125 | bytes `i * w` to `i * w + w - 1` of the output are exactly sample `i`'s bytes |
| WavFileWriteTest.BigIsReversedLittle | JavaSoundTest/src/WavFileWriteTest.java:123-125 | the big-endian lanes are the little-endian lanes in reverse order |
| WavFileWriteTest.LittleBytesAreDigits | JavaSoundTest/src/WavFileWriteTest.java:125 | for widths up to 8, the little-endian bytes are the base-256 digits of the sample's unsigned pattern |
| WavFileWriteTest.LittleBytesRecombine | JavaSoundTest/src/WavFileWriteTest.java:125 | for `w <= 8`, recombining the `w` little-endian bytes gives the sample modulo `2^(8w)`; past 8 bytes the lanes repeat instead (`LittleLanesRepeat`) |
| WavFileWriteTest.LittleBytesOfValue | JavaSoundTest/src/WavFileWriteTest.java:125 | conversely, every frame of at most 8 bytes is exactly what the little-endian loop writes for the `long` those bytes spell |
| WavFileWriteTest.LittleLanesRepeat | JavaSoundTest/src/WavFileWriteTest.java:125 | past 8 bytes the shift distance wraps mod 64, so lane `b` repeats lane `b - 8` |
| WavFileWriteTest.OneByteLayout | JavaSoundTest/src/WavFileWriteTest.java:74-81 | at width 1 the byte order does not matter, and byte `i` is the low byte of sample `i` |
| WavFileWriteTest.SampleBytesOneByte | JavaSoundTest/src/WavFileWriteTest.java:67 | the big- and little-endian one-byte layouts coincide |
| WavFileWriteTest.Example16Bit | JavaSoundTest/src/WavFileWriteTest.java:83-96 | `0x1234` packs to `34 12` little-endian and to `12 34` big-endian |
| WavFileWriteTest.SingleSample | JavaSoundTest/src/WavFileWriteTest.java:120-127 | a one-sample array packs to exactly that sample's bytes |
| WavFileWriteTest.PackBitsFastPaths | JavaSoundTest/src/WavFileWriteTest.java:66-71 | at every depth, 8, 16 and 24 included, `packBits` returns what `packAnyBit` would: the fixed paths use the same widths, and at 8 bits the byte order makes no difference |
| WavFileWriteTest.PackBitsLength | JavaSoundTest/src/WavFileWriteTest.java:65-72 | `packBits` succeeds exactly when `samples.length * width >= 0`, and then returns that many bytes |
| WavFileWriteTest.WidthExamples | JavaSoundTest/src/WavFileWriteTest.java:116 | the width is 1 at 12 bits, 0 at 4 bits, -1 at -12 bits and 4 at 32 bits; the fixed paths use 1, 2 and 3 |
| WavFileWriteTest.Repeat | JavaSoundTest/src/WavFileWriteTest.java:40-42 | `cycles` copies of a cycle of length `L` hold `cycles * L` samples |
| WavFileWriteTest.Zeros | JavaSoundTest/src/WavFileWriteTest.java:38 | a fresh `double[n]` holds `n` zeros |
| WavFileWriteTest.Tiled | JavaSoundTest/src/WavFileWriteTest.java:36-42 | defines the buffer `genLongWave` fills: `ArithmeticException` for an empty cycle, then `NegativeArraySizeException` for a negative wrapped size, else the whole cycles followed by zeros; its slots are stated by `TiledAt` |
| WavFileWriteTest.TileWave | JavaSoundTest/src/WavFileWriteTest.java:36-42 | the buffer is `Tiled`: `ArithmeticException` for an empty cycle, `NegativeArraySizeException` for a negative `duration * sampleRate`, else whole cycles followed by zeros |
| WavFileWriteTest.ArrayCopy | JavaSoundTest/src/WavFileWriteTest.java:41 | `System.arraycopy` replaces `dest[destPos..destPos+length]` with the source range and leaves the rest unchanged |
| WavFileWriteTest.CyclesFit | JavaSoundTest/src/WavFileWriteTest.java:37 | `cycles * wave.length` never exceeds the buffer size |
| WavFileWriteTest.TiledAt | JavaSoundTest/src/WavFileWriteTest.java:36-42 | the buffer has `duration * sampleRate` slots (as an `int`); slot `j` holds `wave[j mod L]` inside the whole cycles and zero after them |
| WavFileWriteTest.RepeatAt | JavaSoundTest/src/WavFileWriteTest.java:40-42 | slot `j` of the repeated cycles is `wave[j mod L]` |
| WavFileWriteTest.TiledExample | JavaSoundTest/src/WavFileWriteTest.java:36-42 | a 3-sample cycle tiled into 7 slots gives two copies and one zero |
| WaveFormFileRead.AccumulateLittle | JavaSoundTest/src/WaveFormFileRead.java:148 | defines the sample after `n` passes of the little-endian inner loop: byte `i + b` shifted left by `8b`, ORed in order; its value is stated by `AccumulateLittleValue` |
| WaveFormFileRead.AccumulateBig | JavaSoundTest/src/WaveFormFileRead.java:146 | defines the sample after `n` passes of the big-endian inner loop: byte `i + b` shifted left by the wrapped `int` `8 * (bytesPerSample - b - 1)`, ORed in order; `ReadBigSample` is proved against it |
| WaveFormFileRead.UnpackAny | JavaSoundTest/src/WaveFormFileRead.java:140-152 | defines `unpackAnyBit`'s outcome: `ArithmeticException` when `bits * 8` wraps to 0, `NegativeArraySizeException` for a negative size, `ArrayIndexOutOfBoundsException` for a big-endian read past the end, else the accumulated samples |
| WaveFormFileRead.Unpacked | JavaSoundTest/src/WaveFormFileRead.java:97-104 | defines `unpackBits`'s dispatch: 8, 16 and 24 bits to the fixed decoders (8 bits ignoring the byte order), every other depth to `UnpackAny` |
| WaveFormFileRead.Unpack8 | JavaSoundTest/src/WaveFormFileRead.java:106-112 | one sample per byte, equal to the byte's unsigned value in 0..255 |
| WaveFormFileRead.Window16 | JavaSoundTest/src/WaveFormFileRead.java:119-121 | the OR of the two shifted bytes at `i` and `i + 1` is `256 * hi + lo`, in each byte order |
| WaveFormFileRead.Big16 | JavaSoundTest/src/WaveFormFileRead.java:119 | the OR of `b0 << 8` and `b1` is `256 * b0 + b1` |
| WaveFormFileRead.Little16 | JavaSoundTest/src/WaveFormFileRead.java:121 | the OR of `b0` and `b1 << 8` is `b0 + 256 * b1` |
| WaveFormFileRead.Window24 | JavaSoundTest/src/WaveFormFileRead.java:132-134 | the OR of the three shifted bytes at `i` to `i + 2` is their base-256 value, in each byte order |
| WaveFormFileRead.Big24 | JavaSoundTest/src/WaveFormFileRead.java:132 | the big-endian OR of three bytes is `65536 * b0 + 256 * b1 + b2` |
| WaveFormFileRead.Little24 | JavaSoundTest/src/WaveFormFileRead.java:134 | the little-endian OR of three bytes is `b0 + 256 * b1 + 65536 * b2` |
| WaveFormFileRead.Unpack16 | JavaSoundTest/src/WaveFormFileRead.java:115-116 | `bytes.length / 2` samples |
| WaveFormFileRead.Unpack24 | JavaSoundTest/src/WaveFormFileRead.java:128-129 | `bytes.length / 3` samples |
| WaveFormFileRead.AnyBitSize | JavaSoundTest/src/WaveFormFileRead.java:142 | for a positive sample width the size is the floor of `length / bytesPerSample` and at most the length; for a negative width it is at most zero |
| WaveFormFileRead.LittleSamples | JavaSoundTest/src/WaveFormFileRead.java:144-149 | the little-endian loop yields `size` samples |
| WaveFormFileRead.BigSamples | JavaSoundTest/src/WaveFormFileRead.java:144-146 | the big-endian loop yields `size` samples |
| WaveFormFileRead.ExtendAll | JavaSoundTest/src/WaveFormFileRead.java:73-75 | `extendSign` keeps the length and treats each element on its own |
| WaveFormFileRead.Unpack8Bit | JavaSoundTest/src/WaveFormFileRead.java:106-112 | the returned array is `Unpack8` of the input |
| WaveFormFileRead.Unpack16Bit | JavaSoundTest/src/WaveFormFileRead.java:114-125 | the returned array is `Unpack16`: `length / 2` samples, sample `i` built from bytes `i` and `i + 1` |
| WaveFormFileRead.Unpack24Bit | JavaSoundTest/src/WaveFormFileRead.java:127-138 | the returned array is `Unpack24`: `length / 3` samples, sample `i` built from bytes `i` to `i + 2` |
| WaveFormFileRead.UnpackAnyBit | JavaSoundTest/src/WaveFormFileRead.java:140-152 | the result is `UnpackAny`: division by zero, negative size and out-of-bounds reads raise their exceptions; otherwise samples are ORed from bytes `i + b` |
| WaveFormFileRead.BigReadsOutside | JavaSoundTest/src/WaveFormFileRead.java:144-146 | defines when the big-endian loop throws `ArrayIndexOutOfBoundsException`: some sample exists, the depth is positive, and the last sample's last read `size - 1 + bitsPerSample - 1` is past the end |
| WaveFormFileRead.BigReadFits | JavaSoundTest/src/WaveFormFileRead.java:146 | defines that the `bitsPerSample` reads `i + b` for sample `i` stay inside the buffer; `ReadBigSample` succeeds exactly when it holds |
| WaveFormFileRead.BigReadsOutsideExactly | JavaSoundTest/src/WaveFormFileRead.java:144-146 | the big-endian loop reads past the end if and only if the inner loop of some sample `i < size` does, so the last sample decides whether Java throws |
| WaveFormFileRead.ReadBigSample | JavaSoundTest/src/WaveFormFileRead.java:146 | the big-endian inner loop succeeds exactly when its `bitsPerSample` reads stay in bounds; it then leaves the OR of those shifted bytes in `samples[i]` and changes no other sample |
| WaveFormFileRead.ReadLittleSample | JavaSoundTest/src/WaveFormFileRead.java:148 | the little-endian inner loop leaves the OR of `bytesPerSample` shifted bytes in `samples[i]` and changes no other sample |
| WaveFormFileRead.UnpackBits | JavaSoundTest/src/WaveFormFileRead.java:97-104 | dispatches to the three fixed depths and to `unpackAnyBit`; the result is `Unpacked` |
| WaveFormFileRead.ExtendSign | JavaSoundTest/src/WaveFormFileRead.java:71-77 | it extends the argument array in place and returns that same array, element by element as `ExtendAll` |
| WaveFormFileRead.WindowInBounds | JavaSoundTest/src/WaveFormFileRead.java:148 | the little-endian loop reads no further than `i + bytesPerSample <= length` |
| WaveFormFileRead.SignExtended | JavaSoundTest/src/WaveFormFileRead.java:72-74 | defines one element of `extendSign` as `(x << k) >> k` with `k` the wrapped `int` `64 - bitsPerSample`; its meaning is stated by `SignExtendedRange`, `SignExtendedUnique` and `SignExtendedFixed` |
| WaveFormFileRead.SignExtendedRange | JavaSoundTest/src/WaveFormFileRead.java:72-74 | for depths 1..64 the extended value lies in the signed range of the depth and agrees with the input modulo `2^bits` |
| WaveFormFileRead.SignExtendedFixed | JavaSoundTest/src/WaveFormFileRead.java:72-74 | a value already in the signed range is unchanged |
| WaveFormFileRead.SignExtendedUnique | JavaSoundTest/src/WaveFormFileRead.java:72-74 | the extended value is the unique value in the signed range congruent to the input modulo `2^bits` |
| WaveFormFileRead.SignExtendedIdempotent | JavaSoundTest/src/WaveFormFileRead.java:72-74 | extending twice equals extending once |
| WaveFormFileRead.SignExtended64 | JavaSoundTest/src/WaveFormFileRead.java:72-74 | at 64 bits the shift distance is 0 and nothing changes |
| WaveFormFileRead.ExtendAllIdempotent | JavaSoundTest/src/WaveFormFileRead.java:71-77 | `extendSign` is idempotent on whole arrays and is the identity at 64 bits |
| WaveFormFileRead.Unpack16Windows | JavaSoundTest/src/WaveFormFileRead.java:117-122 | sample `i` reads bytes `i` and `i + 1`, which are in bounds; it is their base-256 value (reversed big-endian), below `2^16` |
| WaveFormFileRead.Unpack24Windows | JavaSoundTest/src/WaveFormFileRead.java:130-135 | sample `i` reads bytes `i` to `i + 2`, which are in bounds; it is their base-256 value (reversed big-endian), below `2^24` |
| WaveFormFileRead.UnpackAnyDividesByZero | JavaSoundTest/src/WaveFormFileRead.java:141-142 | at 0 bits, and at `0x2000_0000` bits where `bits * 8` wraps to 0, the division throws `ArithmeticException` |
| WaveFormFileRead.UnpackAnyInBounds | JavaSoundTest/src/WaveFormFileRead.java:140-152 | for `0 < bits < 2^28` the decoder succeeds with `length / (bits * 8)` samples, in either byte order |
| WaveFormFileRead.BigWindowsFit | JavaSoundTest/src/WaveFormFileRead.java:146 | with `size = length / (8 * bits)` the last big-endian read `size - 1 + bits - 1` is in bounds |
| WaveFormFileRead.UnpackAnyNegative | JavaSoundTest/src/WaveFormFileRead.java:141-143 | for `-2^28 <= bits < 0`, the size is negative (`NegativeArraySizeException`) when the input has at least `-8 * bits` bytes, and the result is empty otherwise; below `-2^28` the width wraps around (`NegativeDepthWraps`) |
| WaveFormFileRead.NegativeDepthWraps | JavaSoundTest/src/WaveFormFileRead.java:141-148 | at `-(2^29 - 1)` bits, `bits * 8` wraps to 8, so 8 bytes give one sample: the little-endian loop's OR of the 8 bytes, and 0 big-endian, where the loop bound `b < bits` is negative |
| WaveFormFileRead.UnpackAnyReadsPastEnd | JavaSoundTest/src/WaveFormFileRead.java:141-148 | at `0x2000_0001` bits the width wraps to 8: the big-endian loop reads past 8 bytes and throws, while the little-endian loop gives one sample |
| WaveFormFileRead.AccumulateLittleValue | JavaSoundTest/src/WaveFormFileRead.java:148 | up to 8 iterations of the little-endian OR loop give the base-256 value of the bytes read, as a `long` |
| WaveFormFileRead.UnpackOneBitLittle | JavaSoundTest/src/WaveFormFileRead.java:140-152 | at 1 bit, little-endian: `length / 8` samples, sample `i` the little-endian value of bytes `i` to `i + 7` |
| WaveFormFileRead.UnpackOneBitBig | JavaSoundTest/src/WaveFormFileRead.java:140-152 | at 1 bit, big-endian: `length / 8` samples, sample `i` holding byte `i` alone in its top eight bits |
| WaveFormFileRead.ShiftedByte | JavaSoundTest/src/WaveFormFileRead.java:146 | a byte shifted left by at most 56 bits and ORed into zero keeps its value times `2^d` |
| WaveFormFileWrite.Multiplier | JavaSoundTest/src/WaveFormFileWrite.java:104 | defines row `i`'s multiplier as the `int` `i + 1` for the saw (line 104) and `2i + 1` for the square and the triangle (lines 126 and 148); it is never zero, even once wrapped, so the amplitude `amp / multiplier` at line 106 is always defined; values in `MultiplierSchedule` |
| WaveFormFileWrite.Product | JavaSoundTest/src/WaveFormFileWrite.java:105-106 | defines row `i`'s frequency as the wrapped `int` product `freq * multiplier`, the one compared with the limit and passed to the sine |
| WaveFormFileWrite.CutoffFrom | JavaSoundTest/src/WaveFormFileWrite.java:103-105 | defines where the fill loop breaks, from row `from` on; `CutoffFromIsFirst` states that it is the first row above the limit |
| WaveFormFileWrite.Cutoff | JavaSoundTest/src/WaveFormFileWrite.java:103-105 | defines the number of filled rows; `CutoffIsFirst` states that row `i` is filled exactly when no row up to `i` is above the limit |
| WaveFormFileWrite.Row | JavaSoundTest/src/WaveFormFileWrite.java:106 | defines a filled row as the sine at `Product` with amplitude `amp / multiplier`; `FillHarmonics` is proved against it |
| WaveFormFileWrite.TriangleSign | JavaSoundTest/src/WaveFormFileWrite.java:157 | defines the triangle's row weight as -1 for even rows and +1 for odd rows; `TriangleSignIsPower` states that it is `(-1)^(i+1)` |
| WaveFormFileWrite.Wave | JavaSoundTest/src/WaveFormFileWrite.java:97-161 | defines a generator's result: `NegativeArraySizeException` for a negative precision, else `SIZE` samples, each the weighted sum of its column of the filled table; the three generators are proved against it |
| WaveFormFileWrite.Harmonic | JavaSoundTest/src/WaveFormFileWrite.java:103-108 | defines cell `(i, j)` of the table after the fill loop: `Row` below `Cutoff`, zero from the cutoff on; `FillHarmonics` is proved against it and `CutoffIsFirst` says which rows lie below the cutoff |
| WaveFormFileWrite.Weighted | JavaSoundTest/src/WaveFormFileWrite.java:157 | defines what the summation adds for row `i`: the entry itself for the saw and the square (lines 113 and 135), the entry times `TriangleSign(i)` for the triangle; `TriangleSignIsPower` states that this weight is `(-1)^(i+1)` |
| WaveFormFileWrite.WeightedSum | JavaSoundTest/src/WaveFormFileWrite.java:111-115 | defines the left-to-right `+=` over a column; `SumOfSigns` states that it is the plain sum for the saw and the square and the sum of `(-1)^(i+1)` times each entry for the triangle (lines 155-159) |
| WaveFormFileWrite.HarmonicColumn | JavaSoundTest/src/WaveFormFileWrite.java:99 | every column of the table has `precision` entries |
| WaveFormFileWrite.Column | JavaSoundTest/src/WaveFormFileWrite.java:112-114 | the column read by the inner summation loop has one entry per row |
| WaveFormFileWrite.GenerateSawWave | JavaSoundTest/src/WaveFormFileWrite.java:97-117 | the result is `Wave(Saw, ...)`: multipliers `i + 1`, unsigned sum |
| WaveFormFileWrite.GenerateSquareWave | JavaSoundTest/src/WaveFormFileWrite.java:119-139 | the result is `Wave(Square, ...)`: multipliers `2i + 1`, unsigned sum |
| WaveFormFileWrite.GenerateTriangleWave | JavaSoundTest/src/WaveFormFileWrite.java:141-161 | the result is `Wave(Triangle, ...)`: multipliers `2i + 1`, row `i` weighted by `(-1)^(i+1)` |
| WaveFormFileWrite.GenerateHarmonicWave | JavaSoundTest/src/WaveFormFileWrite.java:98-99 | a negative precision throws `NegativeArraySizeException`; otherwise `SIZE` samples, sample `j` the weighted sum of column `j` |
| WaveFormFileWrite.FillHarmonics | JavaSoundTest/src/WaveFormFileWrite.java:103-108 | rows below the cutoff hold the sine at `freq * multiplier` with amplitude `amp / multiplier`; rows from the cutoff on stay zero |
| WaveFormFileWrite.CopyRow | JavaSoundTest/src/WaveFormFileWrite.java:106-107 | row `i` becomes the generated sine, and every other row is unchanged |
| WaveFormFileWrite.SumHarmonics | JavaSoundTest/src/WaveFormFileWrite.java:111-115 | every output sample is the weighted sum of its column over all rows |
| WaveFormFileWrite.CutoffFromIsFirst | JavaSoundTest/src/WaveFormFileWrite.java:103-105 | the loop stops at the first row whose frequency is strictly above `SAMPLE_RATE / 2`; every earlier row is at or below it |
| WaveFormFileWrite.CutoffIsFirst | JavaSoundTest/src/WaveFormFileWrite.java:103-105 | row `i` is filled if and only if every frequency up to row `i` is at most `SAMPLE_RATE / 2` |
| WaveFormFileWrite.NoCutoff | JavaSoundTest/src/WaveFormFileWrite.java:103-105 | with every frequency at or below the limit, every row is filled |
| WaveFormFileWrite.MultiplierSchedule | JavaSoundTest/src/WaveFormFileWrite.java:126 | for `i < 2^30`, the multiplier is `i + 1` for the saw and `2i + 1` for the square and the triangle; from row `2^30` on the odd multiplier wraps around (`MultiplierWraps`) |
| WaveFormFileWrite.MultiplierWraps | JavaSoundTest/src/WaveFormFileWrite.java:126 | at row `2^30` the `int` `2 * i + 1` of the square and the triangle wraps around to `-2^31 + 1` |
| WaveFormFileWrite.DefaultsKeepEveryHarmonic | JavaSoundTest/src/WaveFormFileWrite.java:11-13 | at the defaults, base 50 and precision 50, the top frequencies are 2500 and 4950 and no row is cut |
| WaveFormFileWrite.NyquistIsInclusive | JavaSoundTest/src/WaveFormFileWrite.java:127 | a frequency exactly at `SAMPLE_RATE / 2` is kept: at base 4100 the square keeps three rows |
| WaveFormFileWrite.HighBaseKeepsOneRow | JavaSoundTest/src/WaveFormFileWrite.java:105 | at base 20000 only the fundamental row is filled, for every kind |
| WaveFormFileWrite.OutputSize | JavaSoundTest/src/WaveFormFileWrite.java:16 | `SIZE` is 1,230,000 and the limit `SAMPLE_RATE / 2` is 20500 |
| WaveFormFileWrite.TriangleSignIsPower | JavaSoundTest/src/WaveFormFileWrite.java:157 | the triangle's row weight is `(-1)^(i+1)` |
| WaveFormFileWrite.TriangleSignsStartNegative | JavaSoundTest/src/WaveFormFileWrite.java:148-157 | the triangle's first rows have multipliers 1, 3, 5 and signs -, +, - |
| WaveFormFileWrite.ZeroTailAddsNothing | JavaSoundTest/src/WaveFormFileWrite.java:155-159 | zero entries add nothing to a column's weighted sum |
| WaveFormFileWrite.RowsPastCutoffAddNothing | JavaSoundTest/src/WaveFormFileWrite.java:111-115 | the summation runs over all `precision` rows, yet each sample is the weighted sum of the kept harmonics alone |
| WaveFormFileWrite.SumOfSigns | JavaSoundTest/src/WaveFormFileWrite.java:155-159 | the saw and the square sum their column plainly; the triangle sums `(-1)^(i+1)` times each entry |
| RoundTrip.Restored | JavaSoundTest/src/WaveFormFileRead.java:72-74 | a stored pattern congruent to an in-range sample, modulo `2^bits`, is sign-extended back to that sample |
| RoundTrip.ByteRestored | JavaSoundTest/src/WaveFormFileRead.java:72-74 | a signed 8-bit sample comes back from its low byte |
| RoundTrip.EightBitRoundTrip | JavaSoundTest/src/WaveFormFileRead.java:97-112 | at 8 bits, pack then unpack then extend gives every array of signed 8-bit samples back, in either byte order |
| RoundTrip.EightBitSample | JavaSoundTest/src/WaveFormFileRead.java:109 | one sample of the 8-bit round trip comes back |
| RoundTrip.StoredCongruent | JavaSoundTest/src/WaveFormFileRead.java:148 | the recombined little-endian bytes of a sample agree with it modulo `2^bits` for every `bits <= 8w` |
| RoundTrip.SampleComesBack | JavaSoundTest/src/WaveFormFileRead.java:72-74 | an in-range sample comes back from its recombined `w` bytes |
| RoundTrip.FirstWindow16 | JavaSoundTest/src/WaveFormFileRead.java:114-125 | `unpack16Bit` of a 16-bit packing has one sample per input sample, and its first sample is the first input sample's bytes |
| RoundTrip.FirstWindow24 | JavaSoundTest/src/WaveFormFileRead.java:127-138 | `unpack24Bit` of a 24-bit packing has one sample per input sample, and its first sample is the first input sample's bytes |
| RoundTrip.SixteenBitFirstSample | JavaSoundTest/src/WaveFormFileRead.java:114-125 | through the 16-bit pipeline the length is kept and the first in-range sample comes back |
| RoundTrip.TwentyFourBitFirstSample | JavaSoundTest/src/WaveFormFileRead.java:127-138 | through the 24-bit pipeline the length is kept and the first in-range sample comes back |
| RoundTrip.SixteenBitOverlap | JavaSoundTest/src/WaveFormFileRead.java:119-121 | packing `0x1234, 0x5678` little-endian and unpacking reads `0x7812` as sample 1, so the second sample does not come back |
| RoundTrip.SixtyFourBitLost | JavaSoundTest/src/WaveFormFileRead.java:141-142 | one 64-bit sample packs to 8 bytes, which `unpackAnyBit` turns into no samples at all |
| RoundTrip.TwelveBitLost | JavaSoundTest/src/WavFileWriteTest.java:116 | a 12-bit sample `0xabc` packs to the single byte `0xbc`, which unpacks to no samples |
| CorrectedCodec.FrameWidth | JavaSoundTest/src/WavFileWriteTest.java:116 | the rounded-up width holds `bits` bits with less than a byte to spare, and is 1 to 8 bytes |
| CorrectedCodec.Reversed | JavaSoundTest/src/WaveFormFileRead.java:146 | entry `k` of a reversed frame of length `n` is entry `n - 1 - k` |
| CorrectedCodec.PackFrames | JavaSoundTest/src/WavFileWriteTest.java:115-129 | the corrected packer writes `FrameWidth(bits)` bytes per sample |
| CorrectedCodec.UnpackFrames | JavaSoundTest/src/WaveFormFileRead.java:140-152 | the corrected decoder reads one sample per whole frame: `length / FrameWidth(bits)` samples |
| CorrectedCodec.FrameInBounds | JavaSoundTest/src/WaveFormFileRead.java:144-148 | frame `i` of a buffer lies inside it |
| CorrectedCodec.FrameValueOfSample | JavaSoundTest/src/WaveFormFileRead.java:146-148 | reading a packed frame in the byte order it was written in gives the sample's little-endian value |
| CorrectedCodec.FrameCount | JavaSoundTest/src/WaveFormFileRead.java:142 | `n * w` bytes hold exactly `n` frames |
| CorrectedCodec.FrameSampleOfPacked | JavaSoundTest/src/WaveFormFileRead.java:144-149 | frame `i` of a packed buffer decodes to sample `i`'s recombined bytes |
| CorrectedCodec.CorrectedRoundTrip | JavaSoundTest/src/WaveFormFileRead.java:140-152 | with whole frames, every array of in-range samples survives pack, unpack and extend at every depth 1..64, in either byte order |
| CorrectedCodec.CorrectedWidths | JavaSoundTest/src/WavFileWriteTest.java:116 | the corrected widths are 2 bytes at 12 bits and 8 at 64, and agree with the fixed paths at 8, 16 and 24 |
| CorrectedCodec.AgreesOnFirstWindow16 | JavaSoundTest/src/WaveFormFileRead.java:119-121 | on the first frame the corrected decoder agrees with `unpack16Bit` as written |

## Left out

- File and audio I/O is not modelled: `AudioSystem`, `AudioInputStream`, `AudioFormat`, the `PCM_SIGNED` check, the frame size and the `main`/`save` drivers. The model starts from byte and sample arrays.
- Floating point is modelled as `real`, with no IEEE rounding, NaN or infinity.
- `generateSineWave` and `Math.sin` are left abstract. Each generator takes the sine rows as a parameter `sine(f, a, j)`.
- `genSine`, `fullScale` and the quantization loop of `genLongWave` (`(long) (samples[i] * fullScale)`, WavFileWriteTest.java:44-48) are not modelled, because they are floating-point conversions. Only the tiling step, lines 36-42, is modelled. The second allocation, `new long[longWaveSize]`, adds nothing beyond the first.
- Memory is unbounded. `new double[precision][SIZE]` and the other allocations never throw `OutOfMemoryError`.
- PackBits, PackAnyBit: they require `samples.length * width` to fit in an `int`. Java computes that byte count with 32-bit wrap-around. A count past `INT_MAX` wraps. Java then either throws `NegativeArraySizeException` or allocates a short array and throws `ArrayIndexOutOfBoundsException` inside the write loop. For example, 32 samples at `0x4000_0008` bits give width `0x0800_0001` and a wrapped count of 32. For a negative width the count can also fall below `-2^31`, at depths of -8 or less with very many samples. Java wraps it as well, and then either throws `NegativeArraySizeException` or allocates and returns a zero-filled array, because the inner loop `b < bytesPerSample` never runs. For example, `0x7fff_ffff` samples at -16 bits give width -2 and a wrapped count of 2, and Java returns two zero bytes. The model does not represent those outcomes.
- Pack16Bit, Pack24Bit: they require `samples.length * 2` (respectively `* 3`) to be at most `INT_MAX`. Beyond that, `* 2` wraps to a negative count and Java throws `NegativeArraySizeException`. `* 3` wraps either to a negative count or to a short array, and then an index of the write loop goes out of bounds. The model does not represent those outcomes.
- ArrayCopy: it requires distinct arrays and in-bounds ranges, which every call in `genLongWave` meets. `System.arraycopy`'s exceptions and overlapping copies are not modelled.
- CopyRow: it models `System.arraycopy` of one full row of `SIZE` samples, which is the only way the generators use it.
- LittleLanesRepeat: for depths whose `packAnyBit` width passes 8 bytes, only the lane repetition is stated. No closed form of the packed bytes is given.
- UnpackAnyBit: for depths whose little-endian loop reads more than 8 bytes, only the exceptions, the sample count and the 1-bit case have a closed form (`AccumulateLittleValue` covers up to 8 iterations).

## Findings

| source | as written | input that shows it | evidently intended | confidence | as-written member | corrected member |
|---|---|---|---|---|---|---|
| JavaSoundTest/src/WaveFormFileRead.java:119-134 | `unpack16Bit`/`unpack24Bit` read sample `i` from `bytes[i + b]`, so consecutive windows overlap | `[0x1234, 0x5678]` packed at 16 bits little-endian is `34 12 78 56`; sample 1 reads `0x7812` | read sample `i` from `bytes[i * w + b]` | high, not executed | RoundTrip.SixteenBitOverlap | CorrectedCodec.CorrectedRoundTrip |
| JavaSoundTest/src/WaveFormFileRead.java:141-146 | `unpackAnyBit` uses `bitsPerSample * 8` as the byte count, and its big-endian loop runs `bitsPerSample` times | one 64-bit sample packs to 8 bytes, and `8 / 512 = 0` so no sample comes back | `bitsPerSample / 8` bytes per sample, and the loop bound is that byte count | high, not executed | RoundTrip.SixtyFourBitLost | CorrectedCodec.CorrectedRoundTrip |
| JavaSoundTest/src/WavFileWriteTest.java:116 | `Math.ceil(bitsPerSample / 8)` rounds an already truncated `int` quotient | a 12-bit sample `0xabc` packs to the single byte `0xbc` | round up: `(bitsPerSample + 7) / 8` bytes | high, not executed | RoundTrip.TwelveBitLost | CorrectedCodec.FrameWidth |
