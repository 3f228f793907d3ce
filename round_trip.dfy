/** What a sample array looks like after `packBits`, then `unpackBits`, then
    `extendSign` with the same depth and byte order, for the code as it is
    written: where that pipeline gives the samples back, and where it does not. */
module RoundTrip {
  import opened JavaArith
  import opened Radix
  import opened WavFileWriteTest
  import opened WaveFormFileRead

  /** A sample congruent to a stored pattern modulo `2^bitsPerSample` and inside
      the signed range of that depth comes back from `extendSign`. */
  lemma {:induction false} Restored(stored: Long, x: Long, bitsPerSample: Int)
    requires 1 <= bitsPerSample <= 64
    requires -Pow2(bitsPerSample - 1) <= x < Pow2(bitsPerSample - 1)
    requires (stored - x) % Pow2(bitsPerSample) == 0
    ensures SignExtended(stored, bitsPerSample) == x
  {
    CongruentChain(stored, x, x, Pow2(bitsPerSample));
    SignExtendedUnique(stored, bitsPerSample, x);
  }

  /** A signed 8-bit sample comes back from its low byte. */
  lemma {:induction false} ByteRestored(x: Long)
    requires -128 <= x < 128
    ensures SignExtended(LowByte(x), 8) == x
  {
    Pow2Bytes();
    assert Pow2(8) == 2 * Pow2(7);
    assert x - LowByte(x) == 256 * (x / 256);
    MultipleMod(256, x / 256);
    Restored(LowByte(x), x, 8);
  }

  /** At 8 bits the pipeline is the identity on every array of signed 8-bit
      samples, in either byte order. */
  lemma {:induction false} EightBitRoundTrip(s: seq<Long>, isBigEndian: bool)
    requires |s| <= INT_MAX
    requires forall i :: 0 <= i < |s| ==> -128 <= s[i] < 128
    ensures PackBitsSpec(s, isBigEndian, 8) == Ok(Packed(s, false, 1))
    ensures Unpacked(Packed(s, false, 1), isBigEndian, 8) == Ok(Unpack8(Packed(s, false, 1)))
    ensures ExtendAll(Unpack8(Packed(s, false, 1)), 8) == s
  {
    var bytes := Packed(s, false, 1);
    var u := Unpack8(bytes);
    forall i | 0 <= i < |s|
      ensures ExtendAll(u, 8)[i] == s[i]
    {
      EightBitSample(s, i);
    }
    assert ExtendAll(u, 8) == s;
  }

  /** One sample of the 8-bit round trip: its low byte, sign-extended, is the sample. */
  lemma {:induction false} EightBitSample(s: seq<Long>, i: nat)
    requires i < |s| && -128 <= s[i] < 128
    ensures SignExtended(Unpack8(Packed(s, false, 1))[i], 8) == s[i]
  {
    OneByteLayout(s, i);
    ByteRestored(s[i]);
  }

  /** The stored pattern of a sample cut into `w` bytes agrees with the sample
      modulo `2^bitsPerSample` when the depth fits in those bytes. */
  lemma {:induction false} StoredCongruent(x: Long, bitsPerSample: nat, w: nat)
    requires 1 <= w <= 8 && bitsPerSample <= 8 * w
    ensures (x - Wrap64(LittleValue(SampleBytes(x, false, w)))) % Pow2(bitsPerSample) == 0
  {
    var v := LittleValue(SampleBytes(x, false, w));
    LittleBytesRecombine(x, w);
    CongruentPow2(v, x, bitsPerSample, 8 * w);
    Wrap64CongruentPow2(v, bitsPerSample);
    CongruentChain(Wrap64(v), v, x, Pow2(bitsPerSample));
  }

  /** A sample that fits the depth comes back from its stored pattern. */
  lemma {:induction false} SampleComesBack(x: Long, bitsPerSample: Int, w: nat)
    requires 1 <= bitsPerSample <= 8 * w && w <= 8
    requires -Pow2(bitsPerSample - 1) <= x < Pow2(bitsPerSample - 1)
    ensures SignExtended(Wrap64(LittleValue(SampleBytes(x, false, w))), bitsPerSample) == x
  {
    StoredCongruent(x, bitsPerSample, w);
    SignExtendedUnique(Wrap64(LittleValue(SampleBytes(x, false, w))), bitsPerSample, x);
  }

  /** The first window `unpack16Bit` reads is the first sample's bytes. */
  lemma {:induction false} FirstWindow16(s: seq<Long>, isBigEndian: bool)
    requires 0 < |s|
    ensures |Unpack16(Packed(s, isBigEndian, 2), isBigEndian)| == |s|
    ensures Unpack16(Packed(s, isBigEndian, 2), isBigEndian)[0] == LittleValue(SampleBytes(s[0], false, 2)) < 0x1_0000
  {
    var bytes := Packed(s, isBigEndian, 2);
    FrameOfPacked(s, isBigEndian, 2, 0);
    var sb := SampleBytes(s[0], isBigEndian, 2);
    assert bytes[0..2] == sb;
    assert bytes[0] == sb[0] && bytes[1] == sb[1];
    SampleBytes16(s[0], isBigEndian);
    SampleBytes16(s[0], false);
    Unpack16Windows(bytes, isBigEndian, 0);
  }

  /** The first window `unpack24Bit` reads is the first sample's bytes. */
  lemma {:induction false} FirstWindow24(s: seq<Long>, isBigEndian: bool)
    requires 0 < |s|
    ensures |Unpack24(Packed(s, isBigEndian, 3), isBigEndian)| == |s|
    ensures Unpack24(Packed(s, isBigEndian, 3), isBigEndian)[0] == LittleValue(SampleBytes(s[0], false, 3)) < 0x100_0000
  {
    var bytes := Packed(s, isBigEndian, 3);
    FrameOfPacked(s, isBigEndian, 3, 0);
    var sb := SampleBytes(s[0], isBigEndian, 3);
    assert bytes[0..3] == sb;
    assert bytes[0] == sb[0] && bytes[1] == sb[1] && bytes[2] == sb[2];
    SampleBytes24(s[0], isBigEndian);
    SampleBytes24(s[0], false);
    Unpack24Windows(bytes, isBigEndian, 0);
  }

  /** `unpack16Bit` yields as many samples as `pack16Bit` was given, and the
      first of them comes back intact when it fits in 16 signed bits. */
  lemma {:induction false} SixteenBitFirstSample(s: seq<Long>, isBigEndian: bool)
    requires 0 < |s|
    requires -0x8000 <= s[0] < 0x8000
    ensures |Unpack16(Packed(s, isBigEndian, 2), isBigEndian)| == |s|
    ensures ExtendAll(Unpack16(Packed(s, isBigEndian, 2), isBigEndian), 16)[0] == s[0]
  {
    var u := Unpack16(Packed(s, isBigEndian, 2), isBigEndian);
    var v := LittleValue(SampleBytes(s[0], false, 2));
    FirstWindow16(s, isBigEndian);
    assert u[0] == v == Wrap64(v);
    Pow2Bytes();
    assert Pow2(16) == 2 * Pow2(15);
    SampleComesBack(s[0], 16, 2);
    assert ExtendAll(u, 16)[0] == SignExtended(v, 16);
  }

  /** `unpack24Bit` yields as many samples as `pack24Bit` was given, and the
      first of them comes back intact when it fits in 24 signed bits. */
  lemma {:induction false} TwentyFourBitFirstSample(s: seq<Long>, isBigEndian: bool)
    requires 0 < |s|
    requires -0x80_0000 <= s[0] < 0x80_0000
    ensures |Unpack24(Packed(s, isBigEndian, 3), isBigEndian)| == |s|
    ensures ExtendAll(Unpack24(Packed(s, isBigEndian, 3), isBigEndian), 24)[0] == s[0]
  {
    var u := Unpack24(Packed(s, isBigEndian, 3), isBigEndian);
    var v := LittleValue(SampleBytes(s[0], false, 3));
    FirstWindow24(s, isBigEndian);
    assert u[0] == v == Wrap64(v);
    Pow2Bytes();
    assert Pow2(24) == 2 * Pow2(23);
    SampleComesBack(s[0], 24, 3);
    assert ExtendAll(u, 24)[0] == SignExtended(v, 24);
  }

  /** Sample 1 read by `unpack16Bit` overlaps sample 0: packing `0x1234, 0x5678`
      little-endian gives `34 12 78 56`, whose window at index 1 is `0x7812`,
      so the second sample does not come back. */
  lemma {:induction false} SixteenBitOverlap()
    ensures Unpack16(Packed([0x1234, 0x5678], false, 2), false)[1] == 0x7812
    ensures ExtendAll(Unpack16(Packed([0x1234, 0x5678], false, 2), false), 16)[1] != 0x5678
  {
    var s: seq<Long> := [0x1234, 0x5678];
    var bytes := Packed(s, false, 2);
    PackedAt(s, false, 2, 0, 1);
    PackedAt(s, false, 2, 1, 0);
    SampleBytes16(0x1234, false);
    SampleBytes16(0x5678, false);
    SecondByte(0x1234);
    DivModUnique(0x1234, 256, 0x12, 0x34);
    DivModUnique(0x12, 256, 0, 0x12);
    assert LowByte(0x5678) == 0x78;
    assert s[0] == 0x1234 && s[1] == 0x5678;
    assert bytes[1] == 0x12;
    assert bytes[2] == 0x78;
    assert Unpack16(bytes, false)[1] == 0x7812;
    Pow2Bytes();
    assert Pow2(16) == 2 * Pow2(15);
    SignExtendedFixed(0x7812, 16);
  }

  /** At 64 bits `packAnyBit` writes 8 bytes per sample, but `unpackAnyBit`
      takes `64 * 8` bytes per sample: one packed sample unpacks to none. */
  lemma {:induction false} SixtyFourBitLost(x: Long, isBigEndian: bool)
    ensures PackBitsSpec([x], isBigEndian, 64) == Ok(Packed([x], isBigEndian, 8))
    ensures Unpacked(Packed([x], isBigEndian, 8), isBigEndian, 64) == Ok([])
  {
    assert Wrap32(64 * 8) == 512;
    assert AnyBitSize(8, 512) == 0;
  }

  /** At 12 bits `packAnyBit` keeps one byte per sample, dropping the high four
      bits, and `unpackAnyBit` asks for 96 bytes per sample. */
  lemma {:induction false} TwelveBitLost(isBigEndian: bool)
    ensures PackBitsSpec([0xabc], isBigEndian, 12) == Ok([0xbc])
    ensures Unpacked([0xbc], isBigEndian, 12) == Ok([])
  {
    var s: seq<Long> := [0xabc];
    OneByteLayout(s, 0);
    assert Packed(s, isBigEndian, 1) == [0xbc];
    assert Wrap32(12 * 8) == 96;
    assert AnyBitSize(1, 96) == 0;
  }
}
