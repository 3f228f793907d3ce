/** The codec with the three defects of the as-written code repaired, beside the
    model of that code: a sample is `ceil(bitsPerSample / 8)` bytes wide on both
    sides, and the reader takes sample `i` from its own frame of bytes
    `i * w` to `i * w + w - 1`. For every depth from 1 to 64 bits, packing,
    unpacking and sign extension then give back every sample that fits the depth. */
module CorrectedCodec {
  import opened JavaArith
  import opened Radix
  import opened WavFileWriteTest
  import opened WaveFormFileRead
  import opened RoundTrip

  /** The bytes per sample: `bitsPerSample / 8` rounded up. */
  function FrameWidth(bitsPerSample: int): (w: nat)
    requires 1 <= bitsPerSample <= 64
    ensures 1 <= w <= 8
    ensures bitsPerSample <= 8 * w < bitsPerSample + 8
  {
    (bitsPerSample + 7) / 8
  }

  /** A byte string in the opposite order. */
  function Reversed(s: seq<Byte>): (r: seq<Byte>)
    ensures |r| == |s|
    ensures forall k :: 0 <= k < |s| ==> r[k] == s[|s| - 1 - k]
  {
    seq(|s|, k requires 0 <= k < |s| => s[|s| - 1 - k])
  }

  /** The unsigned value of one frame in the given byte order. */
  function FrameValue(frame: seq<Byte>, isBigEndian: bool): nat
  {
    LittleValue(if isBigEndian then Reversed(frame) else frame)
  }

  /** The corrected `packBits`: `FrameWidth` bytes per sample, laid out as before. */
  function PackFrames(s: seq<Long>, isBigEndian: bool, bitsPerSample: int): (r: seq<Byte>)
    requires 1 <= bitsPerSample <= 64
    ensures |r| == |s| * FrameWidth(bitsPerSample)
  {
    Packed(s, isBigEndian, FrameWidth(bitsPerSample))
  }

  /** The corrected `unpackBits`: one sample per whole frame. */
  function UnpackFrames(bytes: seq<Byte>, isBigEndian: bool, bitsPerSample: int): (r: seq<Long>)
    requires 1 <= bitsPerSample <= 64
    ensures |r| == |bytes| / FrameWidth(bitsPerSample)
  {
    var w := FrameWidth(bitsPerSample);
    seq(|bytes| / w, i requires 0 <= i < |bytes| / w => FrameSample(bytes, isBigEndian, w, i))
  }

  /** Sample `i` of the corrected reader: the 64-bit pattern of frame `i`. */
  function FrameSample(bytes: seq<Byte>, isBigEndian: bool, w: nat, i: nat): Long
    requires w > 0 && i < |bytes| / w
  {
    FrameInBounds(|bytes|, w, i);
    Wrap64(FrameValue(bytes[i * w..i * w + w], isBigEndian))
  }

  lemma {:induction false} FrameInBounds(length: nat, w: nat, i: nat)
    requires w > 0 && i < length / w
    ensures i * w + w <= length
  {
    assert (i + 1) * w <= (length / w) * w;
  }

  /** A sample's frame read in its own byte order is its little-endian value. */
  lemma {:induction false} FrameValueOfSample(x: Long, isBigEndian: bool, w: nat)
    ensures FrameValue(SampleBytes(x, isBigEndian, w), isBigEndian) == LittleValue(SampleBytes(x, false, w))
  {
    if isBigEndian {
      forall k | 0 <= k < w
        ensures Reversed(SampleBytes(x, true, w))[k] == SampleBytes(x, false, w)[k]
      {
        BigIsReversedLittle(x, w, w - 1 - k);
      }
      assert Reversed(SampleBytes(x, true, w)) == SampleBytes(x, false, w);
    }
  }

  /** The packed length is a whole number of frames. */
  lemma {:induction false} FrameCount(n: nat, w: nat)
    requires w > 0
    ensures (n * w) / w == n
  {
    MultipleMod(w, n);
  }

  /** Frame `i` of a packed buffer holds the stored pattern of sample `i`. */
  lemma {:induction false} FrameSampleOfPacked(s: seq<Long>, isBigEndian: bool, w: nat, i: nat)
    requires w > 0 && i < |s|
    ensures |Packed(s, isBigEndian, w)| / w == |s|
    ensures FrameSample(Packed(s, isBigEndian, w), isBigEndian, w, i)
      == Wrap64(LittleValue(SampleBytes(s[i], false, w)))
  {
    FrameCount(|s|, w);
    FrameOfPacked(s, isBigEndian, w, i);
    FrameValueOfSample(s[i], isBigEndian, w);
  }

  /** Packing, unpacking and sign extension give back every sample that fits the
      depth, at every depth from 1 to 64 bits and in either byte order. */
  lemma {:induction false} CorrectedRoundTrip(s: seq<Long>, isBigEndian: bool, bitsPerSample: Int)
    requires 1 <= bitsPerSample <= 64
    requires forall i :: 0 <= i < |s| ==>
      -Pow2(bitsPerSample - 1) <= s[i] < Pow2(bitsPerSample - 1)
    ensures ExtendAll(UnpackFrames(PackFrames(s, isBigEndian, bitsPerSample), isBigEndian, bitsPerSample),
                      bitsPerSample) == s
  {
    var w := FrameWidth(bitsPerSample);
    var bytes := Packed(s, isBigEndian, w);
    assert bytes == PackFrames(s, isBigEndian, bitsPerSample);
    FrameCount(|s|, w);
    var r := UnpackFrames(bytes, isBigEndian, bitsPerSample);
    forall i | 0 <= i < |s|
      ensures SignExtended(r[i], bitsPerSample) == s[i]
    {
      FrameSampleOfPacked(s, isBigEndian, w, i);
      assert r[i] == FrameSample(bytes, isBigEndian, w, i);
      SampleComesBack(s[i], bitsPerSample, w);
    }
  }

  /** The corrected widths: 12 bits take two bytes where `packAnyBit` keeps one,
      and 64 bits take eight where `unpackAnyBit` asks for 512. */
  lemma {:induction false} CorrectedWidths()
    ensures FrameWidth(12) == 2 && FrameWidth(64) == 8 && FrameWidth(1) == 1
    ensures FrameWidth(8) == 1 && FrameWidth(16) == 2 && FrameWidth(24) == 3
  {
  }

  /** On the first frame the corrected reader and `unpack16Bit` agree. */
  lemma {:induction false} AgreesOnFirstWindow16(bytes: seq<Byte>, isBigEndian: bool)
    requires |bytes| >= 2
    ensures UnpackFrames(bytes, isBigEndian, 16)[0] == Unpack16(bytes, isBigEndian)[0]
  {
    assert FrameWidth(16) == 2;
    assert UnpackFrames(bytes, isBigEndian, 16)[0] == FrameSample(bytes, isBigEndian, 2, 0);
    var frame := bytes[0..2];
    assert frame == [bytes[0], bytes[1]];
    assert Reversed(frame) == [bytes[1], bytes[0]];
    LittleValue2(bytes[0], bytes[1]);
    LittleValue2(bytes[1], bytes[0]);
    Unpack16Windows(bytes, isBigEndian, 0);
  }
}
