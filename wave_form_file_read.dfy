/** The decoding half of the PCM codec in `WaveFormFileRead`: `unpackBits`
    and its fixed-width and general helpers, which rebuild unsigned sample
    values from a raw byte buffer, and `extendSign`, which restores the sign
    of each value in place. The file I/O around them is not modelled. */
module WaveFormFileRead {
  import opened JavaArith
  import opened Radix

  // ---------------------------------------------------------------------
  // Specification: what each routine computes, as functions on sequences.

  /** `unpack8Bit`: one sample per byte, holding the byte's unsigned value. */
  function Unpack8(bytes: seq<Byte>): (r: seq<Long>)
    ensures |r| == |bytes|
    ensures forall i :: 0 <= i < |r| ==> 0 <= r[i] < 256 && r[i] == bytes[i]
  {
    seq(|bytes|, i requires 0 <= i < |bytes| => bytes[i] as int)
  }

  /** The value `unpack16Bit` builds from the two bytes starting at index `i`. */
  function Window16(bytes: seq<Byte>, i: nat, isBigEndian: bool): (v: Long)
    requires i + 1 < |bytes|
    ensures isBigEndian ==> v == 256 * (bytes[i] as int) + bytes[i + 1]
    ensures !isBigEndian ==> v == bytes[i] + 256 * (bytes[i + 1] as int)
  {
    if isBigEndian then Big16(bytes[i], bytes[i + 1])
    else Little16(bytes[i], bytes[i + 1])
  }

  /** `((b0 & 0xffL) << 8) | (b1 & 0xffL)`. */
  function Big16(b0: Byte, b1: Byte): (v: Long)
    ensures v == 256 * (b0 as int) + b1
  {
    Pow2Bytes();
    ShlSmall(b0, 8);
    OrDisjointLong(b1, b0, 8);
    Or(Shl(b0, 8), b1)
  }

  /** `(b0 & 0xffL) | ((b1 & 0xffL) << 8)`. */
  function Little16(b0: Byte, b1: Byte): (v: Long)
    ensures v == b0 + 256 * (b1 as int)
  {
    Pow2Bytes();
    ShlSmall(b1, 8);
    OrDisjointLong(b0, b1, 8);
    Or(b0, Shl(b1, 8))
  }

  /** The value `unpack24Bit` builds from the three bytes starting at index `i`. */
  function Window24(bytes: seq<Byte>, i: nat, isBigEndian: bool): (v: Long)
    requires i + 2 < |bytes|
    ensures isBigEndian ==> v == 0x1_0000 * (bytes[i] as int) + 256 * (bytes[i + 1] as int) + bytes[i + 2]
    ensures !isBigEndian ==> v == bytes[i] + 256 * (bytes[i + 1] as int) + 0x1_0000 * (bytes[i + 2] as int)
  {
    if isBigEndian then Big24(bytes[i], bytes[i + 1], bytes[i + 2])
    else Little24(bytes[i], bytes[i + 1], bytes[i + 2])
  }

  /** `((b0 & 0xffL) << 16) | ((b1 & 0xffL) << 8) | (b2 & 0xffL)`. */
  function Big24(b0: Byte, b1: Byte, b2: Byte): (v: Long)
    ensures v == 0x1_0000 * (b0 as int) + 256 * (b1 as int) + b2
  {
    Pow2Bytes();
    ShlSmall(b0, 16);
    ShlSmall(b1, 8);
    var x0, x1 := Shl(b0, 16), Shl(b1, 8);
    assert x0 == b0 * 0x1_0000 && x1 == b1 * 256;
    OrDisjointLong(x1, b0, 16);
    var hi := Or(x0, x1);
    assert hi == x1 + b0 * 0x1_0000;
    var high := 256 * (b0 as int) + b1;
    assert high * 256 == hi;
    OrDisjointLong(b2, high, 8);
    Or(hi, b2)
  }

  /** `(b0 & 0xffL) | ((b1 & 0xffL) << 8) | ((b2 & 0xffL) << 16)`. */
  function Little24(b0: Byte, b1: Byte, b2: Byte): (v: Long)
    ensures v == b0 + 256 * (b1 as int) + 0x1_0000 * (b2 as int)
  {
    Pow2Bytes();
    ShlSmall(b1, 8);
    ShlSmall(b2, 16);
    var lo := Or(b0, Shl(b1, 8));
    OrDisjointLong(b0, b1, 8);
    assert lo == b0 + 256 * (b1 as int);
    OrDisjointLong(lo, b2, 16);
    Or(lo, Shl(b2, 16))
  }

  /** `unpack16Bit`: `|bytes| / 2` samples, sample `i` read from bytes `i` and `i + 1`. */
  function Unpack16(bytes: seq<Byte>, isBigEndian: bool): (r: seq<Long>)
    ensures |r| == |bytes| / 2
  {
    seq(|bytes| / 2, i requires 0 <= i < |bytes| / 2 => Window16(bytes, i, isBigEndian))
  }

  /** `unpack24Bit`: `|bytes| / 3` samples, sample `i` read from bytes `i` to `i + 2`. */
  function Unpack24(bytes: seq<Byte>, isBigEndian: bool): (r: seq<Long>)
    ensures |r| == |bytes| / 3
  {
    seq(|bytes| / 3, i requires 0 <= i < |bytes| / 3 => Window24(bytes, i, isBigEndian))
  }

  /** What the little-endian inner loop of `unpackAnyBit` has ORed into `samples[i]`
      after its first `n` iterations: byte `i + b` shifted left by `8 * b`. */
  function AccumulateLittle(bytes: seq<Byte>, i: nat, n: nat): Long
    requires i + n <= |bytes|
  {
    if n == 0 then 0
    else Or(AccumulateLittle(bytes, i, n - 1), Shl(bytes[i + n - 1], 8 * (n - 1)))
  }

  /** What the big-endian inner loop of `unpackAnyBit` has ORed into `samples[i]`
      after its first `n` iterations: byte `i + b` shifted left by
      `8 * (bytesPerSample - b - 1)`. That `int` expression may wrap around, which
      leaves its residue modulo 64, the only part of a shift distance Java uses,
      unchanged. */
  function AccumulateBig(bytes: seq<Byte>, i: nat, bytesPerSample: int, n: nat): Long
    requires i + n <= |bytes|
  {
    if n == 0 then 0
    else Or(AccumulateBig(bytes, i, bytesPerSample, n - 1),
            Shl(bytes[i + n - 1], 8 * (bytesPerSample - (n - 1) - 1)))
  }

  /** The number of samples `unpackAnyBit` allocates, `bytes.length / bytesPerSample`
      in `int` arithmetic. */
  function AnyBitSize(length: nat, bytesPerSample: int): (size: int)
    requires bytesPerSample != 0
    ensures bytesPerSample > 0 ==> size == length / bytesPerSample && 0 <= size <= length
    ensures bytesPerSample < 0 ==> size <= 0
  {
    var q := JavaDiv(length, bytesPerSample);
    if bytesPerSample > 0 then
      DivAtMost(length, bytesPerSample);
      q
    else
      assert length / -bytesPerSample >= 0;
      q
  }

  /** Whether the big-endian loop of `unpackAnyBit`, reading bytes `i + b` for
      `i < size` and `b < bitsPerSample`, reaches past the end of the buffer. */
  predicate BigReadsOutside(length: nat, size: nat, bitsPerSample: int)
  {
    size > 0 && bitsPerSample > 0 && size - 1 + bitsPerSample > length
  }

  /** Whether every read `i + b`, `b < bitsPerSample`, of the big-endian inner
      loop for sample `i` stays inside a buffer of `length` bytes. */
  predicate BigReadFits(length: nat, i: nat, bitsPerSample: int)
  {
    bitsPerSample <= 0 || i + bitsPerSample <= length
  }

  /** The big-endian loop reads past the buffer exactly when the inner loop of
      some sample `i < size` does; checking the last sample is enough. */
  lemma {:induction false} BigReadsOutsideExactly(length: nat, size: nat, bitsPerSample: int)
    ensures BigReadsOutside(length, size, bitsPerSample) <==>
      exists i :: 0 <= i < size && !BigReadFits(length, i, bitsPerSample)
  {
    if BigReadsOutside(length, size, bitsPerSample) {
      assert !BigReadFits(length, size - 1, bitsPerSample);
    }
  }

  /** `unpackAnyBit`, with the exceptions it can raise: division by zero when
      `bitsPerSample * 8` is 0 as an `int`, a negative sample count, and (only once
      `bitsPerSample * 8` has wrapped around) a big-endian read past the buffer. */
  function UnpackAny(bytes: seq<Byte>, isBigEndian: bool, bitsPerSample: Int): Outcome<seq<Long>>
    requires |bytes| <= INT_MAX
  {
    var bytesPerSample: int := Wrap32(bitsPerSample as int * 8);
    if bytesPerSample == 0 then Throws(ArithmeticException)
    else
      var size := AnyBitSize(|bytes|, bytesPerSample);
      if size < 0 then Throws(NegativeArraySizeException)
      else if !isBigEndian then Ok(LittleSamples(bytes, bytesPerSample, size))
      else if BigReadsOutside(|bytes|, size, bitsPerSample) then Throws(ArrayIndexOutOfBoundsException)
      else Ok(BigSamples(bytes, bytesPerSample, size, if bitsPerSample > 0 then bitsPerSample else 0))
  }

  /** The little-endian samples of `unpackAnyBit`, each read from a window of
      `bytesPerSample` bytes that lies inside the buffer. */
  function LittleSamples(bytes: seq<Byte>, bytesPerSample: int, size: nat): (r: seq<Long>)
    requires size == 0 || (bytesPerSample > 0 && size == |bytes| / bytesPerSample)
    ensures |r| == size
  {
    seq(size, i requires 0 <= i < size =>
      WindowInBounds(|bytes|, bytesPerSample, i);
      AccumulateLittle(bytes, i, bytesPerSample))
  }

  /** The big-endian samples of `unpackAnyBit`: `n` bytes read for each. */
  function BigSamples(bytes: seq<Byte>, bytesPerSample: int, size: nat, n: nat): (r: seq<Long>)
    requires size == 0 || size - 1 + n <= |bytes|
    ensures |r| == size
  {
    seq(size, i requires 0 <= i < size => AccumulateBig(bytes, i, bytesPerSample, n))
  }

  /** `unpackBits`: 8, 16 and 24 bits go to the fixed-width routines (8 bits
      ignoring the byte order); every other width goes to `unpackAnyBit`. */
  function Unpacked(bytes: seq<Byte>, isBigEndian: bool, bitsPerSample: Int): Outcome<seq<Long>>
    requires |bytes| <= INT_MAX
  {
    match bitsPerSample
    case 8 => Ok(Unpack8(bytes))
    case 16 => Ok(Unpack16(bytes, isBigEndian))
    case 24 => Ok(Unpack24(bytes, isBigEndian))
    case _ => UnpackAny(bytes, isBigEndian, bitsPerSample)
  }

  /** One element of `extendSign`: `(x << k) >> k` with `k = Long.SIZE - bitsPerSample`. */
  function SignExtended(x: Long, bitsPerSample: Int): Long
  {
    var bitsToExtend := Wrap32(64 - bitsPerSample as int);
    Shr(Shl(x, bitsToExtend), bitsToExtend)
  }

  /** The whole array after `extendSign`: every element extended on its own. */
  function ExtendAll(s: seq<Long>, bitsPerSample: Int): (r: seq<Long>)
    ensures |r| == |s|
  {
    seq(|s|, i requires 0 <= i < |s| => SignExtended(s[i], bitsPerSample))
  }

  // ---------------------------------------------------------------------
  // The routines themselves.

  method Unpack8Bit(bytes: array<Byte>) returns (samples: array<Long>)
    ensures fresh(samples)
    ensures samples[..] == Unpack8(bytes[..])
  {
    samples := new Long[bytes.Length](_ => 0);
    var i := 0;
    while i < samples.Length
      invariant 0 <= i <= samples.Length
      invariant forall k :: 0 <= k < i ==> samples[k] == bytes[k]
    {
      samples[i] := bytes[i];
      i := i + 1;
    }
  }

  method Unpack16Bit(bytes: array<Byte>, isBigEndian: bool) returns (samples: array<Long>)
    ensures fresh(samples)
    ensures samples[..] == Unpack16(bytes[..], isBigEndian)
  {
    var size := bytes.Length / 2;
    samples := new Long[size](_ => 0);
    var i := 0;
    while i < size
      invariant 0 <= i <= size
      invariant forall k :: 0 <= k < i ==> samples[k] == Window16(bytes[..], k, isBigEndian)
    {
      var v;
      if isBigEndian {
        v := Big16(bytes[i], bytes[i + 1]);
      } else {
        v := Little16(bytes[i], bytes[i + 1]);
      }
      assert v == Window16(bytes[..], i, isBigEndian);
      samples[i] := v;
      i := i + 1;
    }
  }

  method Unpack24Bit(bytes: array<Byte>, isBigEndian: bool) returns (samples: array<Long>)
    ensures fresh(samples)
    ensures samples[..] == Unpack24(bytes[..], isBigEndian)
  {
    var size := bytes.Length / 3;
    samples := new Long[size](_ => 0);
    var i := 0;
    while i < size
      invariant 0 <= i <= size
      invariant forall k :: 0 <= k < i ==> samples[k] == Window24(bytes[..], k, isBigEndian)
    {
      var v;
      if isBigEndian {
        v := Big24(bytes[i], bytes[i + 1], bytes[i + 2]);
      } else {
        v := Little24(bytes[i], bytes[i + 1], bytes[i + 2]);
      }
      assert v == Window24(bytes[..], i, isBigEndian);
      samples[i] := v;
      i := i + 1;
    }
  }

  method UnpackAnyBit(bytes: array<Byte>, isBigEndian: bool, bitsPerSample: Int)
    returns (r: Outcome<array<Long>>)
    requires bytes.Length <= INT_MAX
    ensures r.Ok? ==> fresh(r.value)
    ensures Contents(r) == UnpackAny(bytes[..], isBigEndian, bitsPerSample)
  {
    var bytesPerSample: int := Wrap32(bitsPerSample as int * 8);
    if bytesPerSample == 0 {
      return Throws(ArithmeticException);
    }
    var size := AnyBitSize(bytes.Length, bytesPerSample);
    if size < 0 {
      return Throws(NegativeArraySizeException);
    }
    var n: nat := if bitsPerSample > 0 then bitsPerSample else 0;
    var samples := new Long[size](_ => 0);
    var i := 0;
    while i < size
      invariant 0 <= i <= size
      invariant isBigEndian && i > 0 ==> i - 1 + n <= bytes.Length
      invariant isBigEndian ==> forall k :: 0 <= k < i ==> samples[k] == AccumulateBig(bytes[..], k, bytesPerSample, n)
      invariant !isBigEndian ==> forall k :: 0 <= k < i ==> samples[k] == LittleSamples(bytes[..], bytesPerSample, size)[k]
      invariant forall k :: i <= k < size ==> samples[k] == 0
    {
      if isBigEndian {
        var ok := ReadBigSample(bytes, samples, i, bytesPerSample, bitsPerSample);
        if !ok {
          assert BigReadsOutside(bytes.Length, size, bitsPerSample);
          return Throws(ArrayIndexOutOfBoundsException);
        }
      } else {
        WindowInBounds(bytes.Length, bytesPerSample, i);
        ReadLittleSample(bytes, samples, i, bytesPerSample);
      }
      i := i + 1;
    }
    if isBigEndian {
      assert !BigReadsOutside(bytes.Length, size, bitsPerSample);
      assert samples[..] == BigSamples(bytes[..], bytesPerSample, size, n);
    } else {
      assert samples[..] == LittleSamples(bytes[..], bytesPerSample, size);
    }
    return Ok(samples);
  }

  /** One pass of the big-endian inner loop of `unpackAnyBit`: ORs bytes `i + b`,
      `b < bitsPerSample`, into `samples[i]`, and fails (the read Java would abort
      with an `ArrayIndexOutOfBoundsException`) once `i + b` leaves the buffer. */
  method ReadBigSample(bytes: array<Byte>, samples: array<Long>, i: nat, bytesPerSample: int, bitsPerSample: Int)
    returns (ok: bool)
    requires i < samples.Length && samples[i] == 0
    requires i < bytes.Length
    modifies samples
    ensures ok <==> BigReadFits(bytes.Length, i, bitsPerSample)
    ensures ok ==> samples[i] == AccumulateBig(bytes[..], i, bytesPerSample, if bitsPerSample > 0 then bitsPerSample else 0)
    ensures forall k :: 0 <= k < samples.Length && k != i ==> samples[k] == old(samples[k])
  {
    ghost var n: nat := if bitsPerSample > 0 then bitsPerSample else 0;
    var b := 0;
    while b < bitsPerSample
      invariant 0 <= b <= n
      invariant i + b <= bytes.Length
      invariant samples[i] == AccumulateBig(bytes[..], i, bytesPerSample, b)
      invariant forall k :: 0 <= k < samples.Length && k != i ==> samples[k] == old(samples[k])
    {
      if i + b >= bytes.Length {
        return false;
      }
      var shifted := Shl(bytes[i + b], 8 * (bytesPerSample - b - 1));
      assert Or(samples[i], shifted) == AccumulateBig(bytes[..], i, bytesPerSample, b + 1);
      samples[i] := Or(samples[i], shifted);
      b := b + 1;
    }
    return true;
  }

  /** One pass of the little-endian inner loop of `unpackAnyBit`: ORs bytes `i + b`,
      `b < bytesPerSample`, into `samples[i]`. */
  method ReadLittleSample(bytes: array<Byte>, samples: array<Long>, i: nat, bytesPerSample: nat)
    requires i < samples.Length && samples[i] == 0
    requires i + bytesPerSample <= bytes.Length
    modifies samples
    ensures samples[i] == AccumulateLittle(bytes[..], i, bytesPerSample)
    ensures forall k :: 0 <= k < samples.Length && k != i ==> samples[k] == old(samples[k])
  {
    var b := 0;
    while b < bytesPerSample
      invariant 0 <= b <= bytesPerSample
      invariant samples[i] == AccumulateLittle(bytes[..], i, b)
      invariant forall k :: 0 <= k < samples.Length && k != i ==> samples[k] == old(samples[k])
    {
      assert bytes[..][i + b] == bytes[i + b];
      samples[i] := Or(samples[i], Shl(bytes[i + b], 8 * b));
      b := b + 1;
    }
  }

  method UnpackBits(bytes: array<Byte>, isBigEndian: bool, bitsPerSample: Int)
    returns (r: Outcome<array<Long>>)
    requires bytes.Length <= INT_MAX
    ensures r.Ok? ==> fresh(r.value)
    ensures Contents(r) == Unpacked(bytes[..], isBigEndian, bitsPerSample)
  {
    match bitsPerSample
    case 8 =>
      var samples := Unpack8Bit(bytes);
      return Ok(samples);
    case 16 =>
      var samples := Unpack16Bit(bytes, isBigEndian);
      return Ok(samples);
    case 24 =>
      var samples := Unpack24Bit(bytes, isBigEndian);
      return Ok(samples);
    case _ =>
      r := UnpackAnyBit(bytes, isBigEndian, bitsPerSample);
  }

  /** `extendSign` overwrites every element of `temp` and returns the same array. */
  method ExtendSign(temp: array<Long>, bitsPerSample: Int) returns (r: array<Long>)
    modifies temp
    ensures r == temp
    ensures temp[..] == ExtendAll(old(temp[..]), bitsPerSample)
  {
    var bitsToExtend := Wrap32(64 - bitsPerSample as int);
    var i := 0;
    while i < temp.Length
      invariant 0 <= i <= temp.Length
      invariant forall k :: 0 <= k < i ==> temp[k] == SignExtended(old(temp[k]), bitsPerSample)
      invariant forall k :: i <= k < temp.Length ==> temp[k] == old(temp[k])
    {
      temp[i] := Shr(Shl(temp[i], bitsToExtend), bitsToExtend);
      i := i + 1;
    }
    return temp;
  }

  // ---------------------------------------------------------------------
  // Helpers.

  /** A window of `w` bytes starting at any index below `length / w` fits in the
      buffer, although consecutive windows overlap. */
  lemma {:induction false} WindowInBounds(length: nat, w: int, i: nat)
    requires w > 0 && i < length / w
    ensures i + w <= length
  {
    var q := length / w;
    assert q * w <= length by {
      assert length == w * q + length % w;
    }
    MulMono(1, q, w - 1);
    assert q * (w - 1) == q * w - q;
  }

  // ---------------------------------------------------------------------
  // Sign extension.

  /** For a depth of 1 to 64 bits, `extendSign` yields a value in the signed range
      of that depth that agrees with its input modulo `2^bitsPerSample`. */
  lemma {:induction false} SignExtendedRange(x: Long, bitsPerSample: Int)
    requires 1 <= bitsPerSample <= 64
    ensures -Pow2(bitsPerSample - 1) <= SignExtended(x, bitsPerSample) < Pow2(bitsPerSample - 1)
    ensures (SignExtended(x, bitsPerSample) - x) % Pow2(bitsPerSample) == 0
  {
    var k := 64 - bitsPerSample;
    assert Wrap32(64 - bitsPerSample as int) == k;
    assert k % 64 == k;
    ShlShrCongruent(x, k);
  }

  /** A value already in the signed range of the depth is left as it is. */
  lemma {:induction false} SignExtendedFixed(x: Long, bitsPerSample: Int)
    requires 1 <= bitsPerSample <= 64
    requires -Pow2(bitsPerSample - 1) <= x < Pow2(bitsPerSample - 1)
    ensures SignExtended(x, bitsPerSample) == x
  {
    var k := 64 - bitsPerSample;
    assert Wrap32(64 - bitsPerSample as int) == k;
    ShlShrFixed(x, k);
  }

  /** `extendSign` picks the one value in the signed range congruent to its input. */
  lemma {:induction false} SignExtendedUnique(x: Long, bitsPerSample: Int, y: int)
    requires 1 <= bitsPerSample <= 64
    requires -Pow2(bitsPerSample - 1) <= y < Pow2(bitsPerSample - 1)
    requires (y - x) % Pow2(bitsPerSample) == 0
    ensures SignExtended(x, bitsPerSample) == y
  {
    SignExtendedRange(x, bitsPerSample);
    var e := SignExtended(x, bitsPerSample);
    CongruentTrans(e, y, x, Pow2(bitsPerSample));
    WindowUnique(e, y, bitsPerSample);
  }

  /** Extending twice is extending once. */
  lemma {:induction false} SignExtendedIdempotent(x: Long, bitsPerSample: Int)
    requires 1 <= bitsPerSample <= 64
    ensures SignExtended(SignExtended(x, bitsPerSample), bitsPerSample) == SignExtended(x, bitsPerSample)
  {
    SignExtendedRange(x, bitsPerSample);
    SignExtendedFixed(SignExtended(x, bitsPerSample), bitsPerSample);
  }

  /** At 64 bits the shift distance is 0 and nothing changes. */
  lemma {:induction false} SignExtended64(x: Long)
    ensures SignExtended(x, 64) == x
  {
    Pow2Values();
    SignExtendedFixed(x, 64);
  }

  /** `extendSign` over a whole array is idempotent, and the identity at 64 bits. */
  lemma {:induction false} ExtendAllIdempotent(s: seq<Long>, bitsPerSample: Int)
    requires 1 <= bitsPerSample <= 64
    ensures ExtendAll(ExtendAll(s, bitsPerSample), bitsPerSample) == ExtendAll(s, bitsPerSample)
    ensures bitsPerSample == 64 ==> ExtendAll(s, bitsPerSample) == s
  {
    forall i | 0 <= i < |s|
      ensures ExtendAll(ExtendAll(s, bitsPerSample), bitsPerSample)[i] == ExtendAll(s, bitsPerSample)[i]
      ensures bitsPerSample == 64 ==> ExtendAll(s, bitsPerSample)[i] == s[i]
    {
      SignExtendedIdempotent(s[i], bitsPerSample);
      if bitsPerSample == 64 {
        SignExtended64(s[i]);
      }
    }
  }

  // ---------------------------------------------------------------------
  // The fixed-width readers.

  /** `unpack16Bit` drops a trailing odd byte, and sample `i` is the 16-bit
      value of the two bytes starting at index `i` (not `2 * i`). */
  lemma {:induction false} Unpack16Windows(bytes: seq<Byte>, isBigEndian: bool, i: nat)
    requires i < |Unpack16(bytes, isBigEndian)|
    ensures i + 1 < |bytes|
    ensures 0 <= Unpack16(bytes, isBigEndian)[i] < 0x1_0000
    ensures Unpack16(bytes, isBigEndian)[i] ==
      LittleValue(if isBigEndian then [bytes[i + 1], bytes[i]] else [bytes[i], bytes[i + 1]])
  {
    if isBigEndian {
      LittleValue2(bytes[i + 1], bytes[i]);
    } else {
      LittleValue2(bytes[i], bytes[i + 1]);
    }
  }

  /** `unpack24Bit` drops up to two trailing bytes, and sample `i` is the 24-bit
      value of the three bytes starting at index `i` (not `3 * i`). */
  lemma {:induction false} Unpack24Windows(bytes: seq<Byte>, isBigEndian: bool, i: nat)
    requires i < |Unpack24(bytes, isBigEndian)|
    ensures i + 2 < |bytes|
    ensures 0 <= Unpack24(bytes, isBigEndian)[i] < 0x100_0000
    ensures Unpack24(bytes, isBigEndian)[i] ==
      LittleValue(if isBigEndian then [bytes[i + 2], bytes[i + 1], bytes[i]]
                  else [bytes[i], bytes[i + 1], bytes[i + 2]])
  {
    if isBigEndian {
      LittleValue3(bytes[i + 2], bytes[i + 1], bytes[i]);
    } else {
      LittleValue3(bytes[i], bytes[i + 1], bytes[i + 2]);
    }
  }

  // ---------------------------------------------------------------------
  // The general reader.

  /** `unpackAnyBit` with a depth of 0 divides by zero, and so does any depth
      whose `bitsPerSample * 8` wraps around to 0, such as `2^29`. */
  lemma {:induction false} UnpackAnyDividesByZero(bytes: seq<Byte>, isBigEndian: bool)
    requires |bytes| <= INT_MAX
    ensures UnpackAny(bytes, isBigEndian, 0) == Throws(ArithmeticException)
    ensures UnpackAny(bytes, isBigEndian, 0x2000_0000) == Throws(ArithmeticException)
  {
    assert Wrap32(0x2000_0000 * 8) == 0;
  }

  /** For depths whose byte count `bitsPerSample * 8` fits an `int`, every read is
      in bounds: the call succeeds with `length / (bitsPerSample * 8)` samples. */
  lemma {:induction false} UnpackAnyInBounds(bytes: seq<Byte>, isBigEndian: bool, bitsPerSample: Int)
    requires |bytes| <= INT_MAX && 0 < bitsPerSample < 0x1000_0000
    ensures UnpackAny(bytes, isBigEndian, bitsPerSample).Ok?
    ensures |UnpackAny(bytes, isBigEndian, bitsPerSample).value| == |bytes| / (bitsPerSample * 8)
  {
    var w := bitsPerSample * 8;
    assert Wrap32(bitsPerSample as int * 8) == w;
    var size := |bytes| / w;
    if size > 0 {
      BigWindowsFit(|bytes|, size, bitsPerSample);
    }
  }

  /** `size` samples of `8 * bitsPerSample` bytes each leave room for the last
      big-endian read, `size - 1 + bitsPerSample` bytes in. */
  lemma {:induction false} BigWindowsFit(length: nat, size: nat, bitsPerSample: nat)
    requires size >= 1 && bitsPerSample >= 1 && size == length / (8 * bitsPerSample)
    ensures size - 1 + bitsPerSample <= length
  {
    var w := 8 * bitsPerSample;
    assert size * w <= length by {
      assert length == w * size + length % w;
    }
    MulMono(1, size, bitsPerSample - 1);
    assert size * (bitsPerSample - 1) == size * bitsPerSample - size;
    MulMono(bitsPerSample, w, size);
  }

  /** A negative depth makes the sample count `length / (bitsPerSample * 8)` at most
      zero: negative (the allocation fails) once the buffer holds at least one
      sample's worth, zero (an empty result) otherwise. */
  lemma {:induction false} UnpackAnyNegative(bytes: seq<Byte>, isBigEndian: bool, bitsPerSample: Int)
    requires |bytes| <= INT_MAX && -0x1000_0000 <= bitsPerSample < 0
    ensures UnpackAny(bytes, isBigEndian, bitsPerSample) ==
      if |bytes| >= -8 * bitsPerSample then Throws(NegativeArraySizeException) else Ok([])
  {
    var w := bitsPerSample * 8;
    assert Wrap32(bitsPerSample as int * 8) == w;
    QuotientOne(|bytes|, -w);
    var size := AnyBitSize(|bytes|, w);
    assert size == -(|bytes| / -w);
  }

  /** Below `-2^28` bits the product `bitsPerSample * 8` wraps around to a positive
      width: at `-(2^29 - 1)` bits it is 8, so 8 bytes make one sample. The
      little-endian loop reads the 8 bytes; the big-endian loop, bounded by the
      negative depth, never runs and leaves the sample 0. */
  lemma {:induction false} NegativeDepthWraps(bytes: seq<Byte>)
    requires |bytes| == 8
    ensures UnpackAny(bytes, false, -0x1FFF_FFFF) == Ok([AccumulateLittle(bytes, 0, 8)])
    ensures UnpackAny(bytes, true, -0x1FFF_FFFF) == Ok([0])
  {
    var bytesPerSample: int := Wrap32(-0x1FFF_FFFF * 8);
    assert bytesPerSample == 8;
    assert AnyBitSize(|bytes|, bytesPerSample) == 1;
    var little := LittleSamples(bytes, 8, 1);
    assert |little| == 1 && little[0] == AccumulateLittle(bytes, 0, 8);
    assert little == [AccumulateLittle(bytes, 0, 8)];
    var big := BigSamples(bytes, 8, 1, 0);
    assert |big| == 1 && big[0] == AccumulateBig(bytes, 0, 8, 0) == 0;
    assert big == [0];
  }

  /** Once `bitsPerSample * 8` wraps around, the big-endian loop can read past the
      buffer: `2^29 + 1` bits give 8 bytes per sample, so 8 bytes make one sample,
      whose big-endian loop runs `2^29 + 1` times from index 0. The little-endian
      loop stays within the 8 bytes. */
  lemma {:induction false} UnpackAnyReadsPastEnd(bytes: seq<Byte>)
    requires |bytes| == 8
    ensures UnpackAny(bytes, true, 0x2000_0001) == Throws(ArrayIndexOutOfBoundsException)
    ensures UnpackAny(bytes, false, 0x2000_0001).Ok? && |UnpackAny(bytes, false, 0x2000_0001).value| == 1
  {
    assert Wrap32(0x2000_0001 * 8) == 8;
  }

  /** For up to eight bytes, the little-endian accumulation is the base-256 value
      of the bytes read, as a 64-bit pattern. */
  lemma {:induction false} AccumulateLittleValue(bytes: seq<Byte>, i: nat, n: nat)
    requires i + n <= |bytes| && n <= 8
    ensures AccumulateLittle(bytes, i, n) == Wrap64(LittleValue(bytes[i..i + n]))
  {
    if n > 0 {
      var d := 8 * (n - 1);
      var prefix := bytes[i..i + n - 1];
      var b := bytes[i + n - 1];
      AccumulateLittleValue(bytes, i, n - 1);
      LittleValueBound(prefix);
      Pow2Room(d);
      var low := LittleValue(prefix);
      assert AccumulateLittle(bytes, i, n - 1) == low;
      OrHighByte(low, b, d);
      assert bytes[i..i + n] == prefix + [b];
      LittleValueSnoc(prefix, b);
    }
  }

  /** At one bit per sample `unpackAnyBit` takes eight bytes per sample; little-endian,
      sample `i` is the 64-bit value of the eight bytes starting at index `i`. */
  lemma {:induction false} UnpackOneBitLittle(bytes: seq<Byte>)
    requires |bytes| <= INT_MAX
    ensures UnpackAny(bytes, false, 1).Ok?
    ensures |UnpackAny(bytes, false, 1).value| == |bytes| / 8
    ensures forall i :: 0 <= i < |bytes| / 8 ==>
      i + 8 <= |bytes| && UnpackAny(bytes, false, 1).value[i] == Wrap64(LittleValue(bytes[i..i + 8]))
  {
    assert Wrap32(1 * 8) == 8;
    forall i | 0 <= i < |bytes| / 8
      ensures i + 8 <= |bytes| && UnpackAny(bytes, false, 1).value[i] == Wrap64(LittleValue(bytes[i..i + 8]))
    {
      WindowInBounds(|bytes|, 8, i);
      AccumulateLittleValue(bytes, i, 8);
    }
  }

  /** At one bit per sample the big-endian loop reads a single byte per sample and
      shifts it by `8 * (8 - 1)`: sample `i` holds byte `i` in its top eight bits. */
  lemma {:induction false} UnpackOneBitBig(bytes: seq<Byte>)
    requires |bytes| <= INT_MAX
    ensures UnpackAny(bytes, true, 1).Ok?
    ensures |UnpackAny(bytes, true, 1).value| == |bytes| / 8
    ensures forall i :: 0 <= i < |bytes| / 8 ==>
      Unsigned(UnpackAny(bytes, true, 1).value[i]) == bytes[i] as int * Pow2(56)
  {
    assert Wrap32(1 * 8) == 8;
    forall i | 0 <= i < |bytes| / 8
      ensures Unsigned(UnpackAny(bytes, true, 1).value[i]) == bytes[i] as int * Pow2(56)
    {
      assert UnpackAny(bytes, true, 1).value[i] == AccumulateBig(bytes, i, 8, 1);
      assert AccumulateBig(bytes, i, 8, 1) == Or(0, Shl(bytes[i], 56));
      ShiftedByte(bytes[i], 56);
    }
  }

  /** A byte shifted left by at most 56 bits and ORed into zero keeps its value. */
  lemma {:induction false} ShiftedByte(b: Byte, d: nat)
    requires d <= 56
    ensures Unsigned(Or(0, Shl(b, d))) == b as int * Pow2(d)
  {
    var p := Pow2(d);
    Pow2Room(d);
    MulMono(0, b as int, p);
    MulMono(b as int, 255, p);
    assert 0 <= b as int * p < TWO_64;
    OrHighByte(0, b, d);
    assert Or(0, Shl(b, d)) == Wrap64(b as int * p);
    UnsignedWrap(b as int * p);
  }
}
