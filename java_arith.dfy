/** Java's primitive integer arithmetic, written out on unbounded integers.

    A Java `int` or `long` is modelled by its signed value; a `byte` in an
    array is modelled by its unsigned bit pattern 0..255, so the `(byte)`
    cast on a value already masked with `0xffL`, and the `& 0xffL` applied
    when the byte is read back, are both the identity on it. Shifts follow
    section 15.19 of the Java Language Specification: only the low six bits
    of a shift distance on a `long` are used, `>>` is arithmetic and `>>>`
    is logical. Overflow of `int` and `long` arithmetic wraps modulo 2^32
    and 2^64 (section 4.2.2). Integer division truncates toward zero
    (section 15.17.2). */
module JavaArith {

  const TWO_31: int := 0x8000_0000
  const TWO_32: int := 0x1_0000_0000
  const TWO_63: int := 0x8000_0000_0000_0000
  const TWO_64: int := 0x1_0000_0000_0000_0000

  /** The largest Java `int`, which also bounds the length of every Java array. */
  const INT_MAX: int := 0x7fff_ffff

  type Int = x: int | -0x8000_0000 <= x < 0x8000_0000
  type Long = x: int | -0x8000_0000_0000_0000 <= x < 0x8000_0000_0000_0000
  type Byte = x: int | 0 <= x < 0x100

  /** The unchecked exceptions the modelled code can raise. */
  datatype JavaException =
    | ArithmeticException            // integer division by zero
    | NegativeArraySizeException     // `new T[n]` with n < 0
    | ArrayIndexOutOfBoundsException // an array read or write outside 0..length-1

  /** The result of a Java computation: a value, or the exception it throws. */
  datatype Outcome<T> = Ok(value: T) | Throws(exception: JavaException)

  /** What a call returning a fresh array amounts to: the array's contents, or
      the exception raised instead. */
  function Contents<T>(r: Outcome<array<T>>): Outcome<seq<T>>
    reads if r.Ok? then {r.value} else {}
  {
    match r
    case Ok(a) => Ok(a[..])
    case Throws(e) => Throws(e)
  }

  /** `(int) x`: the 32-bit two's-complement wrap-around of an `int` expression. */
  function Wrap32(x: int): (r: Int)
    ensures -TWO_31 <= x < TWO_31 ==> r == x
  {
    (x + TWO_31) % TWO_32 - TWO_31
  }

  /** The 64-bit two's-complement wrap-around of a `long` expression. */
  function Wrap64(x: int): (r: Long)
    ensures -TWO_63 <= x < TWO_63 ==> r == x
  {
    (x + TWO_63) % TWO_64 - TWO_63
  }

  /** Java's `a / b` on integers: the quotient truncated toward zero. */
  function JavaDiv(a: int, b: int): (q: int)
    requires b != 0
    ensures a >= 0 && b > 0 ==> q == a / b
    ensures a >= 0 && b < 0 ==> q == -(a / -b)
    ensures a < 0 && b > 0 ==> q == -((-a) / b)
    ensures a < 0 && b < 0 ==> q == (-a) / (-b)
  {
    var m := (if a < 0 then -a else a) / (if b < 0 then -b else b);
    if (a < 0) == (b < 0) then m else -m
  }

  function Pow2(n: nat): (p: int)
    ensures p >= 1
  {
    if n == 0 then 1 else 2 * Pow2(n - 1)
  }

  /** The unsigned reading of the 64-bit pattern of `x`. */
  function Unsigned(x: Long): (u: nat)
    ensures u < TWO_64
    ensures x >= 0 ==> u == x
  {
    x % TWO_64
  }

  /** `x << d` on a `long`. */
  function Shl(x: Long, d: int): (r: Long)
    ensures (r - x * Pow2(d % 64)) % TWO_64 == 0
  {
    Wrap64(x * Pow2(d % 64))
  }

  /** `x >> d` on a `long`: floor division by 2^(d mod 64) is the arithmetic shift. */
  function Shr(x: Long, d: int): (r: Long)
    ensures -Pow2(63 - d % 64) <= r < Pow2(63 - d % 64)
    ensures Pow2(d % 64) * r <= x < Pow2(d % 64) * (r + 1)
  {
    var k := d % 64;
    var p := Pow2(k);
    Pow2Bounds(k);
    QuotientBounds(x, p, Pow2(63 - k));
    FloorQuotient(x, p);
    x / p
  }

  /** `x >>> d` on a `long`: the shift of the unsigned pattern, zero-filled. */
  function Ushr(x: Long, d: int): Long
  {
    Wrap64(Unsigned(x) / Pow2(d % 64))
  }

  /** `x & 0xffL`: the low eight bits of the two's-complement pattern. */
  function LowByte(x: Long): (r: Byte)
    ensures (x - r) % 256 == 0
  {
    x % 256
  }

  /** Bitwise OR of two natural numbers, bit by bit from the least significant. */
  function OrBits(a: nat, b: nat): nat
  {
    if a == 0 then b
    else if b == 0 then a
    else 2 * OrBits(a / 2, b / 2) + (if a % 2 == 1 || b % 2 == 1 then 1 else 0)
  }

  /** `x | y` on `long`s: the OR of the two 64-bit patterns. */
  function Or(x: Long, y: Long): (r: Long)
    ensures x == 0 ==> r == y
    ensures y == 0 ==> r == x
  {
    WrapUnsigned(x);
    WrapUnsigned(y);
    Wrap64(OrBits(Unsigned(x), Unsigned(y)))
  }

  // ---------------------------------------------------------------------
  // Facts about wrap-around, powers of two and division.

  /** Wrapping around changes a value by a multiple of the word size. */
  lemma {:induction false} Wrap64Congruent(x: int)
    ensures (Wrap64(x) - x) % TWO_64 == 0
  {
  }

  lemma {:induction false} UnsignedCongruent(x: Long)
    ensures (Unsigned(x) - x) % TWO_64 == 0
  {
  }

  lemma {:induction false} Pow2Add(a: nat, b: nat)
    ensures Pow2(a + b) == Pow2(a) * Pow2(b)
  {
    if a > 0 {
      Pow2Add(a - 1, b);
    }
  }

  lemma {:induction false} Pow2Bytes()
    ensures Pow2(8) == 256 && Pow2(16) == 0x1_0000 && Pow2(24) == 0x100_0000
  {
    assert Pow2(8) == 256;
    Pow2Add(8, 8);
    Pow2Add(16, 8);
  }

  lemma {:induction false} Pow2Values()
    ensures Pow2(8) == 256 && Pow2(16) == 0x1_0000 && Pow2(24) == 0x100_0000
    ensures Pow2(32) == TWO_32 && Pow2(63) == TWO_63 && Pow2(64) == TWO_64
  {
    Pow2Bytes();
    Pow2Add(16, 16);
    Pow2Add(32, 31);
    Pow2Add(32, 32);
    assert Pow2(31) == 2 * Pow2(30) == 4 * Pow2(29);
    Pow2Add(24, 5);
    Pow2Add(16, 15);
    Pow2Add(16, 14);
    Pow2Add(16, 13);
  }

  /** 2^k and 2^(63-k) split 2^63, and 2^k and 2^(64-k) split 2^64. */
  lemma {:induction false} Pow2Bounds(k: nat)
    requires k < 64
    ensures Pow2(k) * Pow2(63 - k) == TWO_63
    ensures Pow2(k) * Pow2(64 - k) == TWO_64
  {
    Pow2Add(k, 63 - k);
    Pow2Add(k, 64 - k);
    Pow2Values();
  }

  /** A power of two divides every larger one. */
  lemma {:induction false} Pow2Divides(a: nat, b: nat)
    requires a <= b
    ensures Pow2(b) % Pow2(a) == 0
    ensures Pow2(b) == Pow2(a) * Pow2(b - a)
  {
    Pow2Add(a, b - a);
    MultipleMod(Pow2(a), Pow2(b - a));
  }

  lemma {:induction false} MultipleMod(m: int, k: int)
    requires m > 0
    ensures (m * k) % m == 0 && (m * k) / m == k
  {
    var q, r := (m * k) / m, (m * k) % m;
    assert m * (k - q) == r;
    if k - q >= 1 {
    } else if k - q <= -1 {
    }
  }

  lemma {:induction false} MulAtLeast(p: int, c: int)
    requires p > 0 && c >= 1
    ensures p * c >= p
  {
  }

  /** Two values congruent to a third modulo `p` are congruent to each other. */
  lemma {:induction false} CongruentTrans(a: int, b: int, c: int, p: int)
    requires p > 0 && (a - c) % p == 0 && (b - c) % p == 0
    ensures (a - b) % p == 0
  {
    var q1, q2 := (a - c) / p, (b - c) / p;
    assert a - b == p * (q1 - q2);
    MultipleMod(p, q1 - q2);
  }

  /** Congruence modulo `p` is symmetric and transitive. */
  lemma {:induction false} CongruentChain(a: int, b: int, c: int, p: int)
    requires p > 0 && (a - b) % p == 0 && (b - c) % p == 0
    ensures (a - c) % p == 0 && (c - a) % p == 0
  {
    var q1, q2 := (a - b) / p, (b - c) / p;
    assert a - c == p * (q1 + q2);
    assert c - a == p * -(q1 + q2);
    MultipleMod(p, q1 + q2);
    MultipleMod(p, -(q1 + q2));
  }

  /** Agreeing modulo `p * m` implies agreeing modulo `p`. */
  lemma {:induction false} CongruentCoarser(a: int, b: int, p: int, m: int)
    requires p > 0 && m > 0 && (a - b) % (p * m) == 0
    ensures (a - b) % p == 0
  {
    var q := (a - b) / (p * m);
    assert a - b == p * (m * q);
    MultipleMod(p, m * q);
  }

  /** Agreeing modulo `2^n` implies agreeing modulo `2^k` for every `k <= n`. */
  lemma {:induction false} CongruentPow2(a: int, b: int, k: nat, n: nat)
    requires k <= n && (a - b) % Pow2(n) == 0
    ensures (a - b) % Pow2(k) == 0
  {
    Pow2Divides(k, n);
    CongruentCoarser(a, b, Pow2(k), Pow2(n - k));
  }

  /** Wrapping to 64 bits keeps a value's residue modulo `2^k` for every `k <= 64`. */
  lemma {:induction false} Wrap64CongruentPow2(v: int, k: nat)
    requires k <= 64
    ensures (Wrap64(v) - v) % Pow2(k) == 0
  {
    Wrap64Congruent(v);
    Pow2Values();
    CongruentPow2(Wrap64(v), v, k, 64);
  }

  /** Adding the modulus leaves the remainder unchanged. */
  lemma {:induction false} ModPeriod(a: int, n: int)
    requires n > 0
    ensures (a + n) % n == a % n
  {
    DivModUnique(a + n, n, a / n + 1, a % n);
  }

  /** A quotient is at least one once the dividend reaches the divisor, and zero below it. */
  lemma {:induction false} QuotientOne(a: nat, n: int)
    requires n > 0
    ensures a >= n ==> a / n >= 1
    ensures a < n ==> a / n == 0
  {
    if a < n {
      DivModUnique(a, n, 0, a);
    } else {
      DivModUnique(a - n, n, (a - n) / n, (a - n) % n);
      DivModUnique(a, n, (a - n) / n + 1, (a - n) % n);
    }
  }

  /** Quotient and remainder are determined by any decomposition `a == n * t + v`
      with `0 <= v < n`. */
  lemma {:induction false} DivModUnique(a: int, n: int, t: int, v: int)
    requires n > 0 && 0 <= v < n && a == n * t + v
    ensures a / n == t && a % n == v
  {
    var q, r := a / n, a % n;
    assert n * (q - t) == v - r;
    if q - t >= 1 {
      MulAtLeast(n, q - t);
    } else if q - t <= -1 {
      MulAtLeast(n, t - q);
    }
  }

  /** Values that differ by a multiple of 2^64 have the same low byte. */
  lemma {:induction false} LowByteCongruent(a: int, b: int)
    requires (a - b) % TWO_64 == 0
    ensures a % 256 == b % 256
  {
    var k := (a - b) / TWO_64;
    assert a - b == TWO_64 * k;
    var q, r := b / 256, b % 256;
    assert a == 256 * (q + 0x100_0000_0000_0000 * k) + r;
    DivModUnique(a, 256, q + 0x100_0000_0000_0000 * k, r);
  }

  /** Reading a 64-bit pattern back as unsigned recovers it. */
  lemma {:induction false} UnsignedWrap(v: int)
    requires 0 <= v < TWO_64
    ensures Unsigned(Wrap64(v)) == v
  {
    if v >= TWO_63 {
      DivModUnique(v + TWO_63, TWO_64, 1, v - TWO_63);
      assert Wrap64(v) == v - TWO_64;
      DivModUnique(v - TWO_64, TWO_64, -1, v);
    }
  }

  /** Reading a pattern as unsigned and wrapping it back gives the `long` again. */
  lemma {:induction false} WrapUnsigned(y: Long)
    ensures Wrap64(Unsigned(y)) == y
  {
    if y < 0 {
      DivModUnique(y, TWO_64, -1, y + TWO_64);
      DivModUnique(y + TWO_64 + TWO_63, TWO_64, 1, y + TWO_63);
    }
  }

  /** `(x >>> d) & 0xffL` is byte `d / 8` of the unsigned pattern when `d` is a
      multiple of 8 below 64, written generally for any distance below 64. */
  lemma {:induction false} LowByteOfUshr(x: Long, d: nat)
    requires d < 64
    ensures LowByte(Ushr(x, d)) == Unsigned(x) / Pow2(d) % 256
  {
    assert d % 64 == d;
    var v := Unsigned(x) / Pow2(d);
    Wrap64Congruent(v);
    LowByteCongruent(Wrap64(v), v);
  }

  /** The second-lowest byte of a non-negative value. */
  lemma {:induction false} SecondByte(x: Long)
    requires x >= 0
    ensures LowByte(Ushr(x, 8)) == x / 256 % 256
  {
    Pow2Bytes();
    LowByteOfUshr(x, 8);
  }

  /** `x >>> 0` is `x`. */
  lemma {:induction false} UshrZero(x: Long)
    ensures Ushr(x, 0) == x
  {
    assert Pow2(0) == 1;
    UnsignedCongruent(x);
    var k := (Unsigned(x) - x) / TWO_64;
    assert Unsigned(x) == x + TWO_64 * k;
    if x >= 0 {
    } else {
      assert Unsigned(x) == x + TWO_64;
    }
  }

  /** A quotient of a natural number by a positive divisor is at most the dividend. */
  lemma {:induction false} DivAtMost(a: nat, b: int)
    requires b > 0
    ensures 0 <= a / b <= a
  {
    var q, r := a / b, a % b;
    assert a == b * q + r;
    if q < 0 {
      MulMono(1, -q, b);
    }
    MulMono(0, q, b - 1);
    assert q * (b - 1) == b * q - q;
  }

  /** Euclidean division by a positive divisor is the floor: `p * (x / p) <= x < p * (x / p + 1)`. */
  lemma {:induction false} FloorQuotient(x: int, p: int)
    requires p > 0
    ensures p * (x / p) <= x < p * (x / p + 1)
  {
    var q, m := x / p, x % p;
    assert x == p * q + m && 0 <= m < p;
    assert p * (q + 1) == p * q + p;
  }

  lemma {:induction false} QuotientBounds(t: int, p: int, q: int)
    requires p > 0 && q > 0
    requires -(p * q) <= t < p * q
    ensures -q <= t / p < q
  {
    var d := t / p;
    assert p * d <= t < p * d + p;
    assert p * d < p * q;
    assert p * (d + 1) > p * (-q);
  }

  /** A multiple of 2^n that lies strictly between -2^n and 2^n is zero, so two
      values in one window of width 2^n that agree modulo 2^n are equal. */
  lemma {:induction false} WindowUnique(a: int, b: int, n: nat)
    requires n >= 1
    requires -Pow2(n - 1) <= a < Pow2(n - 1) && -Pow2(n - 1) <= b < Pow2(n - 1)
    requires (a - b) % Pow2(n) == 0
    ensures a == b
  {
    var p := Pow2(n);
    assert p == 2 * Pow2(n - 1);
    var c := (a - b) / p;
    assert a - b == p * c;
    assert -p < p * c < p;
    if c >= 1 {
      MulAtLeast(p, c);
    } else if c <= -1 {
      MulAtLeast(p, -c);
    }
  }

  // ---------------------------------------------------------------------
  // Left shift followed by arithmetic right shift by the same distance.

  /** `(x << k) >> k` agrees with `x` modulo 2^(64-k). */
  lemma {:induction false} ShlShrCongruent(x: Long, k: nat)
    requires k < 64
    ensures (Shr(Shl(x, k), k) - x) % Pow2(64 - k) == 0
  {
    var p, q := Pow2(k), Pow2(64 - k);
    Pow2Bounds(k);
    var t := Shl(x, k);
    assert k % 64 == k;
    Wrap64Congruent(x * p);
    ScaleCongruent(x, p, q, t);
    assert Shr(t, k) == t / p;
  }

  /** If `t` agrees with `x * p` modulo `p * q`, then `t / p` agrees with `x` modulo `q`. */
  lemma {:induction false} ScaleCongruent(x: int, p: int, q: int, t: int)
    requires p > 0 && q > 0 && (t - x * p) % (p * q) == 0
    ensures (t / p - x) % q == 0
  {
    var n := p * q;
    var j := (t - x * p) / n;
    assert t - x * p == n * j;
    var m := x + q * j;
    assert t == p * m by {
      assert n * j == p * (q * j);
      assert p * m == p * x + p * (q * j);
    }
    MultipleMod(p, m);
    MultipleMod(q, j);
  }

  /** A left shift by k of a value that fits in 64-k signed bits loses nothing. */
  lemma {:induction false} ShlNoOverflow(x: Long, k: nat)
    requires k < 64
    requires -Pow2(63 - k) <= x < Pow2(63 - k)
    ensures Shl(x, k) == x * Pow2(k)
  {
    var p, q := Pow2(k), Pow2(63 - k);
    Pow2Bounds(k);
    assert k % 64 == k;
    MulRange(x, p, q);
  }

  /** An arithmetic right shift by k undoes a left shift by k that lost nothing. */
  lemma {:induction false} ShrExact(x: Long, k: nat)
    requires k < 64
    requires -TWO_63 <= x * Pow2(k) < TWO_63
    ensures Shr(x * Pow2(k), k) == x
  {
    assert k % 64 == k;
    MultipleMod(Pow2(k), x);
  }

  /** `(x << k) >> k` leaves a value that already fits in 64-k signed bits. */
  lemma {:induction false} ShlShrFixed(x: Long, k: nat)
    requires k < 64
    requires -Pow2(63 - k) <= x < Pow2(63 - k)
    ensures Shr(Shl(x, k), k) == x
  {
    ShlNoOverflow(x, k);
    ShrExact(x, k);
  }

  lemma {:induction false} MulRange(x: int, p: int, q: int)
    requires p > 0 && -q <= x < q
    ensures -(p * q) <= x * p < p * q
  {
    assert (q - x) * p > 0;
    assert (x + q) * p >= 0;
  }

  // ---------------------------------------------------------------------
  // Shifts and ORs that do not lose or overlap bits.

  /** A left shift that does not reach the sign bit is a multiplication. */
  lemma {:induction false} ShlSmall(x: Long, d: nat)
    requires d < 64 && 0 <= x && x * Pow2(d) < TWO_63
    ensures Shl(x, d) == x * Pow2(d)
  {
    var p := Pow2(d);
    assert d % 64 == d;
    MulMono(0, x, p);
    assert Shl(x, d) == Wrap64(x * p);
  }

  lemma {:induction false} OrBitsComm(a: nat, b: nat)
    ensures OrBits(a, b) == OrBits(b, a)
  {
    if a != 0 && b != 0 {
      OrBitsComm(a / 2, b / 2);
    }
  }

  /** OR of a value below 2^s with a multiple of 2^s is their sum. */
  lemma {:induction false} OrBitsDisjoint(a: nat, c: nat, s: nat)
    requires a < Pow2(s)
    ensures OrBits(a, c * Pow2(s)) == a + c * Pow2(s)
  {
    if s > 0 && a != 0 && c != 0 {
      var h := c * Pow2(s - 1);
      assert c * Pow2(s) == 2 * h;
      OrBitsDisjoint(a / 2, c, s - 1);
    }
  }

  /** Multiplying by a non-negative factor keeps the order. */
  lemma {:induction false} MulMono(a: int, c: int, p: int)
    requires 0 <= a <= c && p >= 0
    ensures a * p <= c * p
  {
    assert c * p - a * p == (c - a) * p;
  }

  /** Powers of two up to `2^56` leave room for one more byte below `2^64`. */
  lemma {:induction false} Pow2Room(d: nat)
    requires d <= 56
    ensures Pow2(d) < TWO_63 && 256 * Pow2(d) <= TWO_64
  {
    Pow2Divides(d, 56);
    MulAtLeast(Pow2(d), Pow2(56 - d));
    Pow2Add(56, 8);
    Pow2Values();
    var p56 := Pow2(56);
    assert p56 * 256 == TWO_64;
    assert p56 == 0x100_0000_0000_0000;
  }

  /** ORing a byte shifted above a value narrower than the shift adds it. */
  lemma {:induction false} OrHighByte(low: nat, b: Byte, d: nat)
    requires d <= 56 && low < Pow2(d) && low < TWO_63
    ensures Or(low, Shl(b, d)) == Wrap64(low + b * Pow2(d))
  {
    Pow2Room(d);
    var p := Pow2(d);
    assert d % 64 == d;
    MulMono(b, 255, p);
    MulMono(0, b, p);
    assert 0 <= b * p < TWO_64;
    UnsignedWrap(b * p);
    assert Unsigned(Shl(b, d)) == b * p;
    assert Unsigned(low) == low;
    OrBitsDisjoint(low, b, d);
  }

  lemma {:induction false} OrDisjointLong(low: int, high: int, s: nat)
    requires 0 <= low < Pow2(s) && 0 <= high && low + high * Pow2(s) < TWO_63
    ensures Or(low, high * Pow2(s)) == low + high * Pow2(s)
    ensures Or(high * Pow2(s), low) == low + high * Pow2(s)
  {
    var h := high * Pow2(s);
    assert h >= 0;
    assert Unsigned(low) == low && Unsigned(h) == h;
    OrBitsDisjoint(low, high, s);
    OrBitsComm(low, h);
  }
}
