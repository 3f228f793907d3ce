/** Byte strings read as numbers in base 256, least significant byte first,
    and the usual facts about quotients and remainders they rest on. */
module Radix {
  import opened JavaArith

  /** The number a byte string denotes when its first byte is the least
      significant one. */
  function LittleValue(s: seq<Byte>): nat
  {
    if |s| == 0 then 0 else s[0] + 256 * LittleValue(s[1..])
  }

  /** The value of a two-byte string. */
  lemma {:induction false} LittleValue2(b0: Byte, b1: Byte)
    ensures LittleValue([b0, b1]) == b0 + 256 * (b1 as int)
  {
    assert [b1][1..] == [];
    assert LittleValue([b1]) == b1;
    assert [b0, b1][1..] == [b1];
  }

  /** The value of a three-byte string. */
  lemma {:induction false} LittleValue3(b0: Byte, b1: Byte, b2: Byte)
    ensures LittleValue([b0, b1, b2]) == b0 + 256 * (b1 as int) + 0x1_0000 * (b2 as int)
  {
    assert [b0, b1, b2][1..] == [b1, b2];
    LittleValue2(b1, b2);
  }

  /** Appending a byte adds it at the next power of 256. */
  lemma {:induction false} LittleValueSnoc(s: seq<Byte>, b: Byte)
    ensures LittleValue(s + [b]) == LittleValue(s) + b * Pow2(8 * |s|)
  {
    if |s| == 0 {
      assert [b][1..] == [];
    } else {
      var t := s[1..];
      assert (s + [b])[0] == s[0] && (s + [b])[1..] == t + [b];
      assert LittleValue(s + [b]) == s[0] + 256 * LittleValue(t + [b]);
      LittleValueSnoc(t, b);
      var p := Pow2(8 * |t|);
      Pow2Bytes();
      Pow2Add(8, 8 * |t|);
      assert Pow2(8 * |s|) == 256 * p;
      assert 256 * (b * p) == b * (256 * p);
    }
  }

  /** The `w` lowest base-256 digits of `u`, least significant first. */
  function LittleDigits(u: nat, w: nat): (r: seq<Byte>)
    ensures |r| == w
  {
    if w == 0 then [] else [u % 256] + LittleDigits(u / 256, w - 1)
  }

  /** Dividing by `p` and then by `q` is dividing by `p * q`. */
  lemma {:induction false} DivDiv(a: nat, p: int, q: int)
    requires p > 0 && q > 0
    ensures a / p / q == a / (p * q)
  {
    var t, v := a / p / q, a / p % q;
    var r := a % p;
    assert a == p * (q * t + v) + r;
    assert a == (p * q) * t + (p * v + r);
    assert p * v + r < p * q by {
      assert p * v <= p * (q - 1);
    }
    DivModUnique(a, p * q, t, p * v + r);
  }

  /** The remainder modulo `256 * m` splits into the lowest digit and the
      remainder of the rest modulo `m`. */
  lemma {:induction false} ModSplit(a: nat, m: int)
    requires m > 0
    ensures a % (256 * m) == a % 256 + 256 * (a / 256 % m)
  {
    var q, r := a / 256, a % 256;
    var t, u := q / m, q % m;
    assert a == (256 * m) * t + (256 * u + r);
    assert 256 * u + r < 256 * m by {
      assert 256 * u <= 256 * (m - 1);
    }
    DivModUnique(a, 256 * m, t, 256 * u + r);
  }

  /** Digit `b` of `u` is `(u / 256^b) mod 256`. */
  lemma {:induction false} LittleDigitsAt(u: nat, w: nat, b: nat)
    requires b < w
    ensures LittleDigits(u, w)[b] == u / Pow2(8 * b) % 256
  {
    if b > 0 {
      LittleDigitsAt(u / 256, w - 1, b - 1);
      Pow2Bytes();
      Pow2Add(8, 8 * (b - 1));
      DivDiv(u, 256, Pow2(8 * (b - 1)));
    }
  }

  /** Reading back the `w` lowest digits of `u` gives `u mod 256^w`. */
  lemma {:induction false} LittleValueOfDigits(u: nat, w: nat)
    ensures LittleValue(LittleDigits(u, w)) == u % Pow2(8 * w)
  {
    if w > 0 {
      var d := LittleDigits(u, w);
      assert d[1..] == LittleDigits(u / 256, w - 1);
      LittleValueOfDigits(u / 256, w - 1);
      Pow2Bytes();
      Pow2Add(8, 8 * (w - 1));
      ModSplit(u, Pow2(8 * (w - 1)));
    }
  }

  /** A byte string of length `w` denotes a number below `256^w`. */
  lemma {:induction false} LittleValueBound(s: seq<Byte>)
    ensures LittleValue(s) < Pow2(8 * |s|)
  {
    if |s| > 0 {
      LittleValueBound(s[1..]);
      Pow2Bytes();
      Pow2Add(8, 8 * (|s| - 1));
      assert LittleValue(s[1..]) <= Pow2(8 * (|s| - 1)) - 1;
      assert 256 * LittleValue(s[1..]) <= 256 * Pow2(8 * (|s| - 1)) - 256;
    }
  }

  /** The digits of the number a byte string denotes are that byte string. */
  lemma {:induction false} DigitsOfLittleValue(s: seq<Byte>)
    ensures LittleDigits(LittleValue(s), |s|) == s
  {
    if |s| > 0 {
      var v := LittleValue(s);
      DivModUnique(v, 256, LittleValue(s[1..]), s[0]);
      DigitsOfLittleValue(s[1..]);
      assert LittleDigits(v, |s|) == [s[0]] + s[1..];
    }
  }

  /** If `u` and `x` agree modulo `p * m`, then `u mod p` agrees with `x` modulo `p`. */
  lemma {:induction false} ModOfCongruent(u: int, x: int, p: int, m: int)
    requires p > 0 && m > 0 && (u - x) % (p * m) == 0
    ensures (u % p - x) % p == 0
  {
    var k := (u - x) / (p * m);
    var q := u / p;
    assert u - x == (p * m) * k;
    assert u % p - x == p * (m * k - q);
    MultipleMod(p, m * k - q);
  }
}
