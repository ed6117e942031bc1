/**
 * The 64-bit integer arithmetic the transfer functions perform on int64_t
 * values, and the conversions between an LLVM integer literal (a bit
 * pattern of some width) and the int64 value the analysis reads from it.
 */
module Int64Arith {
  import opened Lattice

  const TwoTo63: int := 0x8000_0000_0000_0000
  const TwoTo64: int := 0x1_0000_0000_0000_0000

  /** The LLVM integer types the model distinguishes (i1, i8, i16, i32, i64). */
  datatype Width = I1 | I8 | I16 | I32 | I64

  /** 2^width. */
  function Modulus(w: Width): (m: nat)
    ensures 2 <= m <= TwoTo64 && m % 2 == 0
  {
    match w
    case I1 => 2
    case I8 => 0x100
    case I16 => 0x1_0000
    case I32 => 0x1_0000_0000
    case I64 => 0x1_0000_0000_0000_0000
  }

  /**
   * ConstantInt::getSExtValue: the bit pattern `bits` of width w (an APInt
   * keeps exactly w bits) read as a signed number.
   */
  function SignExtend(w: Width, bits: int): (r: Int64)
    ensures -(Modulus(w) / 2) <= r < Modulus(w) / 2
    ensures (r - bits) % Modulus(w) == 0
  {
    var m := Modulus(w);
    var b := bits % m;
    MultipleIsDivisible(-(bits / m), m);
    MultipleIsDivisible(-(bits / m) - 1, m);
    if b >= m / 2 then b - m else b
  }

  /** k * m is divisible by m. */
  lemma MultipleIsDivisible(k: int, m: int)
    requires m > 0
    ensures (k * m) % m == 0
  {
    var y := k * m;
    var t := k - y / m;
    assert y % m == m * t;
    ProductBounds(m, t);
  }

  lemma ProductBounds(m: int, t: int)
    requires m > 0
    ensures t >= 1 ==> m * t >= m
    ensures t <= -1 ==> m * t <= -m
  {
  }

  /**
   * ConstantInt::get(Ty, v): the int64 value v, taken as an unsigned 64-bit
   * number and truncated to the width of Ty, as the bit pattern of the literal.
   */
  function Truncate(v: Int64, w: Width): (bits: nat)
    ensures bits < Modulus(w)
  {
    v % Modulus(w)
  }

  /** A value that fits the width survives being written as a literal and read back. */
  lemma {:induction false} TruncateThenSignExtend(v: Int64, w: Width)
    requires -(Modulus(w) / 2) <= v < Modulus(w) / 2
    ensures SignExtend(w, Truncate(v, w)) == v
  {
    var m := Modulus(w);
    if v < 0 {
      ModShift(v, m);
      ModInRange(v + m, m);
    } else {
      ModInRange(v, m);
    }
  }

  /** A literal survives being read as int64 and written back at its width. */
  lemma {:induction false} SignExtendThenTruncate(w: Width, bits: nat)
    requires bits < Modulus(w)
    ensures Truncate(SignExtend(w, bits), w) == bits
  {
    var m := Modulus(w);
    ModInRange(bits, m);
    if bits >= m / 2 {
      ModShift(bits - m, m);
    }
  }

  /** Writing any int64 as a literal and reading it back gives a value congruent to it modulo 2^width. */
  lemma TruncateIsCongruent(v: Int64, w: Width)
    ensures (SignExtend(w, Truncate(v, w)) - v) % Modulus(w) == 0
  {
    var m := Modulus(w);
    var b := Truncate(v, w);
    var r := SignExtend(w, b);
    var t1 := (r - b) / m;
    assert r - b == m * t1;
    var t2 := v / m;
    assert v == m * t2 + b;
    assert r - v == (t1 - t2) * m;
    MultipleIsDivisible(t1 - t2, m);
  }

  lemma ModInRange(x: int, m: int)
    requires 0 <= x < m
    ensures x % m == x
  {
    ProductBounds(m, x / m);
  }

  lemma ModShift(x: int, m: int)
    requires m > 0
    ensures (x + m) % m == x % m
  {
    var d := (x + m) / m - x / m - 1;
    assert m * d == x % m - (x + m) % m;
    ProductBounds(m, d);
  }

  /** Two's-complement wrap-around of a mathematical integer into int64. */
  function Wrap(x: int): (r: Int64)
    ensures (r - x) % TwoTo64 == 0
  {
    MultipleIsDivisible(-((x + TwoTo63) / TwoTo64), TwoTo64);
    (x + TwoTo63) % TwoTo64 - TwoTo63
  }

  /** Wrap changes nothing when no overflow happened. */
  lemma WrapWithinRange(x: int)
    requires MinInt64 <= x <= MaxInt64
    ensures Wrap(x) == x
  {
    assert (x + TwoTo63) % TwoTo64 == x + TwoTo63;
  }

  /** Wrap is the only int64 congruent to its argument modulo 2^64. */
  lemma {:induction false} WrapIsUnique(x: int, r: Int64)
    requires (r - x) % TwoTo64 == 0
    ensures r == Wrap(x)
  {
    var w := Wrap(x);
    assert (r - w) % TwoTo64 == 0 by {
      assert r - w == (r - x) - (w - x);
    }
  }

  /** C++ signed division: the quotient is truncated toward zero. */
  function TruncDiv(x: Int64, y: Int64): (q: Int64)
    requires y != 0 && !(x == MinInt64 && y == -1)
  {
    var a: int := if x < 0 then -(x as int) else x;
    var b: int := if y < 0 then -(y as int) else y;
    assert a / b <= a by {
      DivBound(a, b);
    }
    assert a / b < TwoTo63 || (x == MinInt64 && b == 1) by {
      if b >= 2 {
        DivBound(a, b);
      }
    }
    if (x < 0) == (y < 0) then a / b else -(a / b)
  }

  lemma DivBound(a: nat, b: nat)
    requires b >= 1
    ensures a / b <= a
    ensures b >= 2 ==> a / b <= a / 2
  {
    var q := a / b;
    assert a == q * b + a % b;
    NonNegativeProduct(q, b - 1);
    assert q * b == q + q * (b - 1);
    if b >= 2 {
      NonNegativeProduct(q, b - 2);
      assert q * b == 2 * q + q * (b - 2);
    }
  }

  lemma NonNegativeProduct(x: nat, y: nat)
    ensures x * y >= 0
  {
  }

  /**
   * TruncDiv agrees with the definition of C++ division: x == q * y + r
   * where the remainder is smaller than the divisor in magnitude and is zero
   * or has the sign of the dividend.
   */
  lemma {:induction false} TruncDivIsTruncatingDivision(x: Int64, y: Int64)
    requires y != 0 && !(x == MinInt64 && y == -1)
    ensures var q := TruncDiv(x, y); var r := x - q * y;
      && (if r < 0 then -r else r) < (if y < 0 then -(y as int) else y as int)
      && (r == 0 || (r < 0 <==> x < 0))
  {
    var a: int := if x < 0 then -(x as int) else x;
    var b: int := if y < 0 then -(y as int) else y;
    var q0 := a / b;
    var r0 := a % b;
    assert a == q0 * b + r0 && 0 <= r0 < b;
    var q := TruncDiv(x, y);
    assert q == if (x < 0) == (y < 0) then q0 else -q0;
    var r := x - q * y;
    if x >= 0 && y > 0 {
      assert r == r0;
    } else if x >= 0 && y < 0 {
      NegatedProduct(q0, b);
      assert r == r0;
    } else if x < 0 && y > 0 {
      NegatedProduct(q0, b);
      assert r == -r0;
    } else {
      NegatedProduct(q0, b);
      assert r == -r0;
    }
  }

  lemma NegatedProduct(a: int, b: int)
    ensures (-a) * (-b) == a * b && (-a) * b == -(a * b) && a * (-b) == -(a * b)
  {
  }

  /** The int64 value as its two's-complement 64-bit pattern. */
  function ToBits(x: Int64): bv64
  {
    (if x < 0 then x + TwoTo64 else x) as bv64
  }

  /** A 64-bit pattern read as a signed int64. */
  function FromBits(b: bv64): Int64
  {
    var n := b as int;
    if n >= TwoTo63 then n - TwoTo64 else n
  }

  /** Every 64-bit pattern is the two's-complement encoding of the int64 it denotes. */
  lemma PatternsRoundTrip(b: bv64)
    ensures ToBits(FromBits(b)) == b
  {
  }

  /** int64_t operator&. */
  function BitAnd(x: Int64, y: Int64): Int64 { FromBits(ToBits(x) & ToBits(y)) }

  /** int64_t operator|. */
  function BitOr(x: Int64, y: Int64): Int64 { FromBits(ToBits(x) | ToBits(y)) }

  /** int64_t operator^. */
  function BitXor(x: Int64, y: Int64): Int64 { FromBits(ToBits(x) ^ ToBits(y)) }

  /** The bitwise operators act on the two's-complement patterns of their operands. */
  lemma BitwiseOnPatterns(x: Int64, y: Int64)
    ensures ToBits(BitAnd(x, y)) == ToBits(x) & ToBits(y)
    ensures ToBits(BitOr(x, y)) == ToBits(x) | ToBits(y)
    ensures ToBits(BitXor(x, y)) == ToBits(x) ^ ToBits(y)
  {
    PatternsRoundTrip(ToBits(x) & ToBits(y));
    PatternsRoundTrip(ToBits(x) | ToBits(y));
    PatternsRoundTrip(ToBits(x) ^ ToBits(y));
  }
}
