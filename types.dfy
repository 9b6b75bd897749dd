/**
 * Machine types, compiled-in tuning constants, the handling mode and the wire
 * packet of the controller-to-vehicle bridge, plus the C++ arithmetic the
 * model needs written out: truncation toward zero, and the shift and bitwise
 * operators on non-negative integers.
 */
module Types {

  /** A C++ `int16_t`. */
  type int16 = x: int | -0x8000 <= x < 0x8000

  /** A C++ `uint8_t`. */
  type uint8 = x: int | 0 <= x < 0x100

  /** The full-scale value a stick reading is divided by. */
  const INT16_MAX_VAL: int := 32768

  const HIGH_SPEED_LIMIT: int16 := 1500
  const NORMAL_SPEED_LIMIT: int16 := 1200
  const SLOW_SPEED_LIMIT: int16 := 850
  const UP_SPEED: int16 := -1300
  const DOWN_SPEED: int16 := 350
  const Z_BRAKE_SPEED: int16 := -50

  /** Servo bounds and step. The source keeps the bounds as `uint8_t` and the
      position and step as `float`; the model uses exact reals. */
  const ARG_MIN: real := 0.0
  const ARG_MAX: real := 150.0
  const ARG_INITIAL: real := 75.0
  const ARG_DIFF: real := 0.15

  /** The speed-limiting regime of one tick. */
  datatype HandleMode = Normal | Slow | High | Stop

  /** The packet sent to the vehicle each tick (`ETH_TxDataType`). */
  datatype EthTxData = EthTxData(xSpeed: int16, ySpeed: int16, zSpeed: int16, armState: uint8)

  /** `2` to the power `k`. */
  function Pow2(k: nat): (p: nat)
    ensures p >= 1
  {
    if k == 0 then 1 else 2 * Pow2(k - 1)
  }

  /** `a << k` on non-negative integers. */
  function ShiftLeft(a: nat, k: nat): nat
    decreases k
  {
    if k == 0 then a else ShiftLeft(2 * a, k - 1)
  }

  /** `a >> k` on non-negative integers. */
  function ShiftRight(a: nat, k: nat): nat {
    if k == 0 then a else ShiftRight(a / 2, k - 1)
  }

  /** `a | b` on non-negative integers, one bit at a time from the lowest. */
  function BitOr(a: nat, b: nat): nat
    decreases a + b
  {
    if a == 0 then b
    else if b == 0 then a
    else 2 * BitOr(a / 2, b / 2) + (if a % 2 == 1 || b % 2 == 1 then 1 else 0)
  }

  /** `a & b` on non-negative integers, one bit at a time from the lowest. */
  function BitAnd(a: nat, b: nat): nat
    decreases a + b
  {
    if a == 0 || b == 0 then 0
    else 2 * BitAnd(a / 2, b / 2) + (if a % 2 == 1 && b % 2 == 1 then 1 else 0)
  }

  /** The low `k` bits of `a`, read off one at a time. */
  function LowBits(a: nat, k: nat): nat {
    if k == 0 then 0 else 2 * LowBits(a / 2, k - 1) + a % 2
  }

  /** Setting bit `k` of a value below `2^(k+1)` adds `2^k` unless the bit is
      already set. */
  lemma {:induction false} BitOrHighBit(k: nat, s: nat)
    requires s < Pow2(k + 1)
    ensures BitOr(Pow2(k), s) == if s >= Pow2(k) then s else s + Pow2(k)
  {
    if k > 0 && s > 0 {
      assert Pow2(k) / 2 == Pow2(k - 1) && Pow2(k) % 2 == 0;
      assert s / 2 < Pow2(k);
      BitOrHighBit(k - 1, s / 2);
      assert s / 2 >= Pow2(k - 1) <==> s >= Pow2(k);
    }
  }

  /** Masking with `2^k - 1` keeps the low `k` bits. */
  lemma {:induction false} BitAndLowMask(a: nat, k: nat)
    ensures BitAnd(a, Pow2(k) - 1) == LowBits(a, k)
  {
    if k > 0 {
      MaskHalves(k);
      BitAndLowMask(a / 2, k - 1);
      if a == 0 {
        ZeroLowBits(k);
      }
    }
  }

  /** Zero has no bits set. */
  lemma {:induction false} ZeroLowBits(k: nat)
    ensures LowBits(0, k) == 0
  {
    if k > 0 {
      ZeroLowBits(k - 1);
    }
  }

  /** The mask `2^k - 1` is odd, and halving it gives the mask one bit shorter. */
  lemma MaskHalves(k: nat)
    requires k > 0
    ensures (Pow2(k) - 1) / 2 == Pow2(k - 1) - 1 && (Pow2(k) - 1) % 2 == 1
  {
  }

  /** The seven low bits of a value are its remainder modulo 128. */
  lemma LowSevenBits(a: nat)
    ensures LowBits(a, 7) == a % 0x80
  {
    var b1, b2, b3, b4, b5, b6 := a / 2, a / 4, a / 8, a / 16, a / 32, a / 64;
    assert b2 == b1 / 2 && b3 == b2 / 2 && b4 == b3 / 2 && b5 == b4 / 2 && b6 == b5 / 2;
    assert LowBits(b6, 1) == b6 % 2;
    ModSplit(b5, 2);
    assert LowBits(b5, 2) == b5 % 4;
    ModSplit(b4, 4);
    assert LowBits(b4, 3) == b4 % 8;
    ModSplit(b3, 8);
    assert LowBits(b3, 4) == b3 % 16;
    ModSplit(b2, 16);
    assert LowBits(b2, 5) == b2 % 32;
    ModSplit(b1, 32);
    assert LowBits(b1, 6) == b1 % 64;
    ModSplit(a, 64);
  }

  /** Splitting off the lowest bit: `b % (2 * p)` from `(b / 2) % p`. */
  lemma ModSplit(b: nat, p: nat)
    requires p > 0
    ensures b % (2 * p) == 2 * ((b / 2) % p) + b % 2
  {
    var q, r := (b / 2) / p, (b / 2) % p;
    assert b / 2 == q * p + r && 0 <= r < p;
    assert b == q * (2 * p) + (2 * r + b % 2);
    ModUnique(b, 2 * p, q, 2 * r + b % 2);
  }

  /** The remainder is determined by any quotient-remainder split. */
  lemma ModUnique(a: nat, d: nat, q: int, r: int)
    requires d > 0 && a == q * d + r && 0 <= r < d
    ensures a % d == r
  {
    var q0, r0 := a / d, a % d;
    assert a == q0 * d + r0;
    if q0 < q {
      MulMonotone(q0 + 1, q, d);
    } else if q < q0 {
      MulMonotone(q + 1, q0, d);
    }
  }

  /** Shifting right by seven is division by 128. */
  lemma ShiftRightSeven(a: nat)
    ensures ShiftRight(a, 7) == a / 0x80
  {
    assert ShiftRight(a / 64, 1) == a / 128;
    assert ShiftRight(a / 32, 2) == a / 128;
    assert ShiftRight(a / 16, 3) == a / 128;
    assert ShiftRight(a / 8, 4) == a / 128;
    assert ShiftRight(a / 4, 5) == a / 128;
    assert ShiftRight(a / 2, 6) == a / 128;
  }

  /** `n` is `x` rounded toward zero, which is what a C++ cast from a
      floating-point value to an integer type computes. */
  ghost predicate IsTruncation(x: real, n: int) {
    if x >= 0.0 then n as real <= x < n as real + 1.0
    else n as real - 1.0 < x <= n as real
  }

  /** At most one integer is the truncation of a given value. */
  lemma TruncationUnique(x: real, n: int, m: int)
    requires IsTruncation(x, n) && IsTruncation(x, m)
    ensures n == m
  {
  }

  /** Truncation toward zero commutes with negation (flooring does not). */
  lemma TruncationNegate(x: real, n: int)
    requires IsTruncation(x, n)
    ensures IsTruncation(-x, -n)
  {
  }

  /** Integer division rounded toward zero. Dafny's `/` rounds down, so a
      negative dividend is handled through its magnitude. */
  function DivTrunc(a: int, b: int): int
    requires b > 0
  {
    if a >= 0 then a / b else -((-a) / b)
  }

  lemma DivTruncIsTruncation(a: int, b: int)
    requires b > 0
    ensures IsTruncation(a as real / b as real, DivTrunc(a, b))
  {
    if a >= 0 {
      DivFloorIsTruncation(a, b);
    } else {
      DivFloorIsTruncation(-a, b);
      assert a as real / b as real == -((-a) as real / b as real);
      TruncationNegate((-a) as real / b as real, (-a) / b);
    }
  }

  lemma DivFloorIsTruncation(m: nat, b: int)
    requires b > 0
    ensures IsTruncation(m as real / b as real, m / b)
  {
    var q := m / b;
    assert q * b <= m < (q + 1) * b;
    QuotientIsTruncation(m, b, q);
  }

  /** A `q` with `q * b <= m < (q + 1) * b` is `m / b` rounded down. */
  lemma QuotientIsTruncation(m: nat, b: int, q: int)
    requires b > 0 && q >= 0 && q * b <= m < (q + 1) * b
    ensures IsTruncation(m as real / b as real, q)
  {
    CastMul(q, b);
    CastMul(q + 1, b);
    var mr, qr, br := m as real, q as real, b as real;
    assert qr * br <= mr;
    assert mr < (qr + 1.0) * br;
    LeDiv(qr, mr, br);
    DivLt(mr, qr + 1.0, br);
  }

  lemma CastMul(x: int, y: int)
    ensures (x * y) as real == x as real * y as real
  {
  }

  lemma LeDiv(q: real, m: real, b: real)
    requires b > 0.0 && q * b <= m
    ensures q <= m / b
  {
  }

  lemma DivLt(m: real, h: real, b: real)
    requires b > 0.0 && m < h * b
    ensures m / b < h
  {
  }

  /** A dividend of magnitude at most `p`, where `p` is `bound` times `b`,
      has a quotient of magnitude at most `bound`. */
  lemma DivTruncBound(a: int, b: int, bound: int, p: int)
    requires b > 0 && bound >= 0 && p == bound * b && -p <= a <= p
    ensures -bound <= DivTrunc(a, b) <= bound
  {
    if a >= 0 {
      DivFloorBound(a, b, bound, p);
      assert DivTrunc(a, b) == a / b;
    } else {
      DivFloorBound(-a, b, bound, p);
      assert DivTrunc(a, b) == -((-a) / b);
    }
  }

  /** The same bound for a non-negative dividend and Dafny's `/`. */
  lemma DivFloorBound(m: nat, b: int, bound: nat, p: int)
    requires b > 0 && p == bound * b && m <= p
    ensures 0 <= m / b <= bound
  {
    var q := m / b;
    assert q * b <= m;
    MulMonotone(bound + 1, q, b);
    MulSucc(bound, b);
  }

  lemma MulSucc(x: int, b: int)
    ensures (x + 1) * b == x * b + b
  {
  }

  /** Truncated division is monotone in the dividend. */
  lemma DivTruncMonotone(a: int, c: int, b: int)
    requires b > 0 && a <= c
    ensures DivTrunc(a, b) <= DivTrunc(c, b)
  {
    if a >= 0 {
      DivFloorMonotone(a, c, b);
    } else if c >= 0 {
      assert DivTrunc(a, b) <= 0;
    } else {
      DivFloorMonotone(-c, -a, b);
    }
  }

  lemma DivFloorMonotone(a: nat, c: nat, b: int)
    requires b > 0 && a <= c
    ensures a / b <= c / b
  {
    assert a == (a / b) * b + a % b;
    assert c == (c / b) * b + c % b;
    MulMonotone(c / b + 1, a / b, b);
  }

  lemma MulMonotone(x: int, y: int, b: int)
    requires b > 0
    ensures x <= y ==> x * b <= y * b
  {
  }
}
