/**
 * The speed limiter (`set_speed`): a signed 16-bit stick reading and the
 * handling mode give a signed speed, scaled so that full deflection reaches
 * the mode's limit, optionally inverted, and truncated toward zero.
 *
 * The source computes `data * (limit / 32768.0f) * ratio` in single
 * precision. Each `limit / 32768` is a dyadic rational (75/2048, 375/8192,
 * 425/16384) and `|data|` times its numerator stays below 2^24, so the float
 * result is exact; the model computes the same value over the integers.
 */
module Speed {
  import opened Types

  /** A per-axis multiplier. The source takes any `float`; both axes use -1.0. */
  type Ratio = r: int | r == -1 || r == 1 witness 1

  const X_RATIO: Ratio := -1
  const Y_RATIO: Ratio := -1

  /** The speed limit of a moving mode; `Stop` returns before a limit is chosen. */
  function Limit(mode: HandleMode): (l: int16)
    requires mode != Stop
    ensures SLOW_SPEED_LIMIT <= l <= HIGH_SPEED_LIMIT
  {
    match mode
    case Normal => NORMAL_SPEED_LIMIT
    case High => HIGH_SPEED_LIMIT
    case Slow => SLOW_SPEED_LIMIT
  }

  /** The value the source's float expression denotes before the cast. */
  ghost function ExactSpeed(data: int16, mode: HandleMode, ratio: Ratio): real
    requires mode != Stop
  {
    data as real * (Limit(mode) as real / INT16_MAX_VAL as real) * ratio as real
  }

  /** `set_speed(data, mode, ratio)`. */
  function SetSpeed(data: int16, mode: HandleMode, ratio: Ratio): (r: int16)
    ensures data == 0 ==> r == 0
    ensures mode == Stop ==> r == 0
    ensures mode != Stop ==> IsTruncation(ExactSpeed(data, mode, ratio), r)
    ensures mode != Stop ==> -Limit(mode) <= r <= Limit(mode)
  {
    if data == 0 then 0
    else if mode == Stop then 0
    else
      ScaledSpeedIsTruncation(data, mode, ratio);
      ScaledSpeedBound(data, mode, ratio);
      ratio * DivTrunc(data * Limit(mode), INT16_MAX_VAL)
  }

  /** The integer formula truncates the exact value toward zero. */
  lemma ScaledSpeedIsTruncation(data: int16, mode: HandleMode, ratio: Ratio)
    requires mode != Stop
    ensures IsTruncation(ExactSpeed(data, mode, ratio), ratio * DivTrunc(data * Limit(mode), INT16_MAX_VAL))
  {
    var scaled := data * Limit(mode);
    var q := DivTrunc(scaled, INT16_MAX_VAL);
    ExactIsQuotient(data, mode);
    DivTruncIsTruncation(scaled, INT16_MAX_VAL);
    if ratio == -1 {
      TruncationNegate(ExactSpeed(data, mode, 1), q);
    }
  }

  /** Without inversion the exact speed is the integer product over 32768;
      inversion negates it. */
  lemma ExactIsQuotient(data: int16, mode: HandleMode)
    requires mode != Stop
    ensures ExactSpeed(data, mode, 1) == (data * Limit(mode)) as real / INT16_MAX_VAL as real
    ensures ExactSpeed(data, mode, -1) == -ExactSpeed(data, mode, 1)
  {
    ScaledIsExact(data, mode);
  }

  /** The integer formula stays within the mode's limit. */
  lemma ScaledSpeedBound(data: int16, mode: HandleMode, ratio: Ratio)
    requires mode != Stop
    ensures -Limit(mode) <= ratio * DivTrunc(data * Limit(mode), INT16_MAX_VAL) <= Limit(mode)
  {
    ScaledIsExact(data, mode);
    DivTruncBound(data * Limit(mode), INT16_MAX_VAL, Limit(mode), Limit(mode) * INT16_MAX_VAL);
  }

  /** Scaling by the float factor `limit / 32768` is exact division of the
      integer product. */
  lemma ScaledIsExact(data: int16, mode: HandleMode)
    requires mode != Stop
    ensures data as real * (Limit(mode) as real / INT16_MAX_VAL as real)
         == (data * Limit(mode)) as real / INT16_MAX_VAL as real
    ensures -INT16_MAX_VAL * Limit(mode) <= data * Limit(mode) <= INT16_MAX_VAL * Limit(mode)
  {
    CastMul(data, Limit(mode));
  }

  /** The contract above determines the result: no other integer is the
      truncation of the exact value. */
  lemma SetSpeedDetermined(data: int16, mode: HandleMode, ratio: Ratio, n: int)
    requires mode != Stop && IsTruncation(ExactSpeed(data, mode, ratio), n)
    ensures n == SetSpeed(data, mode, ratio)
  {
    TruncationUnique(ExactSpeed(data, mode, ratio), n, SetSpeed(data, mode, ratio));
  }

  /** Opposite deflections give opposite speeds, because the cast truncates
      toward zero rather than rounding down. */
  lemma SetSpeedOdd(data: int16, mode: HandleMode, ratio: Ratio)
    requires data != -INT16_MAX_VAL
    ensures SetSpeed(-data, mode, ratio) == -SetSpeed(data, mode, ratio)
  {
    if data != 0 && mode != Stop {
      assert ExactSpeed(-data, mode, ratio) == -ExactSpeed(data, mode, ratio);
      TruncationNegate(ExactSpeed(data, mode, ratio), SetSpeed(data, mode, ratio));
      SetSpeedDetermined(-data, mode, ratio, -SetSpeed(data, mode, ratio));
    }
  }

  /** More deflection never gives less speed along the axis direction: with
      `ratio` -1 a larger reading gives a smaller (more negative) speed. */
  lemma SetSpeedMonotone(d1: int16, d2: int16, mode: HandleMode, ratio: Ratio)
    requires d1 <= d2
    ensures ratio * SetSpeed(d1, mode, ratio) <= ratio * SetSpeed(d2, mode, ratio)
  {
    if mode != Stop {
      MulMonotone(d1, d2, Limit(mode));
      DivTruncMonotone(d1 * Limit(mode), d2 * Limit(mode), INT16_MAX_VAL);
      assert SetSpeed(d1, mode, ratio) == ratio * DivTrunc(d1 * Limit(mode), INT16_MAX_VAL);
      assert SetSpeed(d2, mode, ratio) == ratio * DivTrunc(d2 * Limit(mode), INT16_MAX_VAL);
    }
  }

  /** Worked values: half deflection in Normal mode, and full deflection in
      each direction in High and Slow mode, all with the inverting ratio. */
  lemma SetSpeedExamples()
    ensures SetSpeed(16384, Normal, -1) == -600
    ensures SetSpeed(-0x8000, High, -1) == 1500
    ensures SetSpeed(0x7FFF, Slow, -1) == -849
    ensures SetSpeed(-1, Normal, -1) == 0
  {
  }
}
