/**
 * The servo accumulator (`set_servo_value`) and the conversion of its
 * position to the byte sent on the wire. The position is a `float` in the
 * source and an exact `real` here.
 */
module Servo {
  import opened Types

  /** The bounds `[ARG_MIN, ARG_MAX]` the accumulator keeps the position in. */
  predicate InRange(arg: real) {
    ARG_MIN <= arg <= ARG_MAX
  }

  /** `set_servo_value(servo_arg, diff)`: move by `diff` unless that leaves
      the bounds, in which case the update is dropped (rejected, not clamped). */
  function SetServoValue(servoArg: real, diff: real): (r: real)
    ensures r == servoArg || r == servoArg + diff
    ensures r == servoArg + diff <==> InRange(servoArg + diff) || diff == 0.0
    ensures InRange(servoArg) ==> InRange(r)
  {
    var newArg := servoArg + diff;
    if newArg > ARG_MAX || newArg < ARG_MIN then servoArg else newArg
  }

  /** A zero step leaves every position, in range or not, where it is. */
  lemma ServoZeroStep(servoArg: real)
    ensures SetServoValue(servoArg, 0.0) == servoArg
  {
  }

  /** Pushing past a bound freezes the position at its last in-range value:
      it does not snap to the bound. */
  lemma ServoRejectsOverrun(servoArg: real, diff: real)
    requires InRange(servoArg) && !InRange(servoArg + diff)
    ensures SetServoValue(servoArg, diff) == servoArg
  {
  }

  /** `static_cast<uint8_t>(servo_arg)`: truncation of a non-negative position
      to a byte (the cast is undefined outside the byte's range). */
  function ServoByte(servoArg: real): (b: uint8)
    requires 0.0 <= servoArg < 256.0
    ensures IsTruncation(servoArg, b)
    ensures servoArg <= ARG_MAX ==> b <= ARG_MAX.Floor
  {
    servoArg.Floor
  }

  /** The byte's top bit is set exactly for positions of 128 and above; the
      accumulator's bound of 150 lets it reach them. */
  lemma ServoByteTopBit(servoArg: real)
    requires InRange(servoArg)
    ensures ServoByte(servoArg) >= 0x80 <==> servoArg >= 128.0
  {
    if servoArg >= 128.0 {
      assert servoArg.Floor >= 128;
    }
  }

  /** Worked values: one step up from the initial position, and a step that
      would overrun the upper bound. */
  lemma ServoExamples()
    ensures SetServoValue(ARG_INITIAL, ARG_DIFF) == 75.15
    ensures ServoByte(75.15) == 75
    ensures SetServoValue(149.9, ARG_DIFF) == 149.9
    ensures ServoByte(149.9) == 149
  {
  }
}
