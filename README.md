# Controller-to-vehicle command derivation

This project models the per-tick command logic of a controller bridge for a
remotely operated vehicle (`main.cpp`). On each poll the program reads a
game controller and builds an `ETH_TxDataType` packet for the vehicle. The
packet holds two speed-limited stick speeds (x, y), a three-way vertical
speed (z), and one `arm_state` byte. That byte packs a propeller flag
(bit 7) with the servo position, truncated to a byte. Two values carry over
from tick to tick: the servo position, a bounded accumulator, and the
propeller flag, which toggles on each press of Circle.

Files and modules:

- `types.dfy` (`Types`): `int16`, `uint8`, the compiled-in constants,
  `HandleMode` and the packet `EthTxData`. It also holds the C++
  arithmetic the model writes out. Truncation toward zero is
  `IsTruncation` and `DivTrunc`. The operators `<<`, `>>`, `|` and `&` on
  non-negative integers are defined one bit at a time.
- `speed.dfy` (`Speed`): `set_speed`. The source computes
  `data * (limit / 32768.0f) * ratio` in `float`. That arithmetic is exact:
  each `limit / 32768` is a dyadic rational, and `|data|` times its
  numerator stays below 2^24. So the model computes over the integers and
  proves the result is the exact real value truncated toward zero.
- `servo.dfy` (`Servo`): `set_servo_value` and the cast of the position to
  `uint8_t`.
- `command.dfy` (`Command`): the pieces of one loop iteration. `Next` gives
  the carried state after the iteration and `Send` the packet it sends.
  The file also holds the mode name of the diagnostic line and the
  unpacking that line performs. `Run` repeats `Next` and `Send` over a
  sequence of controller snapshots.
- `controller.dfy` (`Loop`): the loop as imperative code. The class
  `Controller` holds the two carried values. `Step` runs one iteration and
  is proved equal to `Next` and `Send`. `RunLoop` is the `while` loop and is proved
  equal to `Run`.

The `arm_state` byte is modelled as written: `(rotate << 7) | servo_data`.
The code does not mask the servo byte to 7 bits. The servo bound is 150, so
a position of 128 or more sets bit 7 by itself. The diagnostic unpack then
reads the propeller flag as on, whatever `rotate` is. `ArmUnpack`,
`ServoByteTopBit` and `ArmExamples` state this exactly.

R1 and L1 are read with `pressed()`, which is level-triggered, so the servo
moves on every tick the button is held. Of the inputs the model takes,
Circle is the only one read with `pushed()`, the edge-triggered read: the
propeller flag toggles once per press.

## Model

| member | source | states |
|---|---|---|
| Types.IsTruncation | main.cpp:59 | the conversion `static_cast<int16_t>` and `static_cast<uint8_t>` apply to a float: the integer whose magnitude is the largest not above the value's, with the value's sign; `TruncationUnique` shows it is a function of the value |
| Types.DivTrunc | main.cpp:59 | integer division rounded toward zero, the integer counterpart of that conversion; `DivTruncIsTruncation` ties the two |
| Types.DivTruncIsTruncation | main.cpp:59 | integer division rounded toward zero is the truncation of the exact quotient, which is what `static_cast<int16_t>` of a float computes |
| Types.TruncationUnique | main.cpp:59 | at most one integer is the truncation of a value, so a truncation contract determines its result |
| Types.ShiftLeft | main.cpp:166 | `a << k` on non-negative integers, one doubling per bit |
| Types.BitOr | main.cpp:166 | bitwise OR on non-negative integers, bit by bit from the lowest; `BitOrHighBit` gives its value when one operand is a single high bit |
| Types.BitAnd | main.cpp:189-190 | bitwise AND on non-negative integers, bit by bit from the lowest; `BitAndLowMask` gives its value for a low mask |
| Types.ShiftRight | main.cpp:190 | `a >> k` on non-negative integers, one halving per bit; `ShiftRightSeven` gives its value for k = 7 |
| Types.BitOrHighBit | main.cpp:166 | OR-ing bit k into a value below 2^(k+1) adds 2^k unless that bit is already set |
| Types.BitAndLowMask | main.cpp:189 | AND with the mask 2^k - 1 keeps exactly the low k bits |
| Types.LowSevenBits | main.cpp:189 | the low seven bits of a value are its remainder modulo 128 |
| Types.ShiftRightSeven | main.cpp:190 | shifting right by seven is division by 128 |
| Speed.Limit | main.cpp:38-54 | each moving mode has a limit between the Slow limit (850) and the High limit (1500); Stop has none |
| Speed.ExactSpeed | main.cpp:57 | the real value of `data * (limit / 32768) * ratio` before the cast; the reference `SetSpeed`'s contract is stated against |
| Speed.SetSpeed | main.cpp:35-60 | zero reading gives 0; Stop gives 0; otherwise the result is the exact `data * (limit / 32768) * ratio` truncated toward zero, and within `[-limit, limit]` |
| Speed.ScaledIsExact | main.cpp:57 | multiplying by the factor `limit / 32768` equals dividing the integer product `data * limit` by 32768, and that product is at most `32768 * limit` in magnitude |
| Speed.ExactIsQuotient | main.cpp:57 | without inversion the float expression equals `data * limit` divided by 32768; the ratio -1 negates it |
| Speed.ScaledSpeedIsTruncation | main.cpp:56-59 | the integer formula `ratio * trunc(data * limit / 32768)` is the truncation of the float expression |
| Speed.ScaledSpeedBound | main.cpp:56-59 | the integer formula lies within `[-limit, limit]` for every reading |
| Speed.SetSpeedDetermined | main.cpp:56-59 | any integer that truncates the exact speed equals `SetSpeed`'s result |
| Speed.SetSpeedOdd | main.cpp:56-59 | opposite stick deflections give opposite speeds: the cast truncates toward zero, it does not round down |
| Speed.SetSpeedMonotone | main.cpp:56-59 | more stick deflection never gives less speed in the axis direction; with ratio -1 a larger reading gives a smaller speed |
| Speed.SetSpeedExamples | main.cpp:35-60 | half deflection in Normal gives -600; full deflection gives 1500 in High and -849 in Slow; reading -1 gives 0 |
| Servo.InRange | main.cpp:65 | a position lies in [0, 150]: exactly the candidates the line-65 test does not reject |
| Servo.SetServoValue | main.cpp:62-70 | the result is the old position or the candidate `old + diff`; it is the candidate exactly when the candidate lies in [0, 150] or the diff is 0; an in-range position stays in range |
| Servo.ServoZeroStep | main.cpp:62-70 | a zero step is the identity |
| Servo.ServoRejectsOverrun | main.cpp:65-67 | an update leaving the bounds is rejected, and the position stays where it was instead of snapping to the bound |
| Servo.ServoByte | main.cpp:154 | the byte is the position truncated toward zero, and at most 150 for an in-range position |
| Servo.ServoByteTopBit | main.cpp:154 | an in-range position gives a servo byte with bit 7 set exactly when the position is 128 or more |
| Servo.ServoExamples | main.cpp:153-154 | 75 + 0.15 gives 75.15 and byte 75; 149.9 + 0.15 overruns and the position stays 149.9 |
| Command.SelectMode | main.cpp:120-127 | the mode is Stop if Cross is held, else Slow if L2 is held, else High if R2 is held, else Normal, with each mode stated both ways |
| Command.SelectZ | main.cpp:131-139 | z is -1300 if up is held, else 350 if down is held, else -50, with each case stated both ways; z is never 0 |
| Command.ServoDiff | main.cpp:143-151 | the step is positive exactly when R1 is held, and negative exactly when L1 alone is held; it is 0 or ±0.15 |
| Command.PackArm | main.cpp:166 | without the flag, `arm_state` is the servo byte itself; with it, 128 is added unless bit 7 of the servo byte is already set; the servo byte is not masked |
| Command.ArmServo | main.cpp:189 | the servo value read back is the packed byte modulo 128 |
| Command.ArmRotate | main.cpp:190 | the flag read back is 1 exactly when the packed byte is 128 or more, and 0 otherwise |
| Command.ArmRoundTrip | main.cpp:189-190 | for a servo byte up to 127, unpacking a packed byte gives back both the servo byte and the flag |
| Command.ArmUnpack | main.cpp:189-190 | for every servo byte, unpacking gives the low 7 bits, and the flag reads 1 when `rotate` is set or the servo byte is 128 or more |
| Command.ArmExamples | main.cpp:166 | rotate with servo 75 packs to 203 and unpacks to (75, 1); servo 128 without rotate packs to 128 and unpacks to (0, 1) |
| Command.ModeName | main.cpp:169-186 | every mode has a non-empty diagnostic name |
| Command.ModeNameInjective | main.cpp:169-186 | different modes have different names |
| Command.Next | main.cpp:143-159 | one iteration keeps the servo in range; it moves the servo by exactly the tick's step when the result lies in [0, 150] and leaves it where it was otherwise; the flag flips exactly when Circle is pushed |
| Command.Send | main.cpp:116-166 | x and y are 0 while Cross is held; otherwise each is the exact limited speed of its reading in the tick's mode, truncated toward zero, within that mode's limit; z is the selected vertical speed and never 0; the unpacked servo value is the new servo byte modulo 128, and the unpacked flag is set exactly when the new flag is set or the servo byte is 128 or more |
| Command.Run | main.cpp:116-197 | over any sequence of snapshots, the servo stays in range and one packet is sent per tick |
| Command.RunRotateParity | main.cpp:157-159 | after a sequence of ticks, the propeller flag is flipped exactly when Circle was pushed an odd number of times |
| Command.RunPacketAt | main.cpp:116-166 | the packet of tick k is `Send`'s packet from the state left by the first k ticks |
| Command.RunPacketsBounded | main.cpp:131-165 | every packet of a run carries its tick's selected z, which is never 0, and x and y within its tick's mode limit, which are 0 while Cross is held |
| Loop.Controller.constructor | main.cpp:94-101 | the loop starts with the servo at 75 and the propeller off |
| Loop.Controller.Step | main.cpp:116-166 | the imperative loop body updates the carried state as `Next` specifies and returns the packet `Send` specifies |
| Loop.Controller.RunLoop | main.cpp:116-197 | the `while` loop sends, in order, the packets `Run` specifies, and leaves the state `Run` specifies |

## Left out

- The controller SDK (`ps5::DualSense`, `Button`, `Axis`, `update`, `isConnected`, `pressed`, `pushed`) is a foreign library. Each poll becomes an `Inputs` value: level-triggered flags for held buttons, an edge flag for Circle, and two `int16` stick readings. Disconnection is the end of the input sequence.
- The UDP transport (`UDPSender`, `send`) is network I/O. The packet's byte layout, padding and endianness are not modelled either.
- The start-up connection check, the wait for Option before the loop, the Option exit at the end of each iteration, and `usleep(2500)` are loop lifecycle and timing, not command logic.
- The `cout` diagnostic line is console output. Only its mode names (`ModeName`) and its unpacking of `arm_state` (`ArmServo`, `ArmRotate`) are modelled.
- Servo.SetServoValue: the position is an exact real, so repeated `float` additions of 0.15 do not drift. Going up from 75, the exact model reaches 150.0 after 500 steps and byte 150. The line-65 test rejects every candidate above 150, so the `float` source never passes 150. Its sum of 500 steps of `0.15f` is just below 150, which gives byte 149. Going down, the exact model reaches 0.0 after 500 steps, while the `float` source stops just above 0 (about 0.1496 after 499 steps). Both give byte 0 there.
- Speed.SetSpeed: `ratio` is modelled as -1 or 1 only. The program passes -1.0 for both axes; 1 is included so that the uninverted case is stated too. A general `float` ratio would need floating-point rounding, which is not modelled.
- Servo.ServoByte: requires a position in [0, 256), where the C++ cast is defined. The accumulator keeps the position in [0, 150].
- A `HandleMode` outside the four named values cannot occur in the model, because the modes form a closed datatype.
