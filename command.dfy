/**
 * One iteration of the control loop: the controller snapshot and the carried
 * state (servo position, propeller flag) give the next state (`Next`) and
 * the packet to send (`Send`). `Run` repeats them over a sequence of
 * snapshots.
 */
module Command {
  import opened Types
  import opened Speed
  import opened Servo

  /** What one poll of the controller reports. Every flag but `propellerPushed`
      is level-triggered ("held"); `propellerPushed` is the rising edge of the
      Circle button. */
  datatype Inputs = Inputs(
    stop: bool,             // Cross held
    brake: bool,            // L2 held
    accel: bool,            // R2 held
    up: bool,               // D-pad up held
    down: bool,             // D-pad down held
    servoCw: bool,          // R1 held
    servoCcw: bool,         // L1 held
    propellerPushed: bool,  // Circle pushed this tick
    x: int16,               // left stick, horizontal
    y: int16)               // left stick, vertical

  /** The state carried from one tick to the next. */
  datatype State = State(servoArg: real, rotate: bool)

  /** The state before the first tick. */
  const Initial: State := State(ARG_INITIAL, false)

  /** The mode of a tick: Stop over Slow (brake) over High (accelerate) over Normal. */
  function SelectMode(inp: Inputs): (m: HandleMode)
    ensures m == Stop <==> inp.stop
    ensures m == Slow <==> !inp.stop && inp.brake
    ensures m == High <==> !inp.stop && !inp.brake && inp.accel
    ensures m == Normal <==> !inp.stop && !inp.brake && !inp.accel
  {
    if inp.stop then Stop
    else if inp.brake then Slow
    else if inp.accel then High
    else Normal
  }

  /** The vertical speed: up over down, and a small brake value when neither
      is held, never zero. */
  function SelectZ(inp: Inputs): (z: int16)
    ensures z == UP_SPEED <==> inp.up
    ensures z == DOWN_SPEED <==> !inp.up && inp.down
    ensures z == Z_BRAKE_SPEED <==> !inp.up && !inp.down
    ensures z != 0
  {
    if inp.up then UP_SPEED
    else if inp.down then DOWN_SPEED
    else Z_BRAKE_SPEED
  }

  /** The servo step: clockwise over counter-clockwise, else none. */
  function ServoDiff(inp: Inputs): (d: real)
    ensures d > 0.0 <==> inp.servoCw
    ensures d < 0.0 <==> !inp.servoCw && inp.servoCcw
    ensures d == 0.0 || d == ARG_DIFF || d == -ARG_DIFF
  {
    if inp.servoCw then ARG_DIFF
    else if inp.servoCcw then -ARG_DIFF
    else 0.0
  }

  /** `(rotate << 7) | servo_data`. The servo byte is not masked to 7 bits. */
  function PackArm(rotate: bool, servoData: uint8): (a: uint8)
    ensures rotate ==> a == if servoData >= 0x80 then servoData else servoData + 0x80
    ensures !rotate ==> a == servoData
  {
    BitOrHighBit(7, servoData);
    assert ShiftLeft(1, 7) == Pow2(7) && ShiftLeft(0, 7) == 0;
    BitOr(ShiftLeft(if rotate then 1 else 0, 7), servoData)
  }

  /** The servo value the diagnostic line reads back: `arm_state & 0x7f`. */
  function ArmServo(a: uint8): (s: uint8)
    ensures s == a % 0x80
  {
    BitAndLowMask(a, 7);
    LowSevenBits(a);
    BitAnd(a, 0x7F)
  }

  /** The propeller flag the diagnostic line reads back: `arm_state >> 7 & 1`. */
  function ArmRotate(a: uint8): (r: uint8)
    ensures r == if a >= 0x80 then 1 else 0
  {
    ShiftRightSeven(a);
    BitAndLowMask(ShiftRight(a, 7), 1);
    BitAnd(ShiftRight(a, 7), 1)
  }

  /** For a servo byte that fits in 7 bits, unpacking recovers both fields. */
  lemma ArmRoundTrip(rotate: bool, servoData: uint8)
    requires servoData < 0x80
    ensures ArmServo(PackArm(rotate, servoData)) == servoData
    ensures ArmRotate(PackArm(rotate, servoData)) == (if rotate then 1 else 0)
  {
    ArmUnpack(rotate, servoData);
    ModUnique(servoData, 0x80, 0, servoData);
  }

  /** For the whole byte range, unpacking gives the low 7 bits, and the flag
      reads as set whenever the servo byte is 128 or more, whatever `rotate` is. */
  lemma ArmUnpack(rotate: bool, servoData: uint8)
    ensures ArmServo(PackArm(rotate, servoData)) == servoData % 0x80
    ensures ArmRotate(PackArm(rotate, servoData)) == (if rotate || servoData >= 0x80 then 1 else 0)
  {
    var a := PackArm(rotate, servoData);
    assert ArmServo(a) == a % 0x80;
    assert ArmRotate(a) == if a >= 0x80 then 1 else 0;
    if rotate && servoData < 0x80 {
      assert a == servoData + 0x80;
      ModUnique(a, 0x80, 1, servoData);
      ModUnique(servoData, 0x80, 0, servoData);
    } else {
      assert a == servoData;
    }
  }

  /** The packing, with `rotate` set, at the initial servo value, and the
      collision reached by servo positions from 128 to 150. */
  lemma ArmExamples()
    ensures PackArm(true, 75) == 203 && ArmServo(203) == 75 && ArmRotate(203) == 1
    ensures PackArm(false, 128) == 128 && ArmServo(128) == 0 && ArmRotate(128) == 1
    ensures ServoByte(128.0) == 128 && ServoByte(ARG_MAX) == 150
  {
  }

  /** The mode name shown on the diagnostic line. */
  function ModeName(m: HandleMode): (name: string)
    ensures |name| > 0
  {
    match m
    case Normal => "normal"
    case High => "high"
    case Slow => "slow"
    case Stop => "stop"
  }

  /** Different modes print different names. */
  lemma ModeNameInjective(m1: HandleMode, m2: HandleMode)
    ensures ModeName(m1) == ModeName(m2) ==> m1 == m2
  {
  }

  /** The state one tick leaves behind: the servo moved by the tick's step
      when that stays in bounds, and the propeller flag toggled on a Circle push. */
  function Next(s: State, inp: Inputs): (n: State)
    requires InRange(s.servoArg)
    ensures InRange(n.servoArg)
    ensures InRange(s.servoArg + ServoDiff(inp)) ==> n.servoArg == s.servoArg + ServoDiff(inp)
    ensures !InRange(s.servoArg + ServoDiff(inp)) ==> n.servoArg == s.servoArg
    ensures n.rotate == (s.rotate != inp.propellerPushed)
  {
    var servoArg := SetServoValue(s.servoArg, ServoDiff(inp));
    var rotate := if inp.propellerPushed then !s.rotate else s.rotate;
    State(servoArg, rotate)
  }

  /** The packet one tick sends from state `s`: the stick speeds limited by
      the tick's mode, the selected vertical speed, and the arm byte. The arm
      byte is built from the state after the tick, since the source updates
      the servo and the flag before it fills the packet. */
  function Send(s: State, inp: Inputs): (p: EthTxData)
    requires InRange(s.servoArg)
    ensures ArmServo(p.armState) == ServoByte(Next(s, inp).servoArg) % 0x80
    ensures ArmRotate(p.armState) == 1 <==> Next(s, inp).rotate || ServoByte(Next(s, inp).servoArg) >= 0x80
    ensures p.zSpeed == SelectZ(inp) && p.zSpeed != 0
    ensures inp.stop ==> p.xSpeed == 0 && p.ySpeed == 0
    ensures !inp.stop ==> IsTruncation(ExactSpeed(inp.x, SelectMode(inp), X_RATIO), p.xSpeed)
    ensures !inp.stop ==> IsTruncation(ExactSpeed(inp.y, SelectMode(inp), Y_RATIO), p.ySpeed)
    ensures !inp.stop ==> -Limit(SelectMode(inp)) <= p.xSpeed <= Limit(SelectMode(inp))
    ensures !inp.stop ==> -Limit(SelectMode(inp)) <= p.ySpeed <= Limit(SelectMode(inp))
    ensures -HIGH_SPEED_LIMIT <= p.xSpeed <= HIGH_SPEED_LIMIT
    ensures -HIGH_SPEED_LIMIT <= p.ySpeed <= HIGH_SPEED_LIMIT
  {
    var mode := SelectMode(inp);
    var after := Next(s, inp);
    var servoData := ServoByte(after.servoArg);
    ArmUnpack(after.rotate, servoData);
    EthTxData(
      SetSpeed(inp.x, mode, X_RATIO),
      SetSpeed(inp.y, mode, Y_RATIO),
      SelectZ(inp),
      PackArm(after.rotate, servoData))
  }

  /** The state after, and the packets sent over, a sequence of ticks. */
  function Run(s: State, inputs: seq<Inputs>): (r: (State, seq<EthTxData>))
    requires InRange(s.servoArg)
    ensures InRange(r.0.servoArg)
    ensures |r.1| == |inputs|
    decreases |inputs|
  {
    if inputs == [] then (s, [])
    else
      var before := Run(s, inputs[..|inputs| - 1]);
      var last := inputs[|inputs| - 1];
      (Next(before.0, last), before.1 + [Send(before.0, last)])
  }

  /** How many ticks saw the Circle button pushed. */
  function Pushes(inputs: seq<Inputs>): (n: nat)
    ensures n <= |inputs|
  {
    if inputs == [] then 0
    else Pushes(inputs[..|inputs| - 1]) + (if inputs[|inputs| - 1].propellerPushed then 1 else 0)
  }

  /** The propeller flag ends up flipped exactly when Circle was pushed an odd
      number of times. */
  lemma {:induction false} RunRotateParity(s: State, inputs: seq<Inputs>)
    requires InRange(s.servoArg)
    ensures Run(s, inputs).0.rotate == (s.rotate != (Pushes(inputs) % 2 == 1))
    decreases |inputs|
  {
    if inputs != [] {
      var prefix, last := inputs[..|inputs| - 1], inputs[|inputs| - 1];
      RunRotateParity(s, prefix);
      RunSnoc(s, inputs);
      ParityStep(s.rotate, Pushes(prefix), last.propellerPushed);
    }
  }

  /** Toggling a flag that tracks the parity of a counter, as the counter grows. */
  lemma ParityStep(start: bool, n: nat, pushed: bool)
    ensures ((start != (n % 2 == 1)) != pushed)
         == (start != ((n + if pushed then 1 else 0) % 2 == 1))
  {
  }

  /** One more tick appends one packet and leaves the state `Next` gives. */
  lemma RunSnoc(s: State, inputs: seq<Inputs>)
    requires InRange(s.servoArg) && inputs != []
    ensures Run(s, inputs).0 == Next(Run(s, inputs[..|inputs| - 1]).0, inputs[|inputs| - 1])
    ensures Run(s, inputs).1 == Run(s, inputs[..|inputs| - 1]).1 + [Send(Run(s, inputs[..|inputs| - 1]).0, inputs[|inputs| - 1])]
  {
  }

  /** The packet of tick `k` is what `Send` builds from the state the first
      `k` ticks leave behind. */
  lemma {:induction false} RunPacketAt(s: State, inputs: seq<Inputs>, k: nat)
    requires InRange(s.servoArg) && k < |inputs|
    ensures Run(s, inputs).1[k] == Send(Run(s, inputs[..k]).0, inputs[k])
    decreases |inputs|
  {
    var n := |inputs| - 1;
    var prefix := inputs[..n];
    RunSnoc(s, inputs);
    if k < n {
      RunPacketAt(s, prefix, k);
      assert prefix[..k] == inputs[..k];
    } else {
      assert prefix == inputs[..k];
    }
  }

  /** Every packet of a run carries the selected, non-zero vertical speed and
      horizontal speeds within the tick's limit (so within the largest one),
      zero while Stop is held. */
  lemma RunPacketsBounded(s: State, inputs: seq<Inputs>, k: nat)
    requires InRange(s.servoArg) && k < |inputs|
    ensures Run(s, inputs).1[k].zSpeed == SelectZ(inputs[k]) && Run(s, inputs).1[k].zSpeed != 0
    ensures !inputs[k].stop ==> -Limit(SelectMode(inputs[k])) <= Run(s, inputs).1[k].xSpeed <= Limit(SelectMode(inputs[k]))
    ensures !inputs[k].stop ==> -Limit(SelectMode(inputs[k])) <= Run(s, inputs).1[k].ySpeed <= Limit(SelectMode(inputs[k]))
    ensures -HIGH_SPEED_LIMIT <= Run(s, inputs).1[k].xSpeed <= HIGH_SPEED_LIMIT
    ensures -HIGH_SPEED_LIMIT <= Run(s, inputs).1[k].ySpeed <= HIGH_SPEED_LIMIT
    ensures inputs[k].stop ==> Run(s, inputs).1[k].xSpeed == 0 && Run(s, inputs).1[k].ySpeed == 0
  {
    RunPacketAt(s, inputs, k);
  }
}
