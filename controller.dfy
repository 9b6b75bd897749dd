/**
 * The control loop of `main` as imperative code: an object holding the two
 * values carried across iterations, a `Step` that runs one iteration's body
 * and a `RunLoop` that repeats it while the controller stays connected. The
 * snapshots the controller would deliver are given as a sequence; the loop
 * ends when it is exhausted (the controller disconnects).
 */
module Loop {
  import opened Types
  import opened Speed
  import opened Servo
  import opened Command

  class Controller {
    var servoArg: real
    var rotate: bool

    ghost predicate Valid()
      reads this
    {
      InRange(servoArg)
    }

    /** The carried state as a value. */
    function Current(): State
      reads this
    {
      State(servoArg, rotate)
    }

    /** The state before the loop starts: servo at its midpoint, propeller off. */
    constructor ()
      ensures Valid() && Current() == Initial
    {
      servoArg := ARG_INITIAL;
      rotate := false;
    }

    /** One iteration of the loop body: derive the packet from the snapshot
        and update the carried state in place. */
    method Step(inp: Inputs) returns (tx: EthTxData)
      requires Valid()
      modifies this
      ensures Valid()
      ensures Current() == Next(old(Current()), inp)
      ensures tx == Send(old(Current()), inp)
    {
      var mode: HandleMode;
      if inp.stop {
        mode := Stop;
      } else if inp.brake {
        mode := Slow;
      } else if inp.accel {
        mode := High;
      } else {
        mode := Normal;
      }

      var zData: int16;
      if inp.up {
        zData := UP_SPEED;
      } else if inp.down {
        zData := DOWN_SPEED;
      } else {
        zData := Z_BRAKE_SPEED;
      }

      var diff: real;
      if inp.servoCw {
        diff := ARG_DIFF;
      } else if inp.servoCcw {
        diff := -ARG_DIFF;
      } else {
        diff := 0.0;
      }

      assert mode == SelectMode(inp) && zData == SelectZ(inp) && diff == ServoDiff(inp);
      servoArg := SetServoValue(servoArg, diff);
      var servoData := ServoByte(servoArg);

      if inp.propellerPushed {
        rotate := !rotate;
      }

      tx := EthTxData(
        SetSpeed(inp.x, mode, X_RATIO),
        SetSpeed(inp.y, mode, Y_RATIO),
        zData,
        PackArm(rotate, servoData));
    }

    /** The `while (ps5.isConnected())` loop: one packet per snapshot, in order. */
    method RunLoop(inputs: seq<Inputs>) returns (sent: seq<EthTxData>)
      requires Valid()
      modifies this
      ensures Valid()
      ensures (Current(), sent) == Run(old(Current()), inputs)
    {
      ghost var start := Current();
      sent := [];
      var i := 0;
      while i < |inputs|
        invariant 0 <= i <= |inputs|
        invariant Valid()
        invariant (Current(), sent) == Run(start, inputs[..i])
      {
        assert inputs[..i + 1][..i] == inputs[..i];
        var tx := Step(inputs[i]);
        sent := sent + [tx];
        i := i + 1;
      }
      assert inputs[..i] == inputs;
    }
  }
}
