/**
 * The motor controller's operations with its lock taken into account. The
 * lock is a plain non-reentrant mutex: a caller that finds it taken waits
 * until it is released, and a holder that takes it again waits for ever. The
 * web server handles each request in a thread of its own, so a call that
 * never returns leaves the lock taken for every later request.
 */
module MotorLock {
  import opened Motor

  /** The controller's mutex as the next caller finds it: free, or taken by a call that never returned. */
  datatype Lock = Free | Held

  /** The controller together with the state of its lock. */
  datatype Rover = Rover(c: Controller, lock: Lock)

  /** How a call ends for its caller: it returns, or it never does; either way, the rover it leaves. */
  datatype Outcome = Returned(after: Rover) | Hangs(after: Rover)

  /** Leaving `with self._lock:`: a body that returned releases the lock; one that hangs keeps it. */
  function Release(o: Outcome): Outcome {
    match o
    case Returned(r) => Returned(r.(lock := Free))
    case Hangs(r) => Hangs(r)
  }

  /** `_set_motors` as written: it takes the lock before touching any output. */
  function SetMotorsAsWritten(r: Rover, leftSpeed: int, rightSpeed: int, leftDir: Dir, rightDir: Dir): Outcome {
    if r.lock == Held then Hangs(r)
    else Returned(Rover(r.c.(hw := SetMotors(leftSpeed, rightSpeed, leftDir, rightDir)), Free))
  }

  /**
   * `forward`, `backward`, `left` and `right` as written: `_set_motors` with
   * the movement's wheels and speed from outside the lock, then the action.
   */
  function MoveAsWritten(r: Rover, a: Action): Outcome {
    var speed := if a == Forward || a == Backward then r.c.currentSpeed else r.c.turnSpeed;
    match SetMotorsAsWritten(r, speed, speed, Wheels(a).0, Wheels(a).1)
    case Hangs(h) => Hangs(h)
    case Returned(d) => Returned(d.(c := d.c.(action := a)))
  }

  /** `stop` as written: the duty cycles and the action, all under the lock. */
  function StopAsWritten(r: Rover): Outcome {
    if r.lock == Held then Hangs(r)
    else Returned(Rover(r.c.(hw := r.c.hw.(dutyA := 0, dutyB := 0), action := Idle), Free))
  }

  /**
   * `set_speed` as written: it takes the lock, stores the clamped speed, and
   * while moving calls `_set_motors`, which takes the lock a second time.
   */
  function SetSpeedAsWritten(r: Rover, speed: int): Outcome {
    if r.lock == Held then Hangs(r)
    else
      var c := r.c.(currentSpeed := Clamp(speed));
      var inside := Rover(c, Held);
      Release(
        if c.action == Forward || c.action == Backward then
          var d := if c.action == Forward then Ahead else Astern;
          SetMotorsAsWritten(inside, c.currentSpeed, c.currentSpeed, d, d)
        else if c.action == Left || c.action == Right then
          SetMotorsAsWritten(inside, c.turnSpeed, c.turnSpeed,
                             if c.action == Left then Astern else Ahead,
                             if c.action == Left then Ahead else Astern)
        else
          Returned(inside))
  }

  /** One request as the written code handles it. */
  function CallAsWritten(r: Rover, cmd: Command): Outcome {
    match cmd
    case Go(Idle) => StopAsWritten(r)
    case Go(a) => MoveAsWritten(r, a)
    case SetSpeedTo(speed) => SetSpeedAsWritten(r, speed)
  }

  /** The rover after a sequence of requests, and which of them returned to their callers. */
  datatype Trace = Trace(after: Rover, returned: seq<bool>)

  /** Requests handled one after another, each in its own thread, as the written code handles them. */
  function RunAsWritten(r: Rover, cmds: seq<Command>): Trace
    decreases |cmds|
  {
    if cmds == [] then Trace(r, [])
    else
      var o := CallAsWritten(r, cmds[0]);
      var t := RunAsWritten(o.after, cmds[1..]);
      Trace(t.after, [o.Returned?] + t.returned)
  }

  /** The intended run never asks for a new speed while the rover is moving. */
  predicate Calm(c: Controller, cmds: seq<Command>)
    decreases |cmds|
  {
    cmds == [] || (!(cmds[0].SetSpeedTo? && c.action != Idle) && Calm(Apply(c, cmds[0]), cmds[1..]))
  }

  /**
   * With the lock free, every request except a speed change while moving
   * returns, releases the lock and does what the sequential model says.
   */
  lemma CallMatchesIntended(r: Rover, cmd: Command)
    requires r.lock == Free
    requires cmd.SetSpeedTo? ==> r.c.action == Idle
    ensures CallAsWritten(r, cmd) == Returned(Rover(Apply(r.c, cmd), Free))
  {
    match cmd
    case Go(Idle) =>
    case Go(Forward) =>
    case Go(Backward) =>
    case Go(Left) =>
    case Go(Right) =>
    case SetSpeedTo(speed) =>
  }

  /** A request that finds the lock taken never returns and changes nothing. */
  lemma HeldBlocks(r: Rover, cmd: Command)
    requires r.lock == Held
    ensures CallAsWritten(r, cmd) == Hangs(r)
  {
  }

  /**
   * With the lock free, `set_speed` as written hangs exactly when the rover is
   * moving; it has then stored the new speed and keeps the lock for ever.
   * Standing still, it does what the intended `set_speed` does.
   */
  lemma SetSpeedHangsIffMoving(r: Rover, speed: int)
    requires r.lock == Free
    ensures CallAsWritten(r, SetSpeedTo(speed)).Hangs? <==> r.c.action != Idle
    ensures r.c.action != Idle ==>
              CallAsWritten(r, SetSpeedTo(speed)).after == Rover(r.c.(currentSpeed := Clamp(speed)), Held)
    ensures r.c.action == Idle ==>
              CallAsWritten(r, SetSpeedTo(speed)) == Returned(Rover(SetSpeed(r.c, speed), Free))
  {
  }

  /** Once the lock is left taken, no later request returns and nothing changes any more. */
  lemma {:induction false} StuckForever(r: Rover, cmds: seq<Command>)
    requires r.lock == Held
    ensures RunAsWritten(r, cmds).after == r
    ensures |RunAsWritten(r, cmds).returned| == |cmds| && true !in RunAsWritten(r, cmds).returned
    decreases |cmds|
  {
    if cmds != [] {
      HeldBlocks(r, cmds[0]);
      StuckForever(r, cmds[1..]);
    }
  }

  /**
   * From a free lock, every request returns exactly when the intended run never
   * changes the speed while moving, and then the written code ends where the
   * sequential model does.
   */
  lemma {:induction false} WrittenRunAgrees(c: Controller, cmds: seq<Command>)
    ensures false !in RunAsWritten(Rover(c, Free), cmds).returned <==> Calm(c, cmds)
    ensures Calm(c, cmds) ==> RunAsWritten(Rover(c, Free), cmds).after == Rover(Run(c, cmds), Free)
    decreases |cmds|
  {
    if cmds != [] {
      var r := Rover(c, Free);
      var t := RunAsWritten(r, cmds);
      if cmds[0].SetSpeedTo? && c.action != Idle {
        SetSpeedHangsIffMoving(r, cmds[0].speed);
        assert t.returned[0] == false;
      } else {
        CallMatchesIntended(r, cmds[0]);
        WrittenRunAgrees(Apply(c, cmds[0]), cmds[1..]);
        assert t.returned == [true] + RunAsWritten(Rover(Apply(c, cmds[0]), Free), cmds[1..]).returned;
      }
    }
  }

  /**
   * The concrete run that shows it: from start-up, drive forward, move the
   * speed slider to 50, then press stop. As written, `set_speed` never
   * returns, `stop` never returns either, and the rover keeps driving forward
   * at duty 70; as intended, it ends standing still with both duty cycles 0.
   */
  lemma SpeedChangeWhileDriving(boot: Pins)
    ensures
      var cmds := [Go(Forward), SetSpeedTo(50), Go(Idle)];
      var t := RunAsWritten(Rover(Init(boot), Free), cmds);
      && t.returned == [true, false, false]
      && t.after.c.action == Forward && t.after.c.hw.dutyA == 70 && t.after.c.hw.dutyB == 70
      && Run(Init(boot), cmds).action == Idle
      && Run(Init(boot), cmds).hw.dutyA == 0 && Run(Init(boot), cmds).hw.dutyB == 0
  {
    var r := Rover(Init(boot), Free);
    var cmds := [Go(Forward), SetSpeedTo(50), Go(Idle)];
    CallMatchesIntended(r, Go(Forward));
    var moving := Rover(GoForward(Init(boot)), Free);
    SetSpeedHangsIffMoving(moving, 50);
    var stuck := Rover(GoForward(Init(boot)).(currentSpeed := 50), Held);
    StuckForever(stuck, [Go(Idle)]);
    assert cmds[1..] == [SetSpeedTo(50), Go(Idle)];
    assert cmds[1..][1..] == [Go(Idle)];
  }
}
