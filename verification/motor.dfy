/**
 * The motor controller of the rover: two DC motors behind an H-bridge, each
 * with two direction pins and a PWM duty cycle, driven by five movement
 * commands and a speed setting. The model gives the sequential meaning of
 * every operation as a pure transition on an immutable record that holds the
 * controller's fields and an image of the six hardware outputs.
 */
module Motor {
  import opened Bytes

  /** A GPIO output level. */
  datatype Level = Low | High

  /** `current_action`: None (standing still) or the last movement command. */
  datatype Action = Idle | Forward | Backward | Left | Right

  /**
   * A direction argument of `_set_motors`: 'forward', 'backward', or any other
   * value, which leaves both pins of the channel low.
   */
  datatype Dir = Ahead | Astern | Coast

  /** The speed for driving straight until `set_speed` is called, in percent. */
  const DefaultSpeed: int := 70
  /** The speed for turning on the spot, in percent; nothing ever changes it. */
  const TurnSpeed: int := 40

  /** The four direction pins: IN1 and IN2 of the right motor, IN3 and IN4 of the left. */
  datatype Pins = Pins(in1: Level, in2: Level, in3: Level, in4: Level)

  /**
   * The six outputs: the direction pins, the duty cycle of `pwm_a` on ENA
   * (right motor) and that of `pwm_b` on ENB (left motor).
   */
  datatype Hardware = Hardware(pins: Pins, dutyA: int, dutyB: int)

  /** The fields of a `MotorController` together with the outputs it drives. */
  datatype Controller = Controller(action: Action, currentSpeed: int, turnSpeed: int, hw: Hardware)

  /**
   * What one H-bridge channel does, given the level of the pin that drives it
   * ahead and the level of the pin that drives it astern; both pins high is a
   * state the controller must never produce.
   */
  function Bridge(ahead: Level, astern: Level): Option<Dir> {
    match ahead
    case High => if astern == Low then Some(Ahead) else None
    case Low => if astern == High then Some(Astern) else Some(Coast)
  }

  /** The right motor is wired straight: IN1 drives it ahead, IN2 astern. */
  function RightWheel(p: Pins): Option<Dir> {
    Bridge(p.in1, p.in2)
  }

  /** The left motor is wired the other way round: IN4 drives it ahead, IN3 astern. */
  function LeftWheel(p: Pins): Option<Dir> {
    Bridge(p.in4, p.in3)
  }

  /** Neither channel has both of its pins high. */
  predicate Safe(p: Pins) {
    LeftWheel(p).Some? && RightWheel(p).Some?
  }

  /** A channel's two levels are the only ones that make it do what it does. */
  lemma BridgeDetermines(a: Level, b: Level, a': Level, b': Level)
    requires Bridge(a, b).Some? && Bridge(a, b) == Bridge(a', b')
    ensures a == a' && b == b'
  {
  }

  /**
   * `_set_motors`: write the left channel with inverted polarity and its duty
   * cycle, then the right channel and its duty cycle. Both wheels then turn as
   * asked, whatever the pins held before, and each duty cycle is its speed.
   */
  function SetMotors(leftSpeed: int, rightSpeed: int, leftDir: Dir, rightDir: Dir): (hw: Hardware)
    ensures LeftWheel(hw.pins) == Some(leftDir) && RightWheel(hw.pins) == Some(rightDir)
    ensures hw.dutyB == leftSpeed && hw.dutyA == rightSpeed
  {
    var left :=
      match leftDir
      case Ahead => (Low, High)
      case Astern => (High, Low)
      case Coast => (Low, Low);
    var in1 := if rightDir == Ahead then High else Low;
    var in2 := if rightDir == Astern then High else Low;
    assert rightDir.Coast? ==> in1 == Low && in2 == Low;
    Hardware(Pins(in1, in2, left.0, left.1), rightSpeed, leftSpeed)
  }

  /**
   * The controller after `__init__`: both PWM channels started at duty 0, no
   * action, the default and turning speeds. Setting the pins up as outputs
   * writes no level, so the direction pins keep whatever `boot` they had.
   */
  function Init(boot: Pins): Controller {
    Controller(Idle, DefaultSpeed, TurnSpeed, Hardware(boot, 0, 0))
  }

  /** The left and right wheel directions each movement stands for. */
  function Wheels(a: Action): (Dir, Dir) {
    match a
    case Idle => (Coast, Coast)
    case Forward => (Ahead, Ahead)
    case Backward => (Astern, Astern)
    case Left => (Astern, Ahead)
    case Right => (Ahead, Astern)
  }

  /** The duty cycle each action stands for: driving straight, turning, or none. */
  function Duty(a: Action, currentSpeed: int, turnSpeed: int): int {
    match a
    case Idle => 0
    case Forward => currentSpeed
    case Backward => currentSpeed
    case Left => turnSpeed
    case Right => turnSpeed
  }

  /** The outputs show the movement `a` at duty `duty` on both channels. */
  predicate Shows(hw: Hardware, a: Action, duty: int) {
    && LeftWheel(hw.pins) == Some(Wheels(a).0)
    && RightWheel(hw.pins) == Some(Wheels(a).1)
    && hw.dutyA == duty && hw.dutyB == duty
  }

  /**
   * The controller's invariant: the speed is a percentage, the turning speed
   * is the constant, both duty cycles are the action's duty, and while moving
   * the wheels turn as the action says.
   */
  predicate Consistent(c: Controller) {
    && 0 <= c.currentSpeed <= 100
    && c.turnSpeed == TurnSpeed
    && c.hw.dutyA == Duty(c.action, c.currentSpeed, c.turnSpeed)
    && c.hw.dutyB == Duty(c.action, c.currentSpeed, c.turnSpeed)
    && (c.action != Idle ==> Shows(c.hw, c.action, Duty(c.action, c.currentSpeed, c.turnSpeed)))
  }

  /** `forward`: both wheels ahead at the current speed. */
  function GoForward(c: Controller): (r: Controller)
    ensures r.action == Forward && Shows(r.hw, Forward, c.currentSpeed)
    ensures r.currentSpeed == c.currentSpeed && r.turnSpeed == c.turnSpeed
  {
    c.(hw := SetMotors(c.currentSpeed, c.currentSpeed, Ahead, Ahead), action := Forward)
  }

  /** `backward`: both wheels astern at the current speed. */
  function GoBackward(c: Controller): (r: Controller)
    ensures r.action == Backward && Shows(r.hw, Backward, c.currentSpeed)
    ensures r.currentSpeed == c.currentSpeed && r.turnSpeed == c.turnSpeed
  {
    c.(hw := SetMotors(c.currentSpeed, c.currentSpeed, Astern, Astern), action := Backward)
  }

  /** `left`: turn on the spot, left wheel astern and right wheel ahead, at the turning speed. */
  function GoLeft(c: Controller): (r: Controller)
    ensures r.action == Left && Shows(r.hw, Left, c.turnSpeed)
    ensures r.currentSpeed == c.currentSpeed && r.turnSpeed == c.turnSpeed
  {
    c.(hw := SetMotors(c.turnSpeed, c.turnSpeed, Astern, Ahead), action := Left)
  }

  /** `right`: turn on the spot, left wheel ahead and right wheel astern, at the turning speed. */
  function GoRight(c: Controller): (r: Controller)
    ensures r.action == Right && Shows(r.hw, Right, c.turnSpeed)
    ensures r.currentSpeed == c.currentSpeed && r.turnSpeed == c.turnSpeed
  {
    c.(hw := SetMotors(c.turnSpeed, c.turnSpeed, Ahead, Astern), action := Right)
  }

  /** `stop`: both duty cycles to 0 and no action; the direction pins keep their levels. */
  function Stop(c: Controller): (r: Controller)
    ensures r.action == Idle && r.hw.dutyA == 0 && r.hw.dutyB == 0
    ensures r.hw.pins == c.hw.pins
    ensures r.currentSpeed == c.currentSpeed && r.turnSpeed == c.turnSpeed
  {
    c.(hw := c.hw.(dutyA := 0, dutyB := 0), action := Idle)
  }

  /** Stopping twice is stopping once. */
  lemma StopIdempotent(c: Controller)
    ensures Stop(Stop(c)) == Stop(c)
  {
  }

  /** `max(0, min(100, speed))`: the nearest percentage. */
  function Clamp(speed: int): (r: int)
    ensures 0 <= r <= 100
    ensures 0 <= speed <= 100 ==> r == speed
    ensures speed < 0 ==> r == 0
    ensures speed > 100 ==> r == 100
  {
    var capped := if 100 <= speed then 100 else speed;
    if capped < 0 then 0 else capped
  }

  /**
   * `set_speed`: store the clamped speed; then, while driving straight,
   * re-apply the straight movement at the new speed, and while turning,
   * re-apply the turn at the turning speed.
   */
  function SetSpeed(c: Controller, speed: int): (r: Controller)
    ensures r.currentSpeed == Clamp(speed)
    ensures r.action == c.action && r.turnSpeed == c.turnSpeed
    ensures c.action == Idle ==> r.hw == c.hw
    ensures c.action != Idle ==> Shows(r.hw, c.action, Duty(c.action, r.currentSpeed, c.turnSpeed))
  {
    var c := c.(currentSpeed := Clamp(speed));
    if c.action == Forward || c.action == Backward then
      var d := if c.action == Forward then Ahead else Astern;
      c.(hw := SetMotors(c.currentSpeed, c.currentSpeed, d, d))
    else if c.action == Left || c.action == Right then
      c.(hw := SetMotors(c.turnSpeed, c.turnSpeed,
                         if c.action == Left then Astern else Ahead,
                         if c.action == Left then Ahead else Astern))
    else
      c
  }

  /**
   * Changing the speed while moving keeps every direction pin where it was:
   * only the duty cycles change.
   */
  lemma SetSpeedKeepsDirection(c: Controller, speed: int)
    requires Consistent(c) && c.action != Idle
    ensures SetSpeed(c, speed).hw.pins == c.hw.pins
  {
    var p := c.hw.pins;
    var q := SetSpeed(c, speed).hw.pins;
    BridgeDetermines(p.in1, p.in2, q.in1, q.in2);
    BridgeDetermines(p.in4, p.in3, q.in4, q.in3);
  }

  /** A request from the web page: a movement (`Idle` for 'stop') or a new speed. */
  datatype Command = Go(action: Action) | SetSpeedTo(speed: int)

  /** The controller after one request. */
  function Apply(c: Controller, cmd: Command): Controller {
    match cmd
    case Go(Idle) => Stop(c)
    case Go(Forward) => GoForward(c)
    case Go(Backward) => GoBackward(c)
    case Go(Left) => GoLeft(c)
    case Go(Right) => GoRight(c)
    case SetSpeedTo(speed) => SetSpeed(c, speed)
  }

  /** The controller after a sequence of requests, handled one after another. */
  function Run(c: Controller, cmds: seq<Command>): Controller
    decreases |cmds|
  {
    if cmds == [] then c else Run(Apply(c, cmds[0]), cmds[1..])
  }

  /** The controller starts consistent: no action, both duty cycles 0, speed 70, turning speed 40. */
  lemma InitConsistent(boot: Pins)
    ensures Consistent(Init(boot))
    ensures Init(boot).action == Idle && Init(boot).hw.dutyA == 0 && Init(boot).hw.dutyB == 0
    ensures Init(boot).currentSpeed == DefaultSpeed == 70 && Init(boot).turnSpeed == TurnSpeed == 40
  {
  }

  /** Every request keeps the controller consistent. */
  lemma ApplyKeepsConsistent(c: Controller, cmd: Command)
    requires Consistent(c)
    ensures Consistent(Apply(c, cmd))
  {
  }

  /** Any sequence of requests keeps the controller consistent. */
  lemma {:induction false} RunKeepsConsistent(c: Controller, cmds: seq<Command>)
    requires Consistent(c)
    ensures Consistent(Run(c, cmds))
    decreases |cmds|
  {
    if cmds != [] {
      ApplyKeepsConsistent(c, cmds[0]);
      RunKeepsConsistent(Apply(c, cmds[0]), cmds[1..]);
    }
  }

  /**
   * After any requests from start-up, both duty cycles are the current speed
   * while driving straight, the turning speed while turning, and 0 while
   * standing still, and they always lie in 0..100.
   */
  lemma Reachable(boot: Pins, cmds: seq<Command>)
    ensures
      var c := Run(Init(boot), cmds);
      && c.hw.dutyA == c.hw.dutyB
      && (c.action == Forward || c.action == Backward ==> c.hw.dutyA == c.currentSpeed)
      && (c.action == Left || c.action == Right ==> c.hw.dutyA == TurnSpeed)
      && (c.action == Idle ==> c.hw.dutyA == 0)
      && 0 <= c.hw.dutyA <= 100
  {
    InitConsistent(boot);
    RunKeepsConsistent(Init(boot), cmds);
  }

  /** Every request keeps the direction pins safe. */
  lemma ApplyKeepsSafe(c: Controller, cmd: Command)
    requires Safe(c.hw.pins)
    ensures Safe(Apply(c, cmd).hw.pins)
  {
  }

  /**
   * Once safe, the direction pins stay safe: no request ever drives both pins
   * of a channel high.
   */
  lemma {:induction false} RunKeepsSafe(c: Controller, cmds: seq<Command>)
    requires Safe(c.hw.pins)
    ensures Safe(Run(c, cmds).hw.pins)
    decreases |cmds|
  {
    if cmds != [] {
      ApplyKeepsSafe(c, cmds[0]);
      RunKeepsSafe(Apply(c, cmds[0]), cmds[1..]);
    }
  }

  /** While moving, the pins always are safe, whatever levels they had at boot. */
  lemma MovingIsSafe(boot: Pins, cmds: seq<Command>)
    requires Run(Init(boot), cmds).action != Idle
    ensures Safe(Run(Init(boot), cmds).hw.pins)
  {
    InitConsistent(boot);
    RunKeepsConsistent(Init(boot), cmds);
  }
}
