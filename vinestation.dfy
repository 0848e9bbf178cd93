/** The motor controller sketch vinestation/src/main.cpp: a position loop
    that reads a target or a GPIO command from the serial line, keeps a PI
    state with a windup guard and a deadband, and drives an H-bridge on
    pins 6 and 7. Encoder readings enter as the parameter `currentPosition`
    (in radians) and the pin writes are recorded, in order, in `writes`.
    The sketch's `float`s are modelled as exact reals. */
module Vinestation {
  import opened Wrappers
  import opened Seqs
  import opened Text
  import opened CText

  const DEADBAND: real := 0.2
  const MIN_PWM: int := 100
  const MAX_PWM: int := 255
  const KP: real := 50.0
  const KI: real := 2.0
  const MAX_INTEGRAL: real := 50.0

  /** The forward and reverse inputs of the H-bridge. */
  const PIN_FORWARD: int := 6
  const PIN_REVERSE: int := 7

  datatype PinWrite =
    | Analog(pin: int, value: int)  // analogWrite(pin, value)
    | Digital(pin: int, high: bool) // digitalWrite(pin, high ? HIGH : LOW)

  /** What one serial line asks for. */
  datatype Command =
    | NoCommand                     // the line is ignored
    | SetGpio(pin: int, high: bool) // a `P<pin>:<state>` line for pin 8, 9 or 10
    | SetTarget(position: real)     // any other non-empty line

  function Abs(x: real): real
  {
    if x < 0.0 then -x else x
  }

  /** `pwm` limited to [MIN_PWM, MAX_PWM], as the two `if`s of `setMotor` do. */
  function ClampPwm(pwm: int): (r: int)
    ensures MIN_PWM <= r <= MAX_PWM
    ensures MIN_PWM <= pwm <= MAX_PWM ==> r == pwm
    ensures pwm < MIN_PWM ==> r == MIN_PWM
    ensures pwm > MAX_PWM ==> r == MAX_PWM
  {
    if pwm < MIN_PWM then MIN_PWM else if pwm > MAX_PWM then MAX_PWM else pwm
  }

  /** The two pin writes `setMotor(pwm)` makes. */
  function MotorWrites(pwm: int): seq<PinWrite>
  {
    if pwm > 0 then [Analog(PIN_FORWARD, ClampPwm(pwm)), Analog(PIN_REVERSE, 0)]
    else if pwm < 0 then [Analog(PIN_FORWARD, 0), Analog(PIN_REVERSE, ClampPwm(-pwm))]
    else [Analog(PIN_FORWARD, 0), Analog(PIN_REVERSE, 0)]
  }

  /** C's `(int)` cast of a float: truncation toward zero. */
  function TruncateToInt(x: real): (r: int)
    ensures x >= 0.0 ==> r >= 0 && r as real <= x < r as real + 1.0
    ensures x < 0.0 ==> r <= 0 && r as real - 1.0 < x <= r as real
  {
    if x >= 0.0 then x.Floor else -((-x).Floor)
  }

  /** The PI state after one control step: the windup guard outside the
      deadband, a reset inside it. */
  function NextIntegral(integral: real, error: real): (r: real)
    ensures -MAX_INTEGRAL <= r <= MAX_INTEGRAL
    ensures Abs(error) <= DEADBAND ==> r == 0.0
    ensures Abs(error) > DEADBAND && -MAX_INTEGRAL <= integral + error <= MAX_INTEGRAL ==> r == integral + error
    ensures Abs(error) > DEADBAND && integral + error > MAX_INTEGRAL ==> r == MAX_INTEGRAL
    ensures Abs(error) > DEADBAND && integral + error < -MAX_INTEGRAL ==> r == -MAX_INTEGRAL
  {
    if Abs(error) > DEADBAND then
      var sum := integral + error;
      if sum > MAX_INTEGRAL then MAX_INTEGRAL else if sum < -MAX_INTEGRAL then -MAX_INTEGRAL else sum
    else 0.0
  }

  /** The `pwm` handed to `setMotor`: the negated PI output outside the
      deadband, 0 inside it. */
  function MotorCommand(error: real, integral: real): int
  {
    if Abs(error) > DEADBAND then TruncateToInt(-(KP * error + KI * integral)) else 0
  }

  /** The dispatch of one line read from the serial port (without its '\n'),
      which is trimmed first. */
  function ParseLine(line: string): Command
  {
    Dispatch(TrimLine(line))
  }

  /** The dispatch of a trimmed line: empty lines are ignored, `P` lines are
      GPIO commands, anything else is a target. */
  function Dispatch(input: string): Command
  {
    if |input| == 0 then NoCommand
    else if StartsWith(input, "P") then GpioCommand(input)
    else SetTarget(LeadingReal(input))
  }

  /** A `P<pin>:<state>` line: the pin is the text between the 'P' and the
      first colon, the state the text after it, both read by `toInt`. */
  function GpioCommand(input: string): Command
    requires StartsWith(input, "P")
  {
    var colon := IndexOf(input, ':');
    if colon == -1 then NoCommand
    else
      var pin := LeadingInt(input[1..colon]);
      var state := LeadingInt(input[colon + 1..]);
      if pin == 8 || pin == 9 || pin == 10 then SetGpio(pin, state != 0) else NoCommand
  }

  /** The pin writes a command makes before the control step. */
  function CommandWrites(cmd: Command): seq<PinWrite>
  {
    if cmd.SetGpio? then [Digital(cmd.pin, cmd.high)] else []
  }

  class Controller {
    var targetPosition: real
    var integralError: real
    /** Every pin write since start-up, oldest first. */
    var writes: seq<PinWrite>

    /** The windup guard's invariant. */
    predicate Valid()
      reads this
    {
      -MAX_INTEGRAL <= integralError <= MAX_INTEGRAL
    }

    /** The state `setup()` leaves: the target is the position read at start-up. */
    constructor (startPosition: real)
      ensures Valid()
      ensures targetPosition == startPosition && integralError == 0.0 && writes == []
    {
      targetPosition := startPosition;
      integralError := 0.0;
      writes := [];
    }

    method SetMotor(pwm: int)
      modifies this
      ensures writes == old(writes) + MotorWrites(pwm)
      ensures targetPosition == old(targetPosition) && integralError == old(integralError)
    {
      var p := pwm;
      if p > 0 {
        if p < MIN_PWM { p := MIN_PWM; }
        if p > MAX_PWM { p := MAX_PWM; }
        writes := writes + [Analog(PIN_FORWARD, p), Analog(PIN_REVERSE, 0)];
      } else if p < 0 {
        p := -p;
        if p < MIN_PWM { p := MIN_PWM; }
        if p > MAX_PWM { p := MAX_PWM; }
        writes := writes + [Analog(PIN_FORWARD, 0), Analog(PIN_REVERSE, p)];
      } else {
        writes := writes + [Analog(PIN_FORWARD, 0), Analog(PIN_REVERSE, 0)];
      }
    }

    /** One pass of `loop()`. `line` is the text `readStringUntil('\n')`
        returns when `Serial.available()` is positive, None when nothing has
        arrived; `currentPosition` is the encoder reading in radians. */
    method Loop(line: Option<string>, currentPosition: real)
      modifies this
      ensures Valid()
      ensures var cmd := if line.Some? then ParseLine(line.value) else NoCommand;
        && targetPosition == (if cmd.SetTarget? then cmd.position else old(targetPosition))
        && integralError ==
             NextIntegral(if cmd.SetTarget? then 0.0 else old(integralError), targetPosition - currentPosition)
        && writes == old(writes) + CommandWrites(cmd) +
             MotorWrites(MotorCommand(targetPosition - currentPosition, integralError))
    {
      if line.Some? {
        HandleLine(line.value);
      }
      ControlStep(currentPosition);
    }

    /** The serial part of `loop()`: trim and dispatch the line, then set a
        GPIO pin, or set the target and reset the integral. */
    method HandleLine(line: string)
      modifies this
      ensures var cmd := ParseLine(line);
        && targetPosition == (if cmd.SetTarget? then cmd.position else old(targetPosition))
        && integralError == (if cmd.SetTarget? then 0.0 else old(integralError))
        && writes == old(writes) + CommandWrites(cmd)
    {
      var input := TrimLine(line);
      match Dispatch(input) {
        case SetGpio(pin, high) =>
          writes := writes + [Digital(pin, high)];
        case SetTarget(position) =>
          targetPosition := position;
          integralError := 0.0;
        case NoCommand =>
      }
    }

    /** The PI part of `loop()`: update the integral with its windup guard
        and deadband reset, then drive the motor, stopped inside the deadband. */
    method ControlStep(currentPosition: real)
      modifies this
      ensures Valid()
      ensures targetPosition == old(targetPosition)
      ensures integralError == NextIntegral(old(integralError), targetPosition - currentPosition)
      ensures writes == old(writes) + MotorWrites(MotorCommand(targetPosition - currentPosition, integralError))
    {
      var error := targetPosition - currentPosition;
      if Abs(error) > DEADBAND {
        integralError := integralError + error;
        if integralError > MAX_INTEGRAL { integralError := MAX_INTEGRAL; }
        if integralError < -MAX_INTEGRAL { integralError := -MAX_INTEGRAL; }
      } else {
        integralError := 0.0;
      }
      var control := KP * error + KI * integralError;
      var pwmOut := TruncateToInt(-control);
      if Abs(error) > DEADBAND {
        SetMotor(pwmOut);
      } else {
        SetMotor(0);
      }
    }
  }

  // ---------------------------------------------------------------------
  // Properties

  /** The H-bridge is never driven both ways: `setMotor` writes pin 6 then
      pin 7, at most one of them non-zero; a non-zero value lies in
      [MIN_PWM, MAX_PWM]; pin 6 is driven exactly for a positive request and
      pin 7 exactly for a negative one, with the requested magnitude when it
      is already in range. */
  lemma MotorWritesSafe(pwm: int)
    ensures |MotorWrites(pwm)| == 2
    ensures MotorWrites(pwm)[0].Analog? && MotorWrites(pwm)[0].pin == PIN_FORWARD
    ensures MotorWrites(pwm)[1].Analog? && MotorWrites(pwm)[1].pin == PIN_REVERSE
    ensures MotorWrites(pwm)[0].value == 0 || MotorWrites(pwm)[1].value == 0
    ensures forall i :: 0 <= i < 2 && MotorWrites(pwm)[i].value != 0 ==>
      MIN_PWM <= MotorWrites(pwm)[i].value <= MAX_PWM
    ensures MotorWrites(pwm)[0].value != 0 <==> pwm > 0
    ensures MotorWrites(pwm)[1].value != 0 <==> pwm < 0
    ensures MIN_PWM <= pwm <= MAX_PWM ==> MotorWrites(pwm)[0].value == pwm
    ensures MIN_PWM <= -pwm <= MAX_PWM ==> MotorWrites(pwm)[1].value == -pwm
    ensures 0 < pwm < MIN_PWM ==> MotorWrites(pwm)[0].value == MIN_PWM
    ensures pwm > MAX_PWM ==> MotorWrites(pwm)[0].value == MAX_PWM
    ensures -MIN_PWM < pwm < 0 ==> MotorWrites(pwm)[1].value == MIN_PWM
    ensures pwm < -MAX_PWM ==> MotorWrites(pwm)[1].value == MAX_PWM
  {
  }

  /** Inside the deadband the motor is stopped, whatever the PI state. */
  lemma DeadbandStops(error: real, integral: real)
    requires Abs(error) <= DEADBAND
    ensures MotorWrites(MotorCommand(error, integral)) == [Analog(PIN_FORWARD, 0), Analog(PIN_REVERSE, 0)]
  {
  }

  /** An empty or all-blank line does nothing. */
  lemma BlankLineIgnored(line: string)
    requires forall i :: 0 <= i < |line| ==> IsCSpace(line[i])
    ensures ParseLine(line) == NoCommand
  {
    TrimLineBlank(line);
  }

  /** A `P` line without a colon does nothing. */
  lemma GpioLineWithoutColonIgnored(line: string)
    requires StartsWith(TrimLine(line), "P") && ':' !in TrimLine(line)
    ensures ParseLine(line) == NoCommand
  {
    var t := TrimLine(line);
    assert Dispatch(t) == GpioCommand(t);
  }

  /** A `P` line never sets the target (so never resets the integral), and
      it writes only pins 8, 9 and 10. */
  lemma GpioLineKeepsTarget(line: string)
    requires StartsWith(TrimLine(line), "P")
    ensures !ParseLine(line).SetTarget?
    ensures ParseLine(line).SetGpio? ==> ParseLine(line).pin in {8, 9, 10}
  {
    var t := TrimLine(line);
    assert Dispatch(t) == GpioCommand(t);
  }

  /** Any other non-empty line is a target, read by `toFloat`. */
  lemma OtherLineSetsTarget(line: string)
    requires TrimLine(line) != [] && TrimLine(line)[0] != 'P'
    ensures ParseLine(line) == SetTarget(LeadingReal(TrimLine(line)))
  {
    var t := TrimLine(line);
    assert !StartsWith(t, "P");
    assert Dispatch(t) == SetTarget(LeadingReal(t));
  }

  /** The line the desktop GUI sends for a GPIO checkbox,
      `P{pin}:{state}`, without the '\n' that `readStringUntil` consumes. */
  function GpioLine(pin: int, state: int): string
  {
    "P" + IntToDecimal(pin) + ":" + IntToDecimal(state)
  }

  /** The GUI's GPIO line round-trips through the sketch's parser: pins 8-10
      are set HIGH exactly for a non-zero state, other pins are ignored. */
  lemma GpioLineRoundTrip(pin: int, state: int)
    ensures ParseLine(GpioLine(pin, state)) ==
      if pin == 8 || pin == 9 || pin == 10 then SetGpio(pin, state != 0) else NoCommand
  {
    var line := GpioLine(pin, state);
    GpioLineShape(pin, state);
    assert Dispatch(line) == GpioCommand(line);
    var colon := IndexOf(line, ':');
    LeadingIntOfRendering(pin, "");
    LeadingIntOfRendering(state, "");
    assert IntToDecimal(pin) + "" == IntToDecimal(pin);
    assert IntToDecimal(state) + "" == IntToDecimal(state);
    assert LeadingInt(line[1..colon]) == pin;
    assert LeadingInt(line[colon + 1..]) == state;
  }

  /** Where `GpioLine` puts its parts: it is already trimmed, starts with
      'P', and its first colon separates the two renderings. */
  lemma GpioLineShape(pin: int, state: int)
    ensures TrimLine(GpioLine(pin, state)) == GpioLine(pin, state)
    ensures StartsWith(GpioLine(pin, state), "P")
    ensures IndexOf(GpioLine(pin, state), ':') == 1 + |IntToDecimal(pin)|
    ensures GpioLine(pin, state)[1..1 + |IntToDecimal(pin)|] == IntToDecimal(pin)
    ensures GpioLine(pin, state)[2 + |IntToDecimal(pin)|..] == IntToDecimal(state)
  {
    var p := IntToDecimal(pin);
    var v := IntToDecimal(state);
    var line := GpioLine(pin, state);
    RenderedChars(pin);
    RenderedChars(state);
    assert line[0] == 'P';
    assert line[|line| - 1] == v[|v| - 1];
    var colon := 1 + |p|;
    assert line[colon] == ':';
    assert line[..colon] == "P" + p;
    assert ':' !in line[..colon];
    assert line[1..colon] == p;
    assert line[colon + 1..] == v;
  }

  /** The GUI's motor line `M{target}` does not start with 'P', so the sketch
      reads it as a target; `toFloat` finds no number before the 'M', so the
      target becomes 0 whatever value was sent. */
  lemma MotorLineReadsZero(value: string)
    ensures ParseLine("M" + value) == SetTarget(0.0)
  {
    var line := "M" + value;
    var t := TrimLine(line);
    TrimLineKeepsFirst(line);
    OtherLineSetsTarget(line);
    LeadingRealOfLetter(t);
  }
}
