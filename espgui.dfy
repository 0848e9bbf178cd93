/** The GPIO controller of micropython/espgui.py: it installs a helper with a
    pin cache on the device over the raw REPL, then toggles pins by sending
    `set_pin(pin, val)` calls. The device-side helper is modelled too. */
module EspGui {
  import opened Wrappers
  import opened Seqs
  import opened Bytes
  import opened Utf8
  import opened Text
  import opened PyText
  import opened Transport

  /** The body of `ESP_INIT_CODE`: the pin cache and the `set_pin` helper, as
      the device is to run them. It starts with the import and ends with the
      line that sets the level. */
  const SET_PIN_HELPER: string := HELPER_IMPORT + HELPER_DEFINITION + HELPER_SET_LEVEL

  const HELPER_IMPORT: string := "import machine\n"

  const HELPER_DEFINITION: string :=
    "gpios = {}\ndef set_pin(pin_num, state):\n    # Ensure pin is in our cache\n" +
    "    if pin_num not in gpios:\n        gpios[pin_num] = machine.Pin(pin_num, machine.Pin.OUT)\n    \n" +
    "    # Force output mode just in case it got reset\n    # gpios[pin_num].init(machine.Pin.OUT) \n    \n" +
    "    # Set the value (1 or 0)\n"

  const HELPER_SET_LEVEL: string := "    gpios[pin_num].value(1 if state else 0)"

  /** `ESP_INIT_CODE`: a bytes literal that opens and closes with a newline. */
  const ESP_INIT_CODE: seq<byte> := Encode("\n" + SET_PIN_HELPER + "\n")

  /** The setup check on the decoded init response. */
  predicate InitFailed(response: string)
  {
    Contains(response, "Traceback") || Contains(response, "Error") || Contains(response, "SyntaxError")
  }

  /** The check `toggle_pin` applies to a non-empty response. */
  predicate ReportsError(decoded: string)
  {
    Contains(decoded, "Traceback") || Contains(decoded, "Error") || Contains(decoded, "NameError")
  }

  /** The third test of the init check adds nothing: "SyntaxError" contains "Error". */
  lemma InitFailedIff(response: string)
    ensures InitFailed(response) <==> Contains(response, "Traceback") || Contains(response, "Error")
  {
    if Contains(response, "SyntaxError") {
      assert "SyntaxError" == "Syntax" + "Error";
      ContainsSuffixOf(response, "Syntax", "Error");
    }
  }

  /** Likewise "NameError" adds nothing to the toggle check. */
  lemma ReportsErrorIff(decoded: string)
    ensures ReportsError(decoded) <==> Contains(decoded, "Traceback") || Contains(decoded, "Error")
  {
    if Contains(decoded, "NameError") {
      assert "NameError" == "Name" + "Error";
      ContainsSuffixOf(decoded, "Name", "Error");
    }
  }

  // Only splits out a literal fact, to keep the proofs that use it cheap.
  lemma HelperEnds()
    ensures SET_PIN_HELPER != [] && SET_PIN_HELPER[0] == 'i' && SET_PIN_HELPER[|SET_PIN_HELPER| - 1] == ')'
  {
    assert HELPER_IMPORT[0] == 'i';
    assert HELPER_SET_LEVEL[|HELPER_SET_LEVEL| - 1] == ')';
  }

  /** The block the constructor sends is the helper followed by exactly one
      newline: `strip()` removes the literal's opening and closing newline and
      nothing of the helper itself. */
  lemma InitBlockSent()
    ensures StripBytes(ESP_INIT_CODE) + [LF] == Encode(SET_PIN_HELPER + "\n")
  {
    var body := Encode(SET_PIN_HELPER);
    HelperEnds();
    EncodeEnds(SET_PIN_HELPER);
    EncodeAppend("\n", SET_PIN_HELPER);
    EncodeAppend("\n" + SET_PIN_HELPER, "\n");
    EncodeAppend(SET_PIN_HELPER, "\n");
    assert Encode("\n") == [LF];
    TrimSurrounded(LF, body, IsAsciiSpace);
  }

  /** The code `toggle_pin` sends: `set_pin(<pin>, <val>)` and a newline. */
  function SetPinCall(pin: int, val: int): string
  {
    "set_pin(" + IntToDecimal(pin) + ", " + IntToDecimal(val) + ")\n"
  }

  /** `1 if state else 0`. */
  function PinValue(state: bool): (val: int)
    ensures val == 0 || val == 1
    ensures val != 0 <==> state
  {
    if state then 1 else 0
  }

  /** What the constructor does to the port: Ctrl-C, Ctrl-A, a drain, the
      stripped init block with a newline, Ctrl-D, and the read of the response. */
  function InitTrace(): seq<Event>
  {
    [Event.Write([CTRL_C]), Event.Write([CTRL_A]), Event.ReadAll,
     Event.Write(StripBytes(ESP_INIT_CODE) + [LF]), Event.Write([CTRL_D]), Event.ReadAll]
  }

  /** What `toggle_pin` does to the port: Ctrl-A, a drain, the call, Ctrl-D,
      and the read of the response. */
  function ToggleTrace(pin: int, state: bool): seq<Event>
  {
    [Event.Write([CTRL_A]), Event.ReadAll, Event.Write(Encode(SetPinCall(pin, PinValue(state)))),
     Event.Write([CTRL_D]), Event.ReadAll]
  }

  /** The outcome of `ESP32Controller(port)`: a working controller, or the
      ConnectionError raised after logging the stripped response. */
  datatype Connection = Connected(controller: ESP32Controller) | SetupFailed(log: string)

  class ESP32Controller {
    const ser: SerialPort

    constructor (ser: SerialPort)
      ensures this.ser == ser
    {
      this.ser := ser;
    }

    /** `ESP32Controller(port)` on an open port: enter raw mode, install the
        helper, execute it and check the response. Opening the port and its
        SerialException are not modelled. */
    static method Open(ser: SerialPort) returns (r: Connection)
      modifies ser
      ensures ser.trace == old(ser.trace) + InitTrace()
      ensures ser.inbox == LaterBursts(LaterBursts(old(ser.inbox)))
      ensures var response := Decode(NextBurst(LaterBursts(old(ser.inbox))), Ignore);
        if InitFailed(response) then r == SetupFailed(Strip(response))
        else r.Connected? && fresh(r.controller) && r.controller.ser == ser
    {
      ser.Write([CTRL_C]);
      ser.Write([CTRL_A]);
      var banner := ser.ReadAll();  // the raw REPL greeting, discarded
      var block := StripBytes(ESP_INIT_CODE) + [LF];
      ser.Write(block);
      ser.Write([CTRL_D]);
      var raw := ser.ReadAll();
      assert InitTrace() == [Event.Write([CTRL_C]), Event.Write([CTRL_A]), Event.ReadAll,
        Event.Write(block), Event.Write([CTRL_D]), Event.ReadAll];
      var response := Decode(raw, Ignore);
      if InitFailed(response) {
        r := SetupFailed(Strip(response));
      } else {
        var c := new ESP32Controller(ser);
        r := Connected(c);
      }
    }

    /** `toggle_pin(pin, state)`, `state` standing for its truth value. It
        never raises; the result is the error line it logs, if any. */
    method TogglePin(pin: int, state: bool) returns (logged: Option<string>)
      modifies ser
      ensures ser.trace == old(ser.trace) + ToggleTrace(pin, state)
      ensures ser.inbox == LaterBursts(LaterBursts(old(ser.inbox)))
      ensures var raw := NextBurst(LaterBursts(old(ser.inbox)));
        logged == if raw != [] && ReportsError(Decode(raw, Replace))
                  then Some("ESP32 ERROR: " + Strip(Decode(raw, Replace))) else None
    {
      var val := PinValue(state);
      var cmd := SetPinCall(pin, val);
      var bytes := Encode(cmd);
      ser.Write([CTRL_A]);
      var ack := ser.ReadAll();  // discarded
      ser.Write(bytes);
      ser.Write([CTRL_D]);
      var raw := ser.ReadAll();
      assert ToggleTrace(pin, state) == [Event.Write([CTRL_A]), Event.ReadAll, Event.Write(bytes), Event.Write([CTRL_D]), Event.ReadAll];
      assert ser.trace == old(ser.trace) + ToggleTrace(pin, state);
      logged := None;
      if raw != [] {
        var decoded := Decode(raw, Replace);
        if ReportsError(decoded) {
          logged := Some("ESP32 ERROR: " + Strip(decoded));
        }
      }
    }
  }

  /** The bytes `toggle_pin` sends: Ctrl-A, the call, Ctrl-D, in that order,
      and never a Ctrl-C, so a program running on the device is not stopped. */
  lemma ToggleWrites(pin: int, state: bool)
    ensures Written(ToggleTrace(pin, state)) == [CTRL_A] + Encode(SetPinCall(pin, PinValue(state))) + [CTRL_D]
    ensures CTRL_C !in Written(ToggleTrace(pin, state))
  {
    var t := ToggleTrace(pin, state);
    var bytes := Encode(SetPinCall(pin, PinValue(state)));
    assert t == [Event.Write([CTRL_A]), Event.ReadAll, Event.Write(bytes), Event.Write([CTRL_D]), Event.ReadAll];
    assert Written(t[4..]) == [] by {
      assert t[4..][1..] == [];
    }
    assert Written(t[3..]) == [CTRL_D] by {
      assert t[3..][1..] == t[4..];
    }
    assert Written(t[2..]) == bytes + [CTRL_D] by {
      assert t[2..][1..] == t[3..];
    }
    assert Written(t[1..]) == bytes + [CTRL_D] by {
      assert t[1..][1..] == t[2..];
    }
    assert t[1..] == t[1..];
    SetPinCallPlain(pin, PinValue(state));
  }

  /** The call holds no Ctrl-C byte. */
  lemma SetPinCallPlain(pin: int, val: int)
    ensures CTRL_C !in Encode(SetPinCall(pin, val))
  {
    var call := SetPinCall(pin, val);
    RenderedChars(pin);
    RenderedChars(val);
    assert '\U{3}' !in call;
    if CTRL_C in Encode(call) {
      AsciiByteInEncoding(call, CTRL_C);
    }
  }

  /** The constructor's bytes: Ctrl-C, Ctrl-A, the helper with a newline, Ctrl-D. */
  lemma InitWrites()
    ensures Written(InitTrace()) == [CTRL_C, CTRL_A] + Encode(SET_PIN_HELPER + "\n") + [CTRL_D]
  {
    var t := InitTrace();
    InitBlockSent();
    assert t == [t[0], t[1], t[2]] + [t[3], t[4], t[5]];
    WrittenAppend([t[0], t[1], t[2]], [t[3], t[4], t[5]]);
    assert Written([t[5]]) == [] by {
      assert [t[5]][1..] == [];
    }
    assert Written([t[4], t[5]]) == [CTRL_D] by {
      assert [t[4], t[5]][1..] == [t[5]];
    }
    assert Written([t[3], t[4], t[5]]) == StripBytes(ESP_INIT_CODE) + [LF] + [CTRL_D] by {
      assert [t[3], t[4], t[5]][1..] == [t[4], t[5]];
    }
    assert Written([t[2]]) == [] by {
      assert [t[2]][1..] == [];
    }
    assert Written([t[1], t[2]]) == [CTRL_A] by {
      assert [t[1], t[2]][1..] == [t[2]];
    }
    assert Written([t[0], t[1], t[2]]) == [CTRL_C, CTRL_A] by {
      assert [t[0], t[1], t[2]][1..] == [t[1], t[2]];
    }
  }

  /** The call determines the pin and the value it sets. */
  lemma SetPinCallInjective(pin: int, val: int, pin': int, val': int)
    requires SetPinCall(pin, val) == SetPinCall(pin', val')
    ensures pin == pin' && val == val'
  {
    var a := IntToDecimal(pin);
    var b := IntToDecimal(val);
    var a' := IntToDecimal(pin');
    var b' := IntToDecimal(val');
    SetPinFields(a, b);
    SetPinFields(a', b');
    RenderedChars(pin); RenderedChars(val); RenderedChars(pin'); RenderedChars(val');
    var f := ["set_pin(" + a, " " + b + ")\n"];
    var f' := ["set_pin(" + a', " " + b' + ")\n"];
    SplitJoin(f, ',');
    SplitJoin(f', ',');
    assert f[0][8..] == a && f'[0][8..] == a';
    assert f[1][1..|f[1]| - 2] == b && f'[1][1..|f'[1]| - 2] == b';
    RenderInjective(pin, pin');
    RenderInjective(val, val');
  }

  lemma SetPinFields(a: string, b: string)
    ensures "set_pin(" + a + ", " + b + ")\n" == Join(["set_pin(" + a, " " + b + ")\n"], ',')
  {
    var f := ["set_pin(" + a, " " + b + ")\n"];
    assert f[1..] == [f[1]];
    assert ", " == [','] + " ";
  }

  // ---------------------------------------------------------------------
  // The device side: the `gpios` cache and `set_pin` in `ESP_INIT_CODE`

  /** A `machine.Pin` configured as an output. */
  class Pin {
    const id: int
    var level: int

    constructor (id: int)
      ensures this.id == id
    {
      this.id := id;
    }
  }

  class RemoteGpios {
    /** `gpios`: pin number to its Pin object. */
    var gpios: map<int, Pin>

    /** Every cached Pin is the one for its own number, so distinct numbers
        hold distinct objects. */
    predicate Valid()
      reads this, gpios.Values
    {
      forall p :: p in gpios ==> gpios[p].id == p
    }

    /** The output level of every cached pin. */
    function Levels(): (m: map<int, int>)
      reads this, gpios.Values
      ensures m.Keys == gpios.Keys
    {
      map p | p in gpios :: gpios[p].level
    }

    constructor ()
      ensures Valid() && gpios == map[]
    {
      gpios := map[];
    }

    /** `set_pin(pin_num, state)`: an entry is added only for a pin not yet
        cached and an existing one is never replaced; the pin's level becomes
        1 if `state` is truthy and 0 otherwise; no other pin changes. */
    method SetPin(pinNum: int, state: int)
      requires Valid()
      modifies this, gpios.Values
      ensures Valid()
      ensures gpios.Keys == old(gpios.Keys) + {pinNum}
      ensures forall p :: p in old(gpios) ==> gpios[p] == old(gpios[p])
      ensures pinNum !in old(gpios) ==> fresh(gpios[pinNum])
      ensures Levels() == old(Levels())[pinNum := if state != 0 then 1 else 0]
    {
      ghost var before := Levels();
      if pinNum !in gpios {
        var pin := new Pin(pinNum);
        gpios := gpios[pinNum := pin];
      }
      assert forall p :: p in before ==> gpios[p].level == before[p];
      var target := gpios[pinNum];
      assert forall p :: p in gpios && p != pinNum ==> gpios[p] != target;
      target.level := if state != 0 then 1 else 0;
    }
  }
}
