# softarm controllers, modelled in Dafny

This project models the control paths of the softarm repository and proves
properties of them:

- **The MicroPython raw-REPL client** (`micropython/read_i2c.py`, class
  `ESPI2C`). It covers:
  - entering raw mode (Ctrl-C, Ctrl-A, a drain);
  - submitting code (its UTF-8 bytes, then Ctrl-D);
  - the read loop that accumulates bursts until the buffer ends with
    0x04 '>';
  - splitting the reply on 0x04 into an output segment (decoded, stripped,
    one leading `OK` removed) and an error segment (a non-empty one raises);
  - the `scan`, `read_from_mem` and `write_to_mem` commands and their code
    templates.
- **The GPIO controller** (`micropython/espgui.py`). It covers:
  - the constructor's write sequence and its substring error check;
  - `toggle_pin`'s write sequence and error logging;
  - the device-side `set_pin` helper and its `gpios` pin cache (a class
    over a map of `Pin` objects).
- **The vine-station motor sketch** (`vinestation/src/main.cpp`). It covers:
  - `setMotor`, which picks the H-bridge direction and clamps the PWM;
  - the serial line dispatch (`P<pin>:<state>` lines against target lines);
  - the PI state's windup guard and deadband reset;
  - the motor command.
- **The gripper sketch** (`gripper/src/main.cpp`). It covers the line buffer
  (`inputString`, `stringComplete`) filled by the `Serial.available()` loop,
  and the servo angle range check.
- **The camera firmware** (`vinestation/YOLO/firmware_fast.py`). It covers:
  - the random multipart boundary, and the `Content-Type` default set by
    `XMixedReplaceResponse`;
  - the four writes of `send_frame`, together with a receiver that reads a
    frame back;
  - the servo angle clamp;
  - one pass of `handle_websocket_requests`: the scan over the sockets and
    the removal of closed ones.

The serial port is a `Transport.SerialPort` object:

- What the host does to it is recorded, in order, in `trace`.
- What the device sends is given in advance as `inbox`, a list of bursts.
- Each read (`read_all()`, or one poll of the `in_waiting` loop) returns the
  next burst.
- Timing, baud rates and settle delays only decide how the device's bytes
  are cut into bursts. Every framing result here is proved for every such
  cut.

Modules:

| module | file | what it holds |
|---|---|---|
| `Wrappers` | seqs.dfy | `Option` |
| `Seqs` | seqs.dfy | `Flatten`, `StartsWith`/`EndsWith`, `Contains` (Python's `in`), `Split`/`Join` (`bytes.split`, `str.join`), `Trim` (the common shape of `strip()` and `String::trim()`) |
| `Bytes` | utf8.dfy | `byte`, the raw-REPL control bytes, `bytes.strip()` |
| `Utf8` | utf8.dfy | UTF-8 encoding; decoding with the `replace` and `ignore` handlers |
| `Text` | text.dfy | decimal rendering (`str(int)`, `f"{n}"`) and a strict parser for it |
| `PyText` | text.dfy | `str.isspace`/`strip`, the repr of an integer list, a strict reader for it |
| `CText` | text.dfy | C `isspace`, Arduino `trim`, `indexOf`, `toInt` (`atol`), `toFloat` (`atof`) on fixed-point text |
| `Transport` | transport.dfy | the serial port |
| `RawRepl` | raw_repl.dfy | read_i2c.py |
| `EspGui` | espgui.dfy | espgui.py |
| `Vinestation` | vinestation.dfy | vinestation/src/main.cpp |
| `Gripper` | gripper.dfy | gripper/src/main.cpp |
| `MjpegStream` | mjpeg_stream.dfy | vinestation/YOLO/firmware_fast.py |

Modelling decisions:

- **The read loop never times out.** The loop in `exec_raw`
  (micropython/read_i2c.py:57-63) has no deadline. A reply without the completion marker
  makes it wait forever, which the model calls the `Hung` outcome. A client
  would usually give up after a deadline; this one does not, and the model
  follows the code.
- **A reply that fails to split is not an error.** When the reply has fewer
  than two 0x04-segments, the code returns `""` instead of reporting a
  malformed response (micropython/read_i2c.py:80). `PromptedSplitsInTwo` shows that
  branch cannot be reached after the loop.
- **`eval` is a strict reader.** `scan()` calls `eval` on the printed text
  (micropython/read_i2c.py:91). The model reads that text with `PyText.ParseIntList`,
  which accepts exactly Python's repr of a list of integers. Any other text
  counts as a failed evaluation, so `scan()` returns `[]`.
- **The GUI's motor line reads as target 0.** The desktop GUI sends motor
  targets as `M{target}` (vinestation/gui.py:183). The sketch's dispatch
  (vinestation/src/main.cpp:101-104) reads such a line with `toFloat`,
  which finds no number before the `M`, so the target becomes 0 whatever
  value was sent. `Vinestation.MotorLineReadsZero` states this.
- **The boundary has no extra `--`.** `send_frame` writes the boundary value
  itself as the delimiter line (vinestation/YOLO/firmware_fast.py:77). RFC 2046, section
  5.1.1, puts "--" before the boundary parameter on each delimiter line.
  The boundary is generated with a leading "--" (vinestation/YOLO/firmware_fast.py:72), and
  the model follows the code.

## Model

| member | source | states |
|---|---|---|
| Transport.SerialPort.constructor | micropython/read_i2c.py:17 | a fresh port has an empty trace and the given arrivals pending |
| Transport.SerialPort.Write | micropython/read_i2c.py:23 | `ser.write(data)` appends one write of exactly `data` to the trace and consumes nothing |
| Transport.SerialPort.ReadAll | micropython/read_i2c.py:29 | `read_all()` returns the next burst (nothing when none is left), consumes it and is recorded in the trace |
| Transport.SerialPort.Poll | micropython/read_i2c.py:58-59 | one poll of `in_waiting`/`read` returns and consumes the next burst and writes nothing |
| Seqs.SplitCount | micropython/read_i2c.py:69 | `split(b'\x04')` gives one more part than there are 0x04 bytes |
| Seqs.SplitPiecesFree | micropython/read_i2c.py:69 | no part of the split contains the separator |
| Seqs.JoinSplit | micropython/read_i2c.py:69 | joining the parts with the separator gives back the reply, so the split loses nothing |
| Seqs.SplitJoin | micropython/read_i2c.py:69 | separator-free pieces joined by the separator split back into exactly those pieces |
| Seqs.TrimNoop | micropython/read_i2c.py:71 | `strip()` leaves text alone exactly when neither end is whitespace |
| Seqs.TrimTrailing | micropython/read_i2c.py:71 | `strip()` takes off every whitespace character that follows text whose ends are not whitespace, and nothing of the text |
| Utf8.RoundTrip | micropython/read_i2c.py:71 | decoding the UTF-8 encoding of any text gives it back, with `errors='replace'` and with `errors='ignore'` |
| Utf8.DecodeEncode | micropython/read_i2c.py:53-71 | the decoder reads an encoded prefix back whatever bytes follow it |
| Utf8.Decode | micropython/read_i2c.py:71 | `bytes.decode('utf-8', errors=...)`: each well-formed UTF-8 sequence becomes its character; an ill-formed one, up to the first byte that cannot continue it, becomes one U+FFFD (`replace`) or is dropped (`ignore`), as also used at micropython/espgui.py:54 and 85 |
| Text.ParseRender | micropython/read_i2c.py:100 | the strict decimal parser reads every rendering `f"{n}"` back as `n` |
| Text.RenderParse | micropython/read_i2c.py:100 | the parser accepts nothing but renderings: a parsed text is the rendering of its value |
| Text.RenderInjective | micropython/read_i2c.py:100 | distinct integers render as distinct texts |
| PyText.ParseShowIntList | micropython/read_i2c.py:91 | the list reader returns `xs` for the text `print(xs)` shows, for every integer list |
| PyText.ShowParseIntList | micropython/read_i2c.py:91 | a text the list reader accepts is exactly the repr of the list it returns |
| PyText.ShowIntListPlain | micropython/read_i2c.py:71-73 | a list repr has no 0x04 byte, and `strip()` leaves it alone |
| RawRepl.FirstPromptFrom | micropython/read_i2c.py:57-62 | the first poll count, from `j` on, after which the buffer ends with 0x04 '>'; None exactly when no count does |
| RawRepl.FirstPrompt | micropython/read_i2c.py:57-62 | the number of polls after which the loop stops: the buffer ends with 0x04 '>' then and after no earlier poll; None when it never does |
| RawRepl.FirstPromptExact | micropython/read_i2c.py:57-62 | the stopping point is unique: any count that meets the stop condition is the one `FirstPrompt` gives |
| RawRepl.RemoveOk | micropython/read_i2c.py:72-73 | `output[2:]` exactly when the output starts with `OK`, the output unchanged otherwise |
| RawRepl.ParseResponse | micropython/read_i2c.py:69-80 | the split at 0x04: with two parts or more, the first decoded, stripped and without its `OK` is the output and the second decoded and stripped is the error; a non-empty error raises `ESP32 Error: <error>`, otherwise the output is returned; fewer parts return `""` |
| RawRepl.Reply | micropython/read_i2c.py:56-80 | the outcome of `exec_raw` for the bursts that arrive: the parse of the bursts up to the first poll that leaves the buffer ending with 0x04 '>', and `Hung` when no poll does |
| RawRepl.Unread | micropython/read_i2c.py:56-63 | the bursts after that poll, which the loop never reads |
| RawRepl.ExecTrace | micropython/read_i2c.py:48-53 | the port events before the read loop: Ctrl-A written, one drain, then the code's UTF-8 bytes and Ctrl-D in one write |
| RawRepl.SCAN_CODE | micropython/read_i2c.py:85 | the code `scan()` sends, `print(i2c.scan())` |
| RawRepl.ReadFromMemCode | micropython/read_i2c.py:100 | the code `read_from_mem` sends, `print(i2c.readfrom_mem(<a>, <r>, <n>))` with decimal renderings |
| RawRepl.WriteToMemCode | micropython/read_i2c.py:112 | the code `write_to_mem` sends, `i2c.writeto_mem(<a>, <r>, bytes([<d>]))` with decimal renderings |
| RawRepl.ESPI2C.constructor | micropython/read_i2c.py:16-17 | the client uses the given port |
| RawRepl.ESPI2C.ConnectAndInit | micropython/read_i2c.py:20-42 | writes Ctrl-C, then Ctrl-A, drains once, then runs `exec_raw` on the I2C set-up code; its outcome and the bursts left unread are those of the reply that follows the two drained bursts |
| RawRepl.ESPI2C.ExecRaw | micropython/read_i2c.py:45-80 | the trace gains Ctrl-A, a drain, and the code's UTF-8 bytes followed by Ctrl-D in one write; the outcome is the parse of the bursts read up to the first completion marker (`Hung` without one), and the later bursts stay unread |
| RawRepl.ESPI2C.ReadReply | micropython/read_i2c.py:56-63 | the loop stops exactly when some run of bursts ends with 0x04 '>'; `ret` is then the concatenation of the bursts up to the first such run, and the rest stay unread |
| RawRepl.ScanResult | micropython/read_i2c.py:86-95 | `scan()` gives the printed list; it gives `[]` for empty output, a remote error or unreadable text; it hangs exactly when `exec_raw` does |
| RawRepl.ReadResult | micropython/read_i2c.py:101-108 | `read_from_mem()` gives the output text unchanged, or None on a remote error; it hangs exactly when `exec_raw` does |
| RawRepl.WriteResult | micropython/read_i2c.py:113-117 | `write_to_mem()` swallows a remote error; it hangs exactly when `exec_raw` does |
| RawRepl.ESPI2C.Scan | micropython/read_i2c.py:82-95 | sends exactly `print(i2c.scan())` through `exec_raw` and returns `ScanResult` of its outcome |
| RawRepl.ESPI2C.ReadFromMem | micropython/read_i2c.py:97-108 | sends `print(i2c.readfrom_mem(a, r, n))`, with `n` defaulting to 1, and returns `ReadResult` of the outcome |
| RawRepl.ESPI2C.WriteToMem | micropython/read_i2c.py:110-117 | sends `i2c.writeto_mem(a, r, bytes([d]))` and returns `WriteResult` of the outcome |
| RawRepl.PromptedSplitsInTwo | micropython/read_i2c.py:69-80 | a buffer the loop accepts splits into at least two segments, so the `return ""` fallback is unreachable after the loop |
| RawRepl.NoMarkerHangs | micropython/read_i2c.py:57-63 | a reply with no 0x04 byte at all never completes: the client waits forever |
| RawRepl.OnlyFinalPrompt | micropython/read_i2c.py:61-62 | in `out 0x04 err 0x04 '>'` with no 0x04 inside `out` or `err`, and `err` not starting with '>', no proper prefix ends with the marker |
| RawRepl.WholeReplyParsed | micropython/read_i2c.py:56-69 | such a reply is read whole, however the link cuts it into bursts |
| RawRepl.FramedParse | micropython/read_i2c.py:69-79 | the output is the first segment, stripped, with one leading `OK` removed; the error is the second segment, stripped; a non-empty error raises `ESP32 Error: <error>`; whatever follows the second 0x04 is ignored |
| RawRepl.AcknowledgedText | micropython/read_i2c.py:71-73 | `strip()` takes off any whitespace after acknowledged output that has none at its ends, then the `OK` is removed and the rest is kept |
| RawRepl.ParseAcknowledged | micropython/read_i2c.py:69-79 | an acknowledged reply with an empty error parses to the printed text, without the whitespace that follows it |
| RawRepl.ExecReturnsPrinted | micropython/read_i2c.py:45-79 | end to end: when the device acknowledges, prints `printed` (no whitespace at its ends) followed by any whitespace, such as the "\r\n" `print` ends with, and reports no error, `exec_raw` returns exactly `printed`, for every cut into bursts |
| RawRepl.ExecRaisesRemoteError | micropython/read_i2c.py:75-78 | end to end: a non-empty error segment makes `exec_raw` raise with the stripped error text |
| RawRepl.PromptInsideErrorTruncates | micropython/read_i2c.py:57-62 | the loop stops at the first burst that ends with the marker, even inside the error text: the error is cut to ">" and the later burst stays unread |
| RawRepl.FirstBurstPrompted | micropython/read_i2c.py:57-62 | a first burst that ends with the marker is all the loop reads |
| RawRepl.PromptAsError | micropython/read_i2c.py:69-78 | `OK` 0x04 '>' read on its own has '>' as its error segment, so `exec_raw` raises `ESP32 Error: >` |
| RawRepl.AcknowledgementRemovedOnce | micropython/read_i2c.py:72-73 | exactly one leading `OK` is removed: printed `OK` comes back as `OK` |
| RawRepl.OutputNotStrippedAgain | micropython/read_i2c.py:71-73 | the output is stripped before the `OK` is removed and not after: `OK 5` comes back as ` 5` |
| RawRepl.ExecWrites | micropython/read_i2c.py:48-53 | the bytes `exec_raw` writes are Ctrl-A, the code's UTF-8 bytes and Ctrl-D, in that order, with no newline added, and no Ctrl-C unless the code itself holds one |
| RawRepl.ScanReadsPrintedList | micropython/read_i2c.py:85-92 | `scan()` returns exactly the list the device printed, for every integer list and whatever whitespace (such as `print`'s "\r\n") follows it |
| RawRepl.ScanNonEmptyMeansListPrinted | micropython/read_i2c.py:90-95 | a non-empty scan result means the output was exactly the repr of that list |
| RawRepl.RemoteErrorSwallowed | micropython/read_i2c.py:86-117 | a remote error makes `scan()` return `[]`, `read_from_mem()` return None and `write_to_mem()` report failure, and none of them raises |
| RawRepl.ScanExample | micropython/read_i2c.py:85-91 | the reply `OK[8, 52]` CR LF 0x04 0x04 '>' scans as `[8, 52]` |
| RawRepl.ReadRegisterExample | micropython/read_i2c.py:100-105 | the reply `OKb'\x05'` CR LF 0x04 0x04 '>' reads as the text `b'\x05'`, without the line break |
| RawRepl.ReadFromMemFields | micropython/read_i2c.py:100 | the register-read code consists of three comma-free fields joined by commas |
| RawRepl.ReadFromMemCodeInjective | micropython/read_i2c.py:100 | the register-read code determines its address, register and byte count |
| RawRepl.WriteToMemFields | micropython/read_i2c.py:112 | the register-write code consists of three comma-free fields joined by commas |
| RawRepl.WriteToMemCodeInjective | micropython/read_i2c.py:112 | the register-write code determines its address, register and data byte |
| EspGui.InitFailedIff | micropython/espgui.py:55 | the init check holds exactly when the response contains `Traceback` or `Error`; the `SyntaxError` test adds nothing |
| EspGui.ReportsErrorIff | micropython/espgui.py:86 | the toggle check holds exactly when the response contains `Traceback` or `Error`; the `NameError` test adds nothing |
| EspGui.InitFailed | micropython/espgui.py:55 | the setup check: the response contains `Traceback`, `Error` or `SyntaxError` |
| EspGui.ReportsError | micropython/espgui.py:86 | the toggle check: the response contains `Traceback`, `Error` or `NameError` |
| EspGui.SetPinCall | micropython/espgui.py:73 | the command `toggle_pin` sends, `set_pin(<pin>, <val>)` and a newline, with decimal renderings |
| EspGui.InitTrace | micropython/espgui.py:35-54 | the constructor's port events: Ctrl-C, Ctrl-A, a drain, the stripped init block with a newline, Ctrl-D, and the read of the response |
| EspGui.ToggleTrace | micropython/espgui.py:68-82 | `toggle_pin`'s port events: Ctrl-A, a drain, the encoded `set_pin` call, Ctrl-D, and the read of the response |
| EspGui.InitBlockSent | micropython/espgui.py:46 | `ESP_INIT_CODE.strip() + b'\n'` is the helper's encoding followed by exactly one newline: the strip takes off the literal's opening and closing newline and nothing of the helper |
| EspGui.PinValue | micropython/espgui.py:64 | `val` is 0 or 1, and it is 1 exactly when the state is truthy |
| EspGui.ESP32Controller.constructor | micropython/espgui.py:32 | the controller uses the given port |
| EspGui.ESP32Controller.Open | micropython/espgui.py:30-58 | the trace gains Ctrl-C, Ctrl-A, a drain, the stripped init block with a newline, Ctrl-D and a read; the result is a failed setup carrying the stripped response exactly when the `ignore`-decoded response passes the error check, and a new controller on the port otherwise |
| EspGui.InitWrites | micropython/espgui.py:35-50 | the constructor writes Ctrl-C, Ctrl-A, the helper with a newline and Ctrl-D, in that order |
| EspGui.ESP32Controller.TogglePin | micropython/espgui.py:63-89 | the trace gains Ctrl-A, a drain, `set_pin(<pin>, <val>)\n`, Ctrl-D and a read; the method never raises, and logs `ESP32 ERROR: <stripped response>` exactly when the response is non-empty and passes the toggle check |
| EspGui.ToggleWrites | micropython/espgui.py:68-78 | `toggle_pin` writes Ctrl-A, the call and Ctrl-D, in that order, and never Ctrl-C |
| EspGui.SetPinCallInjective | micropython/espgui.py:73 | the `set_pin` call determines the pin and the value it sets |
| EspGui.Pin.constructor | micropython/espgui.py:20 | `machine.Pin(pin_num, ...)` makes a pin with that number |
| EspGui.RemoteGpios.constructor | micropython/espgui.py:16 | the cache starts empty |
| EspGui.RemoteGpios.Levels | micropython/espgui.py:16-26 | the output level of every cached pin, defined on exactly the cached pin numbers |
| EspGui.RemoteGpios.SetPin | micropython/espgui.py:17-26 | adds an entry only for a pin not yet cached, with a new Pin; never replaces an entry; sets that pin's level to 1 when the state is truthy and 0 otherwise; no other pin's level changes; every entry keeps its own number |
| Vinestation.ClampPwm | vinestation/src/main.cpp:20-21 | the magnitude lies in [100, 255]: it is unchanged when already there, raised to 100 below and cut to 255 above |
| Vinestation.TruncateToInt | vinestation/src/main.cpp:128 | C's `(int)` cast truncates toward zero |
| Vinestation.NextIntegral | vinestation/src/main.cpp:113-120 | outside the deadband the integral adds the error, clamped to [-50, 50]; inside the deadband it is reset to 0; it always lies in [-50, 50] |
| Vinestation.Controller.constructor | vinestation/src/main.cpp:76-77 | the start-up state: the target is the start position, the integral is 0, and no pin has been written |
| Vinestation.Controller.SetMotor | vinestation/src/main.cpp:18-34 | appends the two writes of `setMotor(pwm)` and changes nothing else |
| Vinestation.MotorWritesSafe | vinestation/src/main.cpp:18-34 | `setMotor` writes pin 6 then pin 7 and at most one of them is non-zero; a non-zero value lies in [100, 255]; pin 6 is driven exactly for a positive request and pin 7 exactly for a negative one; an in-range magnitude is kept, one below 100 becomes 100 and one above 255 becomes 255 (`setMotor(30)` drives pin 6 at 100, `setMotor(-300)` drives pin 7 at 255) |
| Vinestation.MotorWrites | vinestation/src/main.cpp:18-34 | the two `analogWrite` calls of `setMotor(pwm)`: pin 6 then pin 7, the clamped magnitude on the pin of the sign and 0 on the other, both 0 for 0 |
| Vinestation.MotorCommand | vinestation/src/main.cpp:122-134 | the value handed to `setMotor`: the truncated negation of `Kp * error + Ki * integral` outside the deadband, 0 inside it |
| Vinestation.ParseLine | vinestation/src/main.cpp:86-87 | a line read up to '\n' is trimmed, then dispatched |
| Vinestation.Dispatch | vinestation/src/main.cpp:90-105 | a trimmed line: empty does nothing, one starting with `P` is a GPIO command, anything else sets the target to its `toFloat` value |
| Vinestation.GpioCommand | vinestation/src/main.cpp:91-100 | a `P` line: nothing without a colon; otherwise the `toInt` of the text between `P` and the first colon is the pin and that of the text after it the state, and only pins 8, 9 and 10 are written, HIGH for a non-zero state |
| Vinestation.Controller.HandleLine | vinestation/src/main.cpp:85-107 | the trimmed line is dispatched: a GPIO line writes its pin, a target line sets the target and resets the integral, and anything else changes nothing |
| Vinestation.Controller.ControlStep | vinestation/src/main.cpp:110-134 | the integral becomes `NextIntegral` of the error, the target is kept, and the motor gets the negated, truncated PI output outside the deadband and 0 inside it; the windup bound holds afterwards |
| Vinestation.Controller.Loop | vinestation/src/main.cpp:80-134 | one pass: the line, if any, is dispatched, then the control step runs on the resulting target; the windup bound holds afterwards |
| Vinestation.DeadbandStops | vinestation/src/main.cpp:130-134 | within the deadband both motor pins are written 0, whatever the integral |
| Vinestation.BlankLineIgnored | vinestation/src/main.cpp:87-90 | an empty or all-whitespace line does nothing |
| Vinestation.GpioLineWithoutColonIgnored | vinestation/src/main.cpp:91-93 | a `P` line without a colon does nothing |
| Vinestation.GpioLineKeepsTarget | vinestation/src/main.cpp:91-100 | a `P` line never sets the target or resets the integral, and it writes only pins 8, 9 and 10 |
| Vinestation.OtherLineSetsTarget | vinestation/src/main.cpp:101-105 | a non-empty trimmed line not starting with `P` sets the target to its `toFloat` value |
| Vinestation.GpioLineRoundTrip | vinestation/src/main.cpp:91-99 | the GUI's `P{pin}:{state}` line (vinestation/gui.py:192) sets pins 8-10 HIGH exactly for a non-zero state and is ignored for any other pin |
| Vinestation.MotorLineReadsZero | vinestation/src/main.cpp:101-104 | the GUI's `M{target}` line (vinestation/gui.py:183) sets the target to 0, whatever value it carries |
| CText.IndexOf | vinestation/src/main.cpp:92 | `indexOf(':')` is the first position of the colon, or -1 exactly when there is none |
| CText.TrimLine | vinestation/src/main.cpp:87 | `String::trim()`: whitespace cut off both ends |
| CText.LeadingInt | vinestation/src/main.cpp:94-95 | `String::toInt()`: leading whitespace skipped, an optional sign, the longest run of digits; the rest ignored, and 0 when there are no digits |
| CText.LeadingReal | vinestation/src/main.cpp:103 | `String::toFloat()` on fixed-point text: leading whitespace skipped, an optional sign, digits, optionally '.' and more digits; the rest ignored, and 0 when there is no number |
| CText.LeadingIntOfRendering | vinestation/src/main.cpp:94-95 | `toInt` reads a decimal rendering back, whatever non-digit text follows it |
| CText.TrimLineBlank | vinestation/src/main.cpp:87 | `trim()` turns an all-whitespace line into the empty string |
| CText.TrimLineKeepsFirst | vinestation/src/main.cpp:87 | `trim()` keeps a first character that is not whitespace |
| CText.LeadingRealOfLetter | vinestation/src/main.cpp:103 | `toFloat` reads a line that starts with a letter as 0 |
| Gripper.Kept | gripper/src/main.cpp:24-30 | what a burst appends to the buffer: no terminator, and no more characters than the burst has |
| Gripper.CompletedBy | gripper/src/main.cpp:24-27 | a burst completes a line exactly when one of its terminators arrives while the buffer, with what the burst has added so far, is non-empty |
| Gripper.ParsedAngle | gripper/src/main.cpp:35-36 | the angle is `toInt` of the trimmed buffer |
| Gripper.Report | gripper/src/main.cpp:39-46 | the line printed: `Moving servo to: <angle> degrees` for an angle in [0, 180], the range error otherwise |
| Gripper.Sketch.constructor | gripper/src/main.cpp:9-17 | `setup()` centres the servo at 90, prints the two greeting lines, and leaves the buffer empty and no line complete |
| Gripper.Sketch.ReadAvailable | gripper/src/main.cpp:21-31 | every available character is consumed; the buffer gains exactly the non-terminators, in order, including those after a terminator; the line becomes complete exactly when a terminator arrives on a non-empty buffer; no servo write or print happens |
| Gripper.CompletedStep | gripper/src/main.cpp:24-27 | one more character completes the line exactly when it is a terminator and the buffer is non-empty |
| Gripper.TerminatorsOnEmptyBuffer | gripper/src/main.cpp:24-27 | terminators on an empty buffer add nothing and complete nothing, so the '\n' of a "\r\n" pair or a blank line triggers no command |
| Gripper.Sketch.ReadAngle | gripper/src/main.cpp:35-36 | the buffer is trimmed in place and the angle is its `toInt` value |
| Gripper.Sketch.MoveTo | gripper/src/main.cpp:39-46 | the servo is written exactly when the angle lies in [0, 180]; the line printed is the move report or the range error |
| Gripper.Sketch.Process | gripper/src/main.cpp:34-51 | for a complete line: the servo is written exactly for an angle in [0, 180], one report is printed, the buffer is cleared and the flag reset; for an incomplete one nothing changes |
| Gripper.Sketch.Loop | gripper/src/main.cpp:19-52 | one pass: when the burst completes a line, it is processed and cleared; otherwise the servo is untouched, nothing is printed, and the buffer holds the old text with the burst's characters added |
| Gripper.AngleLineRoundTrip | gripper/src/main.cpp:21-36 | a rendered angle followed by '\n', sent to an empty buffer, completes one line that reads back as that angle |
| Gripper.MergedAngles | gripper/src/main.cpp:21-36 | two angles in one burst, "90\n45", become the single buffer "9045", which is out of range and only draws the range error |
| MjpegStream.SymbolsAreAlphanumerics | vinestation/YOLO/firmware_fast.py:71 | the alphabet has 62 characters, and they are exactly the ASCII letters and digits |
| MjpegStream.IsBoundary | vinestation/YOLO/firmware_fast.py:70-72 | the shape of a boundary: "--" followed by 16 characters of the alphabet |
| MjpegStream.GetRandomBoundary | vinestation/YOLO/firmware_fast.py:69-72 | whatever the random choices, the boundary is "--" followed by 16 alphabet characters, 18 characters in all |
| MjpegStream.BoundaryCharacters | vinestation/YOLO/firmware_fast.py:70-72 | a boundary holds only '-', letters and digits, so it has no CR, LF, '=' or ';' |
| MjpegStream.SetDefault | vinestation/YOLO/firmware_fast.py:64-66 | `setdefault` adds the key with the given value only when it is absent; an existing value is kept, and no other entry changes |
| MjpegStream.BoundaryInHeader | vinestation/YOLO/firmware_fast.py:64-66 | the boundary can be read back from the header value `multipart/x-mixed-replace; boundary=<b>` |
| MjpegStream.PartHeader | vinestation/YOLO/firmware_fast.py:80 | the part header line `Content-Type: <type>` |
| MjpegStream.FrameChunks | vinestation/YOLO/firmware_fast.py:77-83 | the four writes of `send_frame`: the boundary with CR LF, the part header with CR LF CR LF, the frame's bytes, CR LF |
| MjpegStream.XMixedReplaceResponse.constructor | vinestation/YOLO/firmware_fast.py:48-67 | the response draws a well-formed boundary and sets `Content-Type` to the stream type with that boundary only when the caller's headers have none |
| MjpegStream.Connection.constructor | vinestation/YOLO/firmware_fast.py:77 | a connection starts with nothing sent |
| MjpegStream.Connection.Send | vinestation/YOLO/firmware_fast.py:77 | `_send_bytes` appends exactly one write of the given bytes |
| MjpegStream.XMixedReplaceResponse.SendFrame | vinestation/YOLO/firmware_fast.py:74-83 | the frame defaults to the empty text; four writes, in order: the boundary with CR LF; `Content-Type: <type>` with CR LF CR LF; the frame (UTF-8 for text); CR LF |
| MjpegStream.FrameLayout | vinestation/YOLO/firmware_fast.py:74-83 | the frame's bytes are the boundary, CR LF, the part header, CR LF, CR LF, the frame and CR LF |
| MjpegStream.ParseSentFrame | vinestation/YOLO/firmware_fast.py:74-83 | a receiver recovers the delimiter, the part header and the exact frame bytes, whatever the frame holds (CR LF included), as long as the boundary and header hold no CR |
| MjpegStream.StreamFrameReadsBack | vinestation/YOLO/firmware_fast.py:74-83 | a frame sent by a stream response reads back as its boundary, `Content-Type: <type>` and the frame bytes |
| MjpegStream.ClampAngle | vinestation/YOLO/firmware_fast.py:170 | `max(min(150, angle), 0)` lies in [0, 150], is the angle itself when in range, 150 above and 0 below |
| MjpegStream.Websocket.constructor | vinestation/YOLO/firmware_fast.py:107 | a new websocket is open |
| MjpegStream.Firmware.constructor | vinestation/YOLO/firmware_fast.py:96 | the socket list starts empty and the servo has not been commanded |
| MjpegStream.Firmware.AcceptWebsocket | vinestation/YOLO/firmware_fast.py:104-109 | the `/websocket` route appends one new open socket, keeping the list free of repeats |
| MjpegStream.ClosedUpTo | vinestation/YOLO/firmware_fast.py:166-167 | the `removing` list after `n` sockets holds only sockets from among those |
| MjpegStream.Open | vinestation/YOLO/firmware_fast.py:173-174 | the open sockets of the list, in order: what the removal loop leaves |
| MjpegStream.CommandsUpTo | vinestation/YOLO/firmware_fast.py:168-172 | every angle the first `n` sockets command lies in [0, 150] |
| MjpegStream.Commands | vinestation/YOLO/firmware_fast.py:168-172 | the servo commands of a full pass: the clamped angle of each open socket with an angle packet, in socket order |
| MjpegStream.FirstRaiseUpTo | vinestation/YOLO/firmware_fast.py:160-170 | the socket the exception escapes at is among the first `n`, is open and has a raising packet |
| MjpegStream.FirstRaiseIsFirst | vinestation/YOLO/firmware_fast.py:160-170 | no open socket before that one has a raising packet, and when there is none no socket raises |
| MjpegStream.FirstRaise | vinestation/YOLO/firmware_fast.py:160-170 | the first open socket whose packet makes the handler raise, or None |
| MjpegStream.RemoveFirst | vinestation/YOLO/firmware_fast.py:174 | `list.remove(x)`: the first occurrence of `x` taken out |
| MjpegStream.Firmware.ScanSockets | vinestation/YOLO/firmware_fast.py:160-172 | the scan completes exactly when no open socket raises; `removing` is then the closed sockets in list order; the servo gets the clamped angle of every open socket's angle packet, in order, up to the raising socket if there is one |
| MjpegStream.Firmware.RemoveClosed | vinestation/YOLO/firmware_fast.py:173-174 | removing the collected sockets one by one with `list.remove` leaves exactly the open sockets, in their original order |
| MjpegStream.Firmware.HandlePass | vinestation/YOLO/firmware_fast.py:157-175 | one pass: completed exactly when no open socket raises; then the servo gets every open socket's clamped angle and the list keeps exactly the open sockets, in order; otherwise the list is unchanged and the servo gets the angles before the raising socket |
| MjpegStream.ClosedSublist | vinestation/YOLO/firmware_fast.py:159-167 | the collected closed sockets are elements of the list, each once |
| MjpegStream.OpenAfterRemoval | vinestation/YOLO/firmware_fast.py:173-174 | taking the closed sockets out of a list without repeats leaves its open sockets, without repeats |
| MjpegStream.RemoveStep | vinestation/YOLO/firmware_fast.py:174 | each `remove` call finds its socket and takes out exactly that one |
| MjpegStream.PruneMembers | vinestation/YOLO/firmware_fast.py:159-174 | a socket is kept exactly when it is listed and open, and it is removed exactly when it is listed and closed |
| MjpegStream.ClosedPacketsIgnored | vinestation/YOLO/firmware_fast.py:160-172 | a closed socket's packet is never acted on: packets that differ only at closed sockets give the same servo commands and the same raise |

## Left out

- The settle delays (`time.sleep`, `delay`), baud rates, read timeouts, and opening and closing the serial port are not modelled. Their only effect on the modelled behaviour is how the device's bytes are cut into bursts, and every framing property is proved for every cut.
- Serial errors are not modelled: `serial.SerialException` and its message box (micropython/espgui.py:59-61), and exceptions from `ser.read`/`ser.write`.
- `RawRepl.ESPI2C.ReadReply` ends when no burst is left, while the source keeps polling forever. The model reports that case as `Hung`.
- `RawRepl.ScanResult` reads the output with a strict integer-list reader, not `eval`. `eval` accepts more texts, for example extra spaces, hexadecimal or any expression. What the device prints from `i2c.scan()` is always a list repr, and that the reader accepts.
- The `print` calls of read_i2c.py and espgui.py (progress messages and failure messages) are not modelled. The error line `toggle_pin` logs is its result; the failed setup of the GPIO controller carries the logged response.
- The `Decode error` branch of `toggle_pin` (micropython/espgui.py:88-89) is left out, because decoding with `errors='replace'` cannot fail.
- `ESP32Controller` opening its own port is left out. `Open` takes an open port, and its `SetupFailed` result stands for the ConnectionError.
- The GPIOApp window (micropython/espgui.py:91-162) and the `__main__` blocks are user interface only.
- `EspGui.RemoteGpios.SetPin` takes the state as an integer, which is truthy when non-zero. Other Python values and their truthiness are not modelled.
- A new `machine.Pin` object's level before the first write is left unspecified.
- The sketches' `float`s are modelled as exact reals. Rounding, and `Serial.println(current_position, 4)`, are not modelled.
- The encoder reads and their conversion to radians (vinestation/src/main.cpp:82) are left out. `Loop` and `ControlStep` take the position as a parameter instead.
- `setup()` of the vine-station sketch is left out apart from the initial target: pin modes, initial pin levels, PWM settings, I2C set-up and the encoder's restart loop.
- `Vinestation.TruncateToInt` has no 32-bit overflow. The cast of an out-of-range float is undefined in C, and the PI output is bounded for bounded errors.
- `CText.LeadingReal` reads fixed-point text only. Exponents (`1e3`), `inf` and `nan` are not modelled for `toFloat`.
- Integer widths: the sketches' `int` values and `toInt` results are unbounded integers. `long` overflow in `toInt` is not modelled.
- `readStringUntil`'s timeout is left out. `Loop` takes the line it returns, as an option for the case where nothing has arrived.
- The gripper's characters are given as one burst per loop pass. Characters that arrive while the loop is running are not modelled.
- `MjpegStream.GetRandomBoundary` leaves each character an arbitrary choice from the alphabet. The distribution of `random.choice` is not modelled.
- The `Content-Type` header default uses a map with exact keys. The case-insensitive `Headers` class of adafruit_httpserver is not modelled, so a caller's `content-type` key counts as a different key here.
- The HTTP server, the `/frame` route, the camera, WiFi, the temperature task, asyncio scheduling and `server.poll()` are not modelled. They are hardware, networking and scheduling.
- The stream-connection list and its removal during iteration (vinestation/YOLO/firmware_fast.py:127-141) are left out, because what happens there depends on how the concurrent tasks interleave.
- `json.loads` and `packet['angle']` are reduced to the three cases `MjpegStream.Packet` names: no usable packet, an integer angle, or an exception. Float angles are not modelled.
- The exception that escapes the websocket handler ends its task in the source. The model ends the pass and reports it as not completed.
- The outer `while True` loops of the handlers and the sketches are left out. Each `Loop`/`HandlePass` method models one pass.
