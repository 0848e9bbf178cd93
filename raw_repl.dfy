/** The raw REPL client of micropython/read_i2c.py (class ESPI2C): entering
    raw mode, submitting code, reading until the completion marker
    0x04 '>', splitting the response into output and error, and the I2C
    commands built on it. */
module RawRepl {
  import opened Wrappers
  import opened Seqs
  import opened Bytes
  import opened Utf8
  import opened Text
  import opened PyText
  import opened Transport

  /** The two bytes the device sends when it is back at the raw prompt. */
  const COMPLETION: seq<byte> := [CTRL_D, PROMPT]

  predicate Prompted(buffer: seq<byte>)
  {
    EndsWith(buffer, COMPLETION)
  }

  /** The read loop stops after exactly `k` polls: the bytes of the first `k`
      bursts end with the completion marker and those of no shorter run do. */
  predicate StopsAt(chunks: seq<seq<byte>>, k: nat)
  {
    k <= |chunks| && Prompted(Flatten(chunks[..k])) &&
    forall j :: 0 <= j < k ==> !Prompted(Flatten(chunks[..j]))
  }

  /** No run of bursts ends with the completion marker: the loop never exits. */
  predicate NeverPrompts(chunks: seq<seq<byte>>)
  {
    forall j :: 0 <= j <= |chunks| ==> !Prompted(Flatten(chunks[..j]))
  }

  function FirstPromptFrom(chunks: seq<seq<byte>>, j: nat): (k: Option<nat>)
    requires j <= |chunks|
    requires forall i :: 0 <= i < j ==> !Prompted(Flatten(chunks[..i]))
    ensures k.Some? ==> StopsAt(chunks, k.value)
    ensures k.None? ==> NeverPrompts(chunks)
    decreases |chunks| - j
  {
    if Prompted(Flatten(chunks[..j])) then Some(j)
    else if j == |chunks| then None
    else FirstPromptFrom(chunks, j + 1)
  }

  /** After how many polls the read loop stops, if it does. */
  function FirstPrompt(chunks: seq<seq<byte>>): (k: Option<nat>)
    ensures k.Some? ==> StopsAt(chunks, k.value)
    ensures k.None? ==> NeverPrompts(chunks)
  {
    FirstPromptFrom(chunks, 0)
  }

  /** The stopping point is unique, so `FirstPrompt` is the only answer. */
  lemma FirstPromptExact(chunks: seq<seq<byte>>, k: nat)
    ensures StopsAt(chunks, k) ==> FirstPrompt(chunks) == Some(k)
    ensures NeverPrompts(chunks) ==> FirstPrompt(chunks) == None
  {
  }

  datatype ExecOutcome =
    | Returned(output: string)  // exec_raw returns the output text
    | Raised(message: string)   // exec_raw raises RuntimeError(message)
    | Hung                      // the read loop never sees the completion marker

  /** `output[2:]` when the output starts with "OK": one acknowledgement removed. */
  function RemoveOk(s: string): string
  {
    if StartsWith(s, "OK") then s[2..] else s
  }

  /** The parse of the accumulated response, lines 69-80 of read_i2c.py. */
  function ParseResponse(ret: seq<byte>): ExecOutcome
  {
    var parts := Split(ret, CTRL_D);
    if |parts| >= 2 then
      var output := RemoveOk(Strip(Decode(parts[0], Replace)));
      var error := Strip(Decode(parts[1], Replace));
      if error != "" then Raised("ESP32 Error: " + error) else Returned(output)
    else
      Returned("")
  }

  /** What `exec_raw` makes of the bursts that arrive after it submits the code. */
  function Reply(chunks: seq<seq<byte>>): ExecOutcome
  {
    match FirstPrompt(chunks)
    case Some(k) => ParseResponse(Flatten(chunks[..k]))
    case None => Hung
  }

  /** The bursts `exec_raw` leaves unread. */
  function Unread(chunks: seq<seq<byte>>): seq<seq<byte>>
  {
    match FirstPrompt(chunks)
    case Some(k) => chunks[k..]
    case None => []
  }

  /** What `exec_raw(code)` does to the port before its read loop: Ctrl-A,
      a drain, then the code's UTF-8 bytes with Ctrl-D right after them. */
  function ExecTrace(code: string): seq<Event>
  {
    [Event.Write([CTRL_A]), Event.ReadAll, Event.Write(Encode(code) + [CTRL_D])]
  }

  datatype Outcome<T> = Done(value: T) | Hangs

  /** `scan()`'s reading of the outcome: the printed list, or [] for no
      output, a remote error or text that does not read as an integer list. */
  function ScanResult(o: ExecOutcome): (r: Outcome<seq<int>>)
    ensures r.Hangs? <==> o.Hung?
  {
    match o
    case Hung => Hangs
    case Raised(_) => Done([])
    case Returned(result) =>
      if result == "" then Done([])
      else match ParseIntList(result)
        case Some(xs) => Done(xs)
        case None => Done([])
  }

  /** `read_from_mem()`'s reading: the output text unchanged, None on failure. */
  function ReadResult(o: ExecOutcome): (r: Outcome<Option<string>>)
    ensures r.Hangs? <==> o.Hung?
  {
    match o
    case Hung => Hangs
    case Raised(_) => Done(None)
    case Returned(result) => Done(Some(result))
  }

  /** `write_to_mem()`'s reading: whether the write was reported done. */
  function WriteResult(o: ExecOutcome): (r: Outcome<bool>)
    ensures r.Hangs? <==> o.Hung?
  {
    match o
    case Hung => Hangs
    case Raised(_) => Done(false)
    case Returned(_) => Done(true)
  }

  const PIN_SDA: int := 1
  const PIN_SCL: int := 2
  const I2C_FREQ: int := 100000

  /** The I2C set-up code `connect_and_init` runs. */
  const I2C_INIT_CODE: string :=
    "\nimport machine\nimport time\ntry:\n    i2c = machine.SoftI2C(sda=machine.Pin(" + IntToDecimal(PIN_SDA) +
    "), scl=machine.Pin(" + IntToDecimal(PIN_SCL) + "), freq=" + IntToDecimal(I2C_FREQ) +
    ")\n    status = \"OK\"\nexcept Exception as e:\n    status = str(e)\n"

  const SCAN_CODE: string := "print(i2c.scan())"

  function ReadFromMemCode(address: int, register: int, numBytes: int): string
  {
    "print(i2c.readfrom_mem(" + IntToDecimal(address) + ", " + IntToDecimal(register) + ", " +
    IntToDecimal(numBytes) + "))"
  }

  function WriteToMemCode(address: int, register: int, dataByte: int): string
  {
    "i2c.writeto_mem(" + IntToDecimal(address) + ", " + IntToDecimal(register) + ", bytes([" +
    IntToDecimal(dataByte) + "]))"
  }

  /** The client object. `ESPI2C(port)` in the source is this constructor
      followed by `ConnectAndInit`; a `Raised` outcome of that call is the
      exception that escapes the Python constructor. Opening and closing the
      port are not modelled. */
  class ESPI2C {
    const ser: SerialPort

    constructor (ser: SerialPort)
      ensures this.ser == ser
    {
      this.ser := ser;
    }

    method ConnectAndInit() returns (out: ExecOutcome)
      modifies ser
      ensures ser.trace == old(ser.trace) + [Event.Write([CTRL_C]), Event.Write([CTRL_A]), Event.ReadAll] +
        ExecTrace(I2C_INIT_CODE)
      ensures out == Reply(LaterBursts(LaterBursts(old(ser.inbox))))
      ensures ser.inbox == Unread(LaterBursts(LaterBursts(old(ser.inbox))))
    {
      ser.Write([CTRL_C]);
      ser.Write([CTRL_A]);
      var banner := ser.ReadAll();  // discarded
      out := ExecRaw(I2C_INIT_CODE);
    }

    method ExecRaw(code: string) returns (out: ExecOutcome)
      modifies ser
      ensures ser.trace == old(ser.trace) + ExecTrace(code)
      ensures out == Reply(LaterBursts(old(ser.inbox)))
      ensures ser.inbox == Unread(LaterBursts(old(ser.inbox)))
    {
      ser.Write([CTRL_A]);
      var ack := ser.ReadAll();  // discarded
      ser.Write(Encode(code) + [CTRL_D]);
      var ret, prompted := ReadReply();
      out := if prompted then ParseResponse(ret) else Hung;
    }

    /** The read loop of `exec_raw`: poll and accumulate until the buffer ends
        with the completion marker. The source loops forever when the marker
        never comes; here the loop ends when no burst is left. */
    method ReadReply() returns (ret: seq<byte>, prompted: bool)
      modifies ser`inbox
      ensures prompted <==> FirstPrompt(old(ser.inbox)).Some?
      ensures prompted ==> ret == Flatten(old(ser.inbox)[..FirstPrompt(old(ser.inbox)).value])
      ensures !prompted ==> ret == Flatten(old(ser.inbox))
      ensures ser.inbox == Unread(old(ser.inbox))
    {
      ghost var chunks := ser.inbox;
      ghost var k: nat := 0;
      ret := [];
      prompted := false;
      while !prompted && ser.inbox != []
        invariant k <= |chunks| && ser.inbox == chunks[k..]
        invariant ret == Flatten(chunks[..k])
        invariant prompted ==> StopsAt(chunks, k)
        invariant !prompted ==> forall j :: 0 <= j <= k ==> !Prompted(Flatten(chunks[..j]))
        decreases |ser.inbox|
      {
        var chunk := ser.Poll();
        FlattenSnoc(chunks, k);
        k := k + 1;
        if |chunk| > 0 {
          ret := ret + chunk;
          if Prompted(ret) {
            prompted := true;
          }
        }
      }
      FirstPromptExact(chunks, k);
      if !prompted {
        assert chunks[..|chunks|] == chunks;
      }
    }

    method Scan() returns (r: Outcome<seq<int>>)
      modifies ser
      ensures ser.trace == old(ser.trace) + ExecTrace(SCAN_CODE)
      ensures r == ScanResult(Reply(LaterBursts(old(ser.inbox))))
      ensures ser.inbox == Unread(LaterBursts(old(ser.inbox)))
    {
      var out := ExecRaw(SCAN_CODE);
      match out {
        case Hung =>
          r := Hangs;
        case Raised(_) =>
          r := Done([]);  // "Scan failed" is printed
        case Returned(result) =>
          if result != "" {
            match ParseIntList(result) {
              case Some(xs) => r := Done(xs);
              case None => r := Done([]);  // the evaluation fails: "Scan failed"
            }
          } else {
            r := Done([]);
          }
      }
    }

    method ReadFromMem(address: int, register: int, numBytes: int := 1) returns (r: Outcome<Option<string>>)
      modifies ser
      ensures ser.trace == old(ser.trace) + ExecTrace(ReadFromMemCode(address, register, numBytes))
      ensures r == ReadResult(Reply(LaterBursts(old(ser.inbox))))
      ensures ser.inbox == Unread(LaterBursts(old(ser.inbox)))
    {
      var out := ExecRaw(ReadFromMemCode(address, register, numBytes));
      match out {
        case Hung => r := Hangs;
        case Raised(_) => r := Done(None);  // "Read failed" is printed
        case Returned(result) => r := Done(Some(result));
      }
    }

    method WriteToMem(address: int, register: int, dataByte: int) returns (r: Outcome<bool>)
      modifies ser
      ensures ser.trace == old(ser.trace) + ExecTrace(WriteToMemCode(address, register, dataByte))
      ensures r == WriteResult(Reply(LaterBursts(old(ser.inbox))))
      ensures ser.inbox == Unread(LaterBursts(old(ser.inbox)))
    {
      var out := ExecRaw(WriteToMemCode(address, register, dataByte));
      match out {
        case Hung => r := Hangs;
        case Raised(_) => r := Done(false);  // "Write failed" is printed
        case Returned(_) => r := Done(true);  // "Wrote ..." is printed
      }
    }
  }

  // ---------------------------------------------------------------------
  // Properties of the framing

  /** A buffer the read loop accepts splits into at least two segments, so
      the `return ""` fallback after the loop is never reached. */
  lemma PromptedSplitsInTwo(ret: seq<byte>)
    requires Prompted(ret)
    ensures |Split(ret, CTRL_D)| >= 2
  {
    assert ret[|ret| - 2] == CTRL_D;
    SplitAtLeastTwo(ret, CTRL_D);
  }

  /** A reply with no 0x04 byte at all never completes: the client waits forever. */
  lemma NoMarkerHangs(chunks: seq<seq<byte>>)
    requires CTRL_D !in Flatten(chunks)
    ensures Reply(chunks) == Hung
  {
    forall j | 0 <= j <= |chunks|
      ensures !Prompted(Flatten(chunks[..j]))
    {
      FlattenSplit(chunks, j);
      var p := Flatten(chunks[..j]);
      if |p| >= 2 {
        assert p[|p| - 2] == Flatten(chunks)[|p| - 2];
      }
    }
    FirstPromptExact(chunks, 0);
  }

  lemma NoCtrlDInEncoding(s: string)
    requires '\U{4}' !in s
    ensures CTRL_D !in Encode(s)
  {
    if CTRL_D in Encode(s) {
      AsciiByteInEncoding(s, CTRL_D);
    }
  }

  lemma FirstByteNotPrompt(s: string)
    requires s != [] && s[0] != '>'
    ensures Encode(s) != [] && Encode(s)[0] != PROMPT
  {
    assert Encode(s)[0] == EncodeChar(s[0])[0];
  }

  /** In `A 0x04 B 0x04 '>'` with no 0x04 inside A or B, and B not starting
      with '>', no proper prefix ends with the completion marker. */
  lemma OnlyFinalPrompt(a: seq<byte>, b: seq<byte>, n: nat)
    requires CTRL_D !in a && CTRL_D !in b && (b == [] || b[0] != PROMPT)
    requires n < |a + [CTRL_D] + b + COMPLETION|
    ensures !Prompted((a + [CTRL_D] + b + COMPLETION)[..n])
  {
    var full := a + [CTRL_D] + b + COMPLETION;
    var p := full[..n];
    if n >= 2 {
      var i := n - 2;
      if i < |a| {
        assert full[i] == a[i];
      } else if i == |a| {
        assert full[i + 1] == if b == [] then CTRL_D else b[0];
      } else {
        assert full[i] == b[i - |a| - 1];
      }
      assert p[|p| - 2..] == [full[i], full[i + 1]];
    }
  }

  /** When the device's reply is `out 0x04 err 0x04 '>'` (with no 0x04 of
      their own and `err` not starting with '>'), the loop reads it whole,
      however the link cuts it into bursts. */
  lemma WholeReplyParsed(out: string, err: string, chunks: seq<seq<byte>>)
    requires '\U{4}' !in out && '\U{4}' !in err && (err == "" || err[0] != '>')
    requires Flatten(chunks) == Encode(out) + [CTRL_D] + Encode(err) + COMPLETION
    ensures Reply(chunks) == ParseResponse(Flatten(chunks))
  {
    var full := Flatten(chunks);
    assert chunks[..|chunks|] == chunks;
    assert full[|full| - 2..] == COMPLETION;
    assert !NeverPrompts(chunks);
    var k := FirstPrompt(chunks).value;
    FlattenSplit(chunks, k);
    var p := Flatten(chunks[..k]);
    assert p == full[..|p|];
    NoCtrlDInEncoding(out);
    NoCtrlDInEncoding(err);
    if err != "" {
      FirstByteNotPrompt(err);
    }
    if |p| < |full| {
      OnlyFinalPrompt(Encode(out), Encode(err), |p|);
    }
    assert p == full;
  }

  /** The split keeps the first two 0x04-segments: the output is the first,
      decoded, stripped and with one leading "OK" removed (and not stripped
      again); the error is the second, stripped; a non-empty error raises
      instead of returning; whatever follows the second 0x04 is ignored. */
  lemma FramedParse(out: string, err: string, tail: seq<byte>)
    requires '\U{4}' !in out && '\U{4}' !in err
    ensures ParseResponse(Encode(out) + [CTRL_D] + Encode(err) + [CTRL_D] + tail) ==
      if Strip(err) != "" then Raised("ESP32 Error: " + Strip(err)) else Returned(RemoveOk(Strip(out)))
  {
    var a := Encode(out);
    var b := Encode(err);
    NoCtrlDInEncoding(out);
    NoCtrlDInEncoding(err);
    assert a + [CTRL_D] + b + [CTRL_D] + tail == a + [CTRL_D] + (b + [CTRL_D] + tail);
    SplitPrefix(a, CTRL_D, b + [CTRL_D] + tail);
    SplitPrefix(b, CTRL_D, tail);
    RoundTrip(out, Replace);
    RoundTrip(err, Replace);
  }

  /** The acknowledgement is removed from stripped output, whatever
      whitespace (such as the line break `print` ends with) follows it. */
  lemma AcknowledgedText(printed: string, trail: string)
    requires Strip(printed) == printed
    requires forall i :: 0 <= i < |trail| ==> IsSpace(trail[i])
    ensures Strip("OK" + printed + trail) == "OK" + printed
    ensures RemoveOk("OK" + printed) == printed
  {
    TrimPrepend("OK", printed, IsSpace);
    TrimEnds("OK" + printed, IsSpace);
    TrimTrailing("OK" + printed, trail, IsSpace);
    assert ("OK" + printed)[..2] == "OK" && ("OK" + printed)[2..] == printed;
  }

  /** An acknowledged reply with an empty error parses to the printed text. */
  lemma ParseAcknowledged(printed: string, trail: string)
    requires '\U{4}' !in printed && Strip(printed) == printed
    requires forall i :: 0 <= i < |trail| ==> IsSpace(trail[i])
    ensures ParseResponse(Encode("OK" + printed + trail) + [CTRL_D, CTRL_D, PROMPT]) == Returned(printed)
  {
    var out := "OK" + printed + trail;
    var e := Encode(out);
    assert Encode("") == [];
    assert e + [CTRL_D, CTRL_D, PROMPT] == e + [CTRL_D] + Encode("") + [CTRL_D] + [PROMPT];
    assert !IsSpace('\U{4}');
    assert '\U{4}' !in out;
    FramedParse(out, "", [PROMPT]);
    TrimKeeps("", IsSpace);
    AcknowledgedText(printed, trail);
  }

  /** End to end: when the device acknowledges with "OK", prints `printed`
      (no 0x04, nothing to strip) followed by whitespace such as `print`'s
      "\r\n", and reports no error, `exec_raw` returns exactly `printed`,
      however the reply is cut into bursts. */
  lemma ExecReturnsPrinted(printed: string, trail: string, chunks: seq<seq<byte>>)
    requires '\U{4}' !in printed && Strip(printed) == printed
    requires forall i :: 0 <= i < |trail| ==> IsSpace(trail[i])
    requires Flatten(chunks) == Encode("OK" + printed + trail) + [CTRL_D, CTRL_D, PROMPT]
    ensures Reply(chunks) == Returned(printed)
  {
    var out := "OK" + printed + trail;
    var e := Encode(out);
    assert Encode("") == [];
    assert e + [CTRL_D, CTRL_D, PROMPT] == e + [CTRL_D] + Encode("") + COMPLETION;
    assert !IsSpace('\U{4}');
    assert '\U{4}' !in out;
    WholeReplyParsed(out, "", chunks);
    ParseAcknowledged(printed, trail);
  }

  /** End to end: a non-empty error segment makes `exec_raw` raise with it. */
  lemma ExecRaisesRemoteError(err: string, chunks: seq<seq<byte>>)
    requires '\U{4}' !in err && err != "" && err[0] != '>' && Strip(err) != ""
    requires Flatten(chunks) == Encode("OK") + [CTRL_D] + Encode(err) + COMPLETION
    ensures Reply(chunks) == Raised("ESP32 Error: " + Strip(err))
  {
    WholeReplyParsed("OK", err, chunks);
    var a := Encode("OK");
    var b := Encode(err);
    assert a + [CTRL_D] + b + COMPLETION == a + [CTRL_D] + b + [CTRL_D] + [PROMPT];
    FramedParse("OK", err, [PROMPT]);
  }

  /** The loop stops at the first burst after which the buffer ends with the
      marker, even inside the error text: an error segment that starts with
      '>' and arrives in a later burst is cut to ">" and the rest stays unread. */
  lemma PromptInsideErrorTruncates(rest: seq<byte>)
    ensures Reply([Encode("OK") + COMPLETION, rest]) == Raised("ESP32 Error: >")
    ensures Unread([Encode("OK") + COMPLETION, rest]) == [rest]
  {
    var first := Encode("OK") + COMPLETION;
    assert first[|first| - 2..] == COMPLETION;
    FirstBurstPrompted(first, rest);
    PromptAsError();
  }

  /** A first burst that ends with the marker is all `exec_raw` reads. */
  lemma FirstBurstPrompted(first: seq<byte>, rest: seq<byte>)
    requires Prompted(first)
    ensures Reply([first, rest]) == ParseResponse(first)
    ensures Unread([first, rest]) == [rest]
  {
    var chunks := [first, rest];
    assert Flatten(chunks[..1]) == first by {
      assert chunks[..1][..0] == chunks[..0];
    }
    assert StopsAt(chunks, 1) by {
      assert |chunks[..0]| == 0;
    }
    FirstPromptExact(chunks, 1);
  }

  /** The second segment of "OK" Ctrl-D '>' is the prompt character itself. */
  lemma PromptAsError()
    ensures ParseResponse(Encode("OK") + COMPLETION) == Raised("ESP32 Error: >")
  {
    NoCtrlDInEncoding("OK");
    assert Encode("OK") + COMPLETION == Encode("OK") + [CTRL_D] + [PROMPT];
    SplitPrefix(Encode("OK"), CTRL_D, [PROMPT]);
    SplitFree([PROMPT], CTRL_D);
    PromptText();
  }

  // Only splits out a literal fact, to keep the proof that uses it cheap.
  lemma PromptText()
    ensures Strip(Decode([PROMPT], Replace)) == ">"
  {
    assert Encode(">") == [PROMPT];
    RoundTrip(">", Replace);
    TrimKeeps(">", IsSpace);
  }

  /** Only one leading "OK" is removed. */
  lemma AcknowledgementRemovedOnce()
    ensures ParseResponse(Encode("OKOK") + [CTRL_D, CTRL_D, PROMPT]) == Returned("OK")
  {
    assert Strip("OK") == "OK" by {
      TrimKeeps("OK", IsSpace);
    }
    assert "OK" + "OK" + "" == "OKOK";
    ParseAcknowledged("OK", "");
  }

  /** The output is stripped before the "OK" is removed, not after. */
  lemma OutputNotStrippedAgain()
    ensures ParseResponse(Encode("OK 5") + [CTRL_D, CTRL_D, PROMPT]) == Returned(" 5")
  {
    var e := Encode("OK 5");
    assert e + [CTRL_D, CTRL_D, PROMPT] == e + [CTRL_D] + Encode("") + [CTRL_D] + [PROMPT] by {
      assert Encode("") == [];
    }
    FramedParse("OK 5", "", [PROMPT]);
    assert Strip("") == "" by {
      TrimKeeps("", IsSpace);
    }
    assert Strip("OK 5") == "OK 5" by {
      TrimKeeps("OK 5", IsSpace);
    }
    assert RemoveOk("OK 5") == " 5" by {
      assert "OK 5"[..2] == "OK";
    }
  }

  /** `exec_raw` writes Ctrl-A, the code and Ctrl-D, in that order, with no
      newline added, and sends no Ctrl-C unless the code itself holds one. */
  lemma ExecWrites(code: string)
    ensures Written(ExecTrace(code)) == [CTRL_A] + Encode(code) + [CTRL_D]
    ensures '\U{3}' !in code ==> CTRL_C !in Written(ExecTrace(code))
  {
    var t := ExecTrace(code);
    assert Written(t[2..]) == Encode(code) + [CTRL_D] by {
      assert t[2..][1..] == [];
    }
    assert Written(t[1..]) == Written(t[2..]) by {
      assert t[1..][1..] == t[2..];
    }
    assert t[1..] == t[1..];
    if '\U{3}' !in code && CTRL_C in Encode(code) {
      AsciiByteInEncoding(code, CTRL_C);
    }
  }

  // ---------------------------------------------------------------------
  // Properties of the I2C commands

  /** `scan()` returns the list the device printed, for every list and
      whatever whitespace the printed line ends with. */
  lemma ScanReadsPrintedList(xs: seq<int>, trail: string, chunks: seq<seq<byte>>)
    requires forall i :: 0 <= i < |trail| ==> IsSpace(trail[i])
    requires Flatten(chunks) == Encode("OK" + ShowIntList(xs) + trail) + [CTRL_D, CTRL_D, PROMPT]
    ensures ScanResult(Reply(chunks)) == Done(xs)
  {
    ShowIntListPlain(xs);
    ExecReturnsPrinted(ShowIntList(xs), trail, chunks);
    ParseShowIntList(xs);
  }

  /** A non-empty scan result is exactly the repr of the list the device
      printed; every other outcome (no output, a remote error, text the
      strict reader rejects) gives the empty list. */
  lemma ScanNonEmptyMeansListPrinted(o: ExecOutcome, xs: seq<int>)
    requires ScanResult(o) == Done(xs) && xs != []
    ensures o == Returned(ShowIntList(xs))
  {
    ShowParseIntList(o.output, xs);
  }

  /** A remote error makes `scan()` return [] and `read_from_mem()` None. */
  lemma RemoteErrorSwallowed(err: string, chunks: seq<seq<byte>>)
    requires '\U{4}' !in err && err != "" && err[0] != '>' && Strip(err) != ""
    requires Flatten(chunks) == Encode("OK") + [CTRL_D] + Encode(err) + COMPLETION
    ensures ScanResult(Reply(chunks)) == Done([])
    ensures ReadResult(Reply(chunks)) == Done(None)
    ensures WriteResult(Reply(chunks)) == Done(false)
  {
    ExecRaisesRemoteError(err, chunks);
  }

  // Only splits out a literal fact, to keep the proofs that use it cheap.
  lemma ShowExample()
    ensures ShowIntList([8, 52]) == "[8, 52]"
  {
    assert IntToDecimal(52) == "52" by {
      assert NatToDigits(5) == "5";
    }
    assert Items([52], false) == [" 52"] by {
      assert " " + IntToDecimal(52) == " 52";
      assert [52][1..] == [];
      assert Items([52][1..], false) == [];
    }
    assert Items([8, 52], true) == ["8", " 52"] by {
      assert IntToDecimal(8) == "8";
      assert "" + IntToDecimal(8) == "8";
      assert [8, 52][1..] == [52];
    }
    assert Join(["8", " 52"], ',') == "8, 52" by {
      assert ["8", " 52"][1..] == [" 52"];
    }
  }

  /** The scan example: "OK[8, 52]\r\n" then 0x04 0x04 '>' reads as [8, 52]. */
  lemma ScanExample(chunks: seq<seq<byte>>)
    requires Flatten(chunks) == Encode("OK[8, 52]\r\n") + [CTRL_D, CTRL_D, PROMPT]
    ensures ScanResult(Reply(chunks)) == Done([8, 52])
  {
    ScanExampleText();
    ScanReadsPrintedList([8, 52], "\r\n", chunks);
  }

  // Only splits out literal facts, to keep the proof that uses them cheap.
  lemma ScanExampleText()
    ensures "OK" + ShowIntList([8, 52]) + "\r\n" == "OK[8, 52]\r\n"
    ensures forall i :: 0 <= i < |"\r\n"| ==> IsSpace("\r\n"[i])
  {
    ShowExample();
  }

  /** The register-read example: the printed bytes literal comes back as
      text, without the line break `print` adds. */
  lemma ReadRegisterExample(chunks: seq<seq<byte>>)
    requires Flatten(chunks) == Encode("OKb'\\x05'\r\n") + [CTRL_D, CTRL_D, PROMPT]
    ensures ReadResult(Reply(chunks)) == Done(Some("b'\\x05'"))
  {
    var printed := "b'\\x05'";
    RegisterLiteralPlain();
    ExecReturnsPrinted(printed, "\r\n", chunks);
  }

  // Only splits out literal facts, to keep the proof that uses them cheap.
  lemma RegisterLiteralPlain()
    ensures '\U{4}' !in "b'\\x05'" && Strip("b'\\x05'") == "b'\\x05'"
    ensures "OK" + "b'\\x05'" + "\r\n" == "OKb'\\x05'\r\n"
    ensures forall i :: 0 <= i < |"\r\n"| ==> IsSpace("\r\n"[i])
  {
    var printed := "b'\\x05'";
    TrimKeeps(printed, IsSpace);
    assert forall i :: 0 <= i < |printed| ==> printed[i] != '\U{4}';
  }

  lemma CommaFreeRendering(n: int)
    ensures ',' !in IntToDecimal(n)
  {
    RenderedChars(n);
  }

  /** The register-read code is three comma-free fields joined by commas. */
  lemma ReadFromMemFields(a: int, r: int, n: int)
    ensures ReadFromMemCode(a, r, n) ==
      Join(["print(i2c.readfrom_mem(" + IntToDecimal(a), " " + IntToDecimal(r), " " + IntToDecimal(n) + "))"], ',')
  {
    ReadFieldsOf(IntToDecimal(a), IntToDecimal(r), IntToDecimal(n));
  }

  lemma ReadFieldsOf(a: string, r: string, n: string)
    ensures "print(i2c.readfrom_mem(" + a + ", " + r + ", " + n + "))" ==
      Join(["print(i2c.readfrom_mem(" + a, " " + r, " " + n + "))"], ',')
  {
    var f := ["print(i2c.readfrom_mem(" + a, " " + r, " " + n + "))"];
    assert f[1..] == [f[1], f[2]] && f[1..][1..] == [f[2]];
    assert Join(f[1..], ',') == f[1] + [','] + f[2];
    assert ", " == [','] + " ";
  }

  /** Three comma-free fields are recovered from their comma-joined text. */
  lemma ThreeFieldsInjective(f: seq<string>, g: seq<string>)
    requires |f| == 3 && |g| == 3
    requires forall i :: 0 <= i < 3 ==> ',' !in f[i] && ',' !in g[i]
    requires Join(f, ',') == Join(g, ',')
    ensures f == g
  {
    SplitJoin(f, ',');
    SplitJoin(g, ',');
  }

  /** The register-read code determines its three arguments. */
  lemma ReadFromMemCodeInjective(a: int, r: int, n: int, a': int, r': int, n': int)
    requires ReadFromMemCode(a, r, n) == ReadFromMemCode(a', r', n')
    ensures a == a' && r == r' && n == n'
  {
    CommaFreeRendering(a); CommaFreeRendering(r); CommaFreeRendering(n);
    CommaFreeRendering(a'); CommaFreeRendering(r'); CommaFreeRendering(n');
    ReadArgumentsOf(IntToDecimal(a), IntToDecimal(r), IntToDecimal(n),
      IntToDecimal(a'), IntToDecimal(r'), IntToDecimal(n'));
    RenderInjective(a, a');
    RenderInjective(r, r');
    RenderInjective(n, n');
  }

  lemma ReadArgumentsOf(a: string, r: string, n: string, a': string, r': string, n': string)
    requires ',' !in a && ',' !in r && ',' !in n && ',' !in a' && ',' !in r' && ',' !in n'
    requires "print(i2c.readfrom_mem(" + a + ", " + r + ", " + n + "))" ==
      "print(i2c.readfrom_mem(" + a' + ", " + r' + ", " + n' + "))"
    ensures a == a' && r == r' && n == n'
  {
    var head := "print(i2c.readfrom_mem(";
    var f := [head + a, " " + r, " " + n + "))"];
    var g := [head + a', " " + r', " " + n' + "))"];
    ReadFieldsOf(a, r, n);
    ReadFieldsOf(a', r', n');
    assert ',' !in head;
    ThreeFieldsInjective(f, g);
    assert f[0][|head|..] == a && g[0][|head|..] == a';
    assert f[1][1..] == r && g[1][1..] == r';
    assert f[2][1..|f[2]| - 2] == n && g[2][1..|g[2]| - 2] == n';
  }

  /** The register-write code is three comma-free fields joined by commas. */
  lemma WriteToMemFields(a: int, r: int, d: int)
    ensures WriteToMemCode(a, r, d) ==
      Join(["i2c.writeto_mem(" + IntToDecimal(a), " " + IntToDecimal(r), " bytes([" + IntToDecimal(d) + "]))"], ',')
  {
    WriteFieldsOf(IntToDecimal(a), IntToDecimal(r), IntToDecimal(d));
  }

  lemma WriteFieldsOf(a: string, r: string, d: string)
    ensures "i2c.writeto_mem(" + a + ", " + r + ", bytes([" + d + "]))" ==
      Join(["i2c.writeto_mem(" + a, " " + r, " bytes([" + d + "]))"], ',')
  {
    var f := ["i2c.writeto_mem(" + a, " " + r, " bytes([" + d + "]))"];
    assert f[1..] == [f[1], f[2]] && f[1..][1..] == [f[2]];
    assert Join(f[1..], ',') == f[1] + [','] + f[2];
    assert ", " == [','] + " ";
    assert ", bytes([" == [','] + " bytes([";
  }

  /** The register-write code determines its three arguments. */
  lemma WriteToMemCodeInjective(a: int, r: int, d: int, a': int, r': int, d': int)
    requires WriteToMemCode(a, r, d) == WriteToMemCode(a', r', d')
    ensures a == a' && r == r' && d == d'
  {
    CommaFreeRendering(a); CommaFreeRendering(r); CommaFreeRendering(d);
    CommaFreeRendering(a'); CommaFreeRendering(r'); CommaFreeRendering(d');
    WriteArgumentsOf(IntToDecimal(a), IntToDecimal(r), IntToDecimal(d),
      IntToDecimal(a'), IntToDecimal(r'), IntToDecimal(d'));
    RenderInjective(a, a');
    RenderInjective(r, r');
    RenderInjective(d, d');
  }

  lemma WriteArgumentsOf(a: string, r: string, d: string, a': string, r': string, d': string)
    requires ',' !in a && ',' !in r && ',' !in d && ',' !in a' && ',' !in r' && ',' !in d'
    requires "i2c.writeto_mem(" + a + ", " + r + ", bytes([" + d + "]))" ==
      "i2c.writeto_mem(" + a' + ", " + r' + ", bytes([" + d' + "]))"
    ensures a == a' && r == r' && d == d'
  {
    var head := "i2c.writeto_mem(";
    var f := [head + a, " " + r, " bytes([" + d + "]))"];
    var g := [head + a', " " + r', " bytes([" + d' + "]))"];
    WriteFieldsOf(a, r, d);
    WriteFieldsOf(a', r', d');
    assert ',' !in head && ',' !in " bytes([" && ',' !in "]))";
    ThreeFieldsInjective(f, g);
    assert f[0][|head|..] == a && g[0][|head|..] == a';
    assert f[1][1..] == r && g[1][1..] == r';
    assert f[2][8..|f[2]| - 3] == d && g[2][8..|g[2]| - 3] == d';
  }
}
