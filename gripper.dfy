/** The servo gripper sketch gripper/src/main.cpp: characters from the
    serial port collect in a line buffer; a line terminator completes a
    non-empty line, which is read as an angle and, when it lies in
    [0, 180], written to the servo. Servo writes and printed lines are
    recorded in order. */
module Gripper {
  import opened Seqs
  import opened Text
  import opened CText

  const SERVO_PIN: int := 13
  const CENTER_ANGLE: int := 90
  const MIN_ANGLE: int := 0
  const MAX_ANGLE: int := 180

  const READY_LINE: string := "Servo Control Ready"
  const USAGE_LINE: string := "Send angle (0-180) via serial to move servo"
  const RANGE_ERROR_LINE: string := "Error: Angle must be between 0 and 180"

  predicate IsTerminator(c: char)
  {
    c == '\n' || c == '\r'
  }

  /** The characters of `s` the loop appends to the buffer: all but the
      terminators, in order. */
  function Kept(s: string): (r: string)
    ensures |r| <= |s|
    ensures forall i :: 0 <= i < |r| ==> !IsTerminator(r[i])
  {
    if s == [] then []
    else Kept(s[..|s| - 1]) + (if IsTerminator(s[|s| - 1]) then [] else [s[|s| - 1]])
  }

  /** Whether reading `burst` onto the buffer `buffer` completes a line: some
      terminator arrives while the buffer (with what has been appended of
      the burst so far) is non-empty. */
  predicate CompletedBy(buffer: string, burst: string)
  {
    exists j :: 0 <= j < |burst| && IsTerminator(burst[j]) && buffer + Kept(burst[..j]) != []
  }

  /** The angle `toInt` reads from the trimmed buffer. */
  function ParsedAngle(buffer: string): int
  {
    LeadingInt(TrimLine(buffer))
  }

  /** The line printed for a processed angle. */
  function Report(angle: int): string
  {
    if MIN_ANGLE <= angle <= MAX_ANGLE then "Moving servo to: " + IntToDecimal(angle) + " degrees"
    else RANGE_ERROR_LINE
  }

  class Sketch {
    var inputString: string
    var stringComplete: bool
    /** Angles written to the servo, oldest first. */
    var servoWrites: seq<int>
    /** Lines printed on the serial port, oldest first. */
    var printed: seq<string>

    /** The buffer never holds a terminator, and a complete line is non-empty. */
    predicate Valid()
      reads this
    {
      (forall i :: 0 <= i < |inputString| ==> !IsTerminator(inputString[i])) &&
      (stringComplete ==> inputString != [])
    }

    /** `setup()`: centre the servo and print the two greeting lines. */
    constructor ()
      ensures Valid()
      ensures inputString == "" && !stringComplete
      ensures servoWrites == [CENTER_ANGLE] && printed == [READY_LINE, USAGE_LINE]
    {
      inputString := "";
      stringComplete := false;
      servoWrites := [CENTER_ANGLE];
      printed := [READY_LINE, USAGE_LINE];
    }

    /** The `while (Serial.available())` loop over the characters that have
        arrived: every one is consumed, terminators are dropped, everything
        else (also after a terminator) goes into the same buffer. */
    method ReadAvailable(burst: string)
      requires Valid()
      modifies this
      ensures Valid()
      ensures inputString == old(inputString) + Kept(burst)
      ensures stringComplete == (old(stringComplete) || CompletedBy(old(inputString), burst))
      ensures servoWrites == old(servoWrites) && printed == old(printed)
    {
      var i := 0;
      while i < |burst|
        invariant 0 <= i <= |burst|
        invariant inputString == old(inputString) + Kept(burst[..i])
        invariant stringComplete == (old(stringComplete) || CompletedBy(old(inputString), burst[..i]))
        invariant servoWrites == old(servoWrites) && printed == old(printed)
        invariant Valid()
      {
        var inChar := burst[i];
        assert burst[..i + 1][..i] == burst[..i];
        assert burst[..i + 1][i] == inChar;
        if inChar == '\n' || inChar == '\r' {
          if |inputString| > 0 {
            stringComplete := true;
          }
        } else {
          inputString := inputString + [inChar];
        }
        CompletedStep(old(inputString), burst, i);
        i := i + 1;
      }
      assert burst[..i] == burst;
    }

    /** Process a complete line: write the angle to the servo when it is in
        range and report it, or print the range error; then clear the buffer. */
    method Process()
      modifies this`inputString, this`stringComplete, this`servoWrites, this`printed
      ensures old(stringComplete) ==>
        var angle := ParsedAngle(old(inputString));
        && servoWrites == old(servoWrites) + (if MIN_ANGLE <= angle <= MAX_ANGLE then [angle] else [])
        && printed == old(printed) + [Report(angle)]
        && inputString == ""
      ensures !old(stringComplete) ==>
        servoWrites == old(servoWrites) && printed == old(printed) && inputString == old(inputString)
      ensures !stringComplete
    {
      if stringComplete {
        var angle := ReadAngle();
        MoveTo(angle);
        inputString := "";
        stringComplete := false;
      }
    }

    /** `inputString.trim()`, which works in place, then `toInt()`. */
    method ReadAngle() returns (angle: int)
      modifies this`inputString
      ensures angle == ParsedAngle(old(inputString)) && inputString == TrimLine(old(inputString))
    {
      inputString := TrimLine(inputString);
      angle := LeadingInt(inputString);
    }

    /** The range check on a requested angle: in range, the servo moves and
        the move is reported; otherwise only the range error is printed. */
    method MoveTo(angle: int)
      modifies this`servoWrites, this`printed
      ensures servoWrites == old(servoWrites) + (if MIN_ANGLE <= angle <= MAX_ANGLE then [angle] else [])
      ensures printed == old(printed) + [Report(angle)]
    {
      if angle >= 0 && angle <= 180 {
        servoWrites := servoWrites + [angle];
        printed := printed + ["Moving servo to: " + IntToDecimal(angle) + " degrees"];
      } else {
        printed := printed + [RANGE_ERROR_LINE];
      }
    }

    /** One pass of `loop()` with `burst` the characters available. */
    method Loop(burst: string)
      requires Valid()
      modifies this
      ensures Valid()
      ensures var complete := old(stringComplete) || CompletedBy(old(inputString), burst);
        var buffer := old(inputString) + Kept(burst);
        if complete then
          && servoWrites == old(servoWrites) +
               (if MIN_ANGLE <= ParsedAngle(buffer) <= MAX_ANGLE then [ParsedAngle(buffer)] else [])
          && printed == old(printed) + [Report(ParsedAngle(buffer))]
          && inputString == "" && !stringComplete
        else
          && servoWrites == old(servoWrites) && printed == old(printed)
          && inputString == buffer && !stringComplete
    {
      ReadAvailable(burst);
      Process();
    }
  }

  /** One more character of the burst: a terminator completes the line
      exactly when the buffer is non-empty, any other character completes
      nothing. */
  lemma CompletedStep(buffer: string, burst: string, i: nat)
    requires i < |burst|
    ensures CompletedBy(buffer, burst[..i + 1]) <==>
      CompletedBy(buffer, burst[..i]) || (IsTerminator(burst[i]) && buffer + Kept(burst[..i]) != [])
  {
    var s := burst[..i + 1];
    assert s[..i] == burst[..i];
    if IsTerminator(burst[i]) && buffer + Kept(burst[..i]) != [] {
      assert s[i] == burst[i];
      assert s[..i] == burst[..i];
    }
    if CompletedBy(buffer, burst[..i]) {
      var j :| 0 <= j < i && IsTerminator(burst[..i][j]) && buffer + Kept(burst[..i][..j]) != [];
      assert s[j] == burst[..i][j] && s[..j] == burst[..i][..j];
    }
    if CompletedBy(buffer, s) {
      var j :| 0 <= j < |s| && IsTerminator(s[j]) && buffer + Kept(s[..j]) != [];
      if j < i {
        assert burst[..i][j] == s[j] && burst[..i][..j] == s[..j];
      }
    }
  }

  /** Terminators alone never complete a line on an empty buffer, so the
      '\n' of a "\r\n" pair, or a blank line, triggers nothing. */
  lemma TerminatorsOnEmptyBuffer(burst: string)
    requires forall i :: 0 <= i < |burst| ==> IsTerminator(burst[i])
    ensures Kept(burst) == []
    ensures !CompletedBy("", burst)
  {
    KeptTerminators(burst);
    forall j | 0 <= j < |burst|
      ensures "" + Kept(burst[..j]) == []
    {
      KeptTerminators(burst[..j]);
    }
  }

  lemma {:induction false} KeptTerminators(s: string)
    requires forall i :: 0 <= i < |s| ==> IsTerminator(s[i])
    ensures Kept(s) == []
    decreases |s|
  {
    if s != [] {
      KeptTerminators(s[..|s| - 1]);
    }
  }

  lemma {:induction false} KeptPlain(s: string)
    requires forall i :: 0 <= i < |s| ==> !IsTerminator(s[i])
    ensures Kept(s) == s
    decreases |s|
  {
    if s != [] {
      KeptPlain(s[..|s| - 1]);
      assert s[..|s| - 1] + [s[|s| - 1]] == s;
    }
  }

  /** A rendered angle followed by a newline, sent to an empty buffer,
      completes one line that reads back as that angle. */
  lemma AngleLineRoundTrip(n: int)
    ensures Kept(IntToDecimal(n) + "\n") == IntToDecimal(n)
    ensures CompletedBy("", IntToDecimal(n) + "\n")
    ensures ParsedAngle(IntToDecimal(n)) == n
  {
    var d := IntToDecimal(n);
    var s := d + "\n";
    RenderedChars(n);
    RenderedFirst(n);
    assert s[..|d|] == d;
    KeptPlain(d);
    assert Kept(s) == Kept(d) + [];
    assert "" + Kept(s[..|d|]) != [] && IsTerminator(s[|d|]);
    assert d[|d| - 1] != ' ' && !IsCSpace(d[0]);
    LeadingIntOfRendering(n, "");
    assert d + "" == d;
  }

  /** Two angles in one burst are not two commands: the characters after the
      first terminator join the same buffer, so "90\n45" reads as 9045,
      which is out of range. */
  lemma MergedAngles()
    ensures Kept("90\n45") == "9045"
    ensures CompletedBy("", "90\n45")
    ensures ParsedAngle(Kept("90\n45")) == 9045 && Report(9045) == RANGE_ERROR_LINE
  {
    var s := "90\n45";
    KeptMerged();
    assert s[..2] == "90";
    KeptPlain("90");
    assert "" + Kept(s[..2]) != [] && IsTerminator(s[2]);
    RenderedMerged();
    AngleLineRoundTrip(9045);
  }

  lemma KeptMerged()
    ensures Kept("90\n45") == "9045"
  {
    assert "90\n"[..2] == "90";
    KeptPlain("90");
    assert Kept("90\n") == "90";
    assert "90\n4"[..3] == "90\n";
    assert Kept("90\n4") == "904";
    assert "90\n45"[..4] == "90\n4";
  }

  // Only splits out a literal fact, to keep the proof that uses it cheap.
  lemma RenderedMerged()
    ensures IntToDecimal(9045) == "9045"
  {
    assert NatToDigits(9) == "9";
    assert NatToDigits(90) == "90";
    assert NatToDigits(904) == "904";
  }
}
