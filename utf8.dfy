/** Bytes and the control bytes of the MicroPython raw REPL. */
module Bytes {
  import opened Seqs

  type byte = b: int | 0 <= b < 256

  /** Ctrl-A: enter raw REPL mode. */
  const CTRL_A: byte := 0x01
  /** Ctrl-C: interrupt the running program. */
  const CTRL_C: byte := 0x03
  /** Ctrl-D: execute the submitted code; also the raw REPL's segment separator. */
  const CTRL_D: byte := 0x04
  /** The raw REPL prompt character '>'. */
  const PROMPT: byte := 0x3E
  const LF: byte := 0x0A
  const CR: byte := 0x0D

  /** Whitespace as Python's `bytes.strip()` sees it: space, \t, \n, \r, \x0b, \x0c. */
  predicate IsAsciiSpace(b: byte)
  {
    b == 0x20 || (0x09 <= b <= 0x0D)
  }

  /** Python's `bytes.strip()`. */
  function StripBytes(s: seq<byte>): seq<byte>
  {
    Trim(s, IsAsciiSpace)
  }
}

/** UTF-8 as Python's codec implements it: `str.encode('utf-8')` and
    `bytes.decode('utf-8', errors=...)` with the 'replace' and 'ignore'
    handlers. Dafny's `char` is a Unicode scalar value, so every string
    has an encoding. An ill-formed sequence is dealt with one "maximal
    subpart" at a time, as Unicode recommends and CPython does: the
    longest prefix of a well-formed sequence that is present (at least one
    byte) becomes one U+FFFD under 'replace' and nothing under 'ignore'. */
module Utf8 {
  import opened Bytes
  import opened Seqs

  datatype ErrorMode = Replace | Ignore

  const REPLACEMENT_CHARACTER: char := '\U{FFFD}'

  function EncodeChar(c: char): (r: seq<byte>)
    ensures 1 <= |r| <= 4
  {
    var n := c as int;
    if n < 0x80 then [n]
    else if n < 0x800 then [0xC0 + n / 64, 0x80 + n % 64]
    else if n < 0x10000 then [0xE0 + n / 4096, 0x80 + (n / 64) % 64, 0x80 + n % 64]
    else [0xF0 + n / 0x40000, 0x80 + (n / 4096) % 64, 0x80 + (n / 64) % 64, 0x80 + n % 64]
  }

  function Encode(s: string): seq<byte>
  {
    if s == [] then [] else EncodeChar(s[0]) + Encode(s[1..])
  }

  /** Length of the sequence a lead byte starts, 0 for a byte that cannot lead. */
  function SequenceLength(b0: byte): nat
  {
    if b0 < 0x80 then 1
    else if 0xC2 <= b0 <= 0xDF then 2
    else if 0xE0 <= b0 <= 0xEF then 3
    else if 0xF0 <= b0 <= 0xF4 then 4
    else 0
  }

  /** Whether `b` may stand at position `i` (1 to 3) of a sequence led by `b0`
      (Table 3-7 of the Unicode Standard). */
  predicate Continues(b0: byte, i: nat, b: byte)
  {
    if i == 1 && b0 == 0xE0 then 0xA0 <= b <= 0xBF
    else if i == 1 && b0 == 0xED then 0x80 <= b <= 0x9F
    else if i == 1 && b0 == 0xF0 then 0x90 <= b <= 0xBF
    else if i == 1 && b0 == 0xF4 then 0x80 <= b <= 0x8F
    else 0x80 <= b <= 0xBF
  }

  /** A complete well-formed encoding of one scalar value. */
  predicate WellFormed(bs: seq<byte>)
  {
    |bs| >= 1 && SequenceLength(bs[0]) == |bs| &&
    forall j :: 1 <= j < |bs| ==> Continues(bs[0], j, bs[j])
  }

  /** End of the run, from position `i`, of bytes that continue the sequence led by `s[0]`. */
  function Matched(s: seq<byte>, i: nat): (m: nat)
    requires 1 <= i <= |s|
    ensures i <= m <= |s|
    ensures m == i || m <= SequenceLength(s[0])
    decreases |s| - i
  {
    if i < SequenceLength(s[0]) && i < |s| && Continues(s[0], i, s[i]) then Matched(s, i + 1) else i
  }

  function ScalarOf(bs: seq<byte>): (c: char)
    requires WellFormed(bs)
  {
    var b0: int := bs[0];
    var v: int :=
      if |bs| == 1 then b0
      else if |bs| == 2 then (b0 - 0xC0) * 64 + (bs[1] as int - 0x80)
      else if |bs| == 3 then (b0 - 0xE0) * 4096 + (bs[1] as int - 0x80) * 64 + (bs[2] as int - 0x80)
      else (b0 - 0xF0) * 0x40000 + (bs[1] as int - 0x80) * 4096 + (bs[2] as int - 0x80) * 64 + (bs[3] as int - 0x80);
    assert v < 0xD800 || 0xE000 <= v < 0x110000;
    v as char
  }

  function Decode(s: seq<byte>, mode: ErrorMode): string
    decreases |s|
  {
    if s == [] then ""
    else
      var m := Matched(s, 1);
      if WellFormed(s[..m]) then [ScalarOf(s[..m])] + Decode(s[m..], mode)
      else (if mode == Replace then [REPLACEMENT_CHARACTER] else "") + Decode(s[m..], mode)
  }

  lemma EncodeCharWellFormed(c: char)
    ensures WellFormed(EncodeChar(c)) && ScalarOf(EncodeChar(c)) == c
  {
    var n := c as int;
    if n < 0x80 {
    } else if n < 0x800 {
      EncodeTwo(c);
    } else if n < 0x10000 {
      EncodeThree(c);
    } else {
      EncodeFour(c);
    }
  }

  lemma EncodeTwo(c: char)
    requires 0x80 <= c as int < 0x800
    ensures WellFormed(EncodeChar(c)) && ScalarOf(EncodeChar(c)) == c
  {
    var n := c as int;
    assert (n / 64) * 64 + n % 64 == n;
    var e := EncodeChar(c);
    assert e == [0xC0 + n / 64, 0x80 + n % 64];
    assert SequenceLength(e[0]) == 2 && Continues(e[0], 1, e[1]);
  }

  lemma EncodeThree(c: char)
    requires 0x800 <= c as int < 0x10000
    ensures WellFormed(EncodeChar(c)) && ScalarOf(EncodeChar(c)) == c
  {
    var n := c as int;
    var q := n / 64;
    assert q * 64 + n % 64 == n;
    assert (q / 64) * 64 + q % 64 == q;
    assert n / 4096 == q / 64;
    assert n / 4096 == 0 ==> q >= 32;
    assert n / 4096 == 0xD ==> q % 64 < 32;
    var e := EncodeChar(c);
    assert e == [0xE0 + n / 4096, 0x80 + q % 64, 0x80 + n % 64];
    assert SequenceLength(e[0]) == 3 && Continues(e[0], 1, e[1]) && Continues(e[0], 2, e[2]);
  }

  lemma EncodeFour(c: char)
    requires 0x10000 <= c as int
    ensures WellFormed(EncodeChar(c)) && ScalarOf(EncodeChar(c)) == c
  {
    var n := c as int;
    var q := n / 64;
    var r := q / 64;
    assert q * 64 + n % 64 == n;
    assert r * 64 + q % 64 == q;
    assert (r / 64) * 64 + r % 64 == r;
    assert n / 4096 == r;
    assert n / 0x40000 == r / 64;
    assert r / 64 == 0 ==> r % 64 >= 16;
    assert r / 64 == 4 ==> r % 64 < 16;
    var e := EncodeChar(c);
    assert e == [0xF0 + r / 64, 0x80 + r % 64, 0x80 + q % 64, 0x80 + n % 64];
    assert SequenceLength(e[0]) == 4 && Continues(e[0], 1, e[1]) && Continues(e[0], 2, e[2]) && Continues(e[0], 3, e[3]);
  }

  lemma {:induction false} MatchedWellFormed(s: seq<byte>, m: nat, i: nat)
    requires 1 <= i <= m <= |s| && WellFormed(s[..m])
    ensures Matched(s, i) == m
    decreases m - i
  {
    assert s[..m][0] == s[0];
    if i < m {
      assert s[..m][i] == s[i];
      MatchedWellFormed(s, m, i + 1);
    }
  }

  /** Decoding whatever follows a complete character's encoding yields that character first. */
  lemma DecodeEncodeChar(c: char, rest: seq<byte>, mode: ErrorMode)
    ensures Decode(EncodeChar(c) + rest, mode) == [c] + Decode(rest, mode)
  {
    var e := EncodeChar(c);
    var s := e + rest;
    EncodeCharWellFormed(c);
    assert s[..|e|] == e;
    MatchedWellFormed(s, |e|, 1);
    assert s[|e|..] == rest;
  }

  /** The decoder undoes the encoder on any well-formed prefix, whatever follows it. */
  lemma {:induction false} DecodeEncode(s: string, rest: seq<byte>, mode: ErrorMode)
    ensures Decode(Encode(s) + rest, mode) == s + Decode(rest, mode)
    decreases |s|
  {
    if s != [] {
      var tail := Encode(s[1..]) + rest;
      calc {
        Decode(Encode(s) + rest, mode);
        { assert Encode(s) + rest == EncodeChar(s[0]) + tail; }
        Decode(EncodeChar(s[0]) + tail, mode);
        { DecodeEncodeChar(s[0], tail, mode); }
        [s[0]] + Decode(tail, mode);
        { DecodeEncode(s[1..], rest, mode); }
        [s[0]] + (s[1..] + Decode(rest, mode));
        { assert [s[0]] + s[1..] == s; }
        s + Decode(rest, mode);
      }
    } else {
      assert Encode(s) + rest == rest;
    }
  }

  /** Round trip: decoding an encoding gives the string back, under either handler. */
  lemma RoundTrip(s: string, mode: ErrorMode)
    ensures Decode(Encode(s), mode) == s
  {
    DecodeEncode(s, [], mode);
    assert Encode(s) + [] == Encode(s);
  }

  lemma {:induction false} EncodeAppend(a: string, b: string)
    ensures Encode(a + b) == Encode(a) + Encode(b)
    decreases |a|
  {
    if a == [] {
      assert a + b == b;
    } else {
      assert (a + b)[0] == a[0];
      assert (a + b)[1..] == a[1..] + b;
      EncodeAppend(a[1..], b);
    }
  }

  /** Every byte of a multi-byte encoding is 0x80 or above, so an ASCII byte
      occurs in an encoding only where its own character occurs. */
  lemma {:induction false} AsciiByteInEncoding(s: string, b: byte)
    requires b < 0x80 && b in Encode(s)
    ensures (b as char) in s
    decreases |s|
  {
    var e := EncodeChar(s[0]);
    if b in e {
      var n := s[0] as int;
      assert n < 0x80;
    } else {
      assert b in Encode(s[1..]);
      AsciiByteInEncoding(s[1..], b);
    }
  }

  /** On ASCII text UTF-8 is the identity on code points. */
  lemma {:induction false} EncodeAscii(s: string)
    requires forall i :: 0 <= i < |s| ==> s[i] as int < 0x80
    ensures |Encode(s)| == |s|
    ensures forall i :: 0 <= i < |s| ==> Encode(s)[i] == s[i] as int
    decreases |s|
  {
    if s != [] {
      EncodeAscii(s[1..]);
    }
  }

  /** The first and last bytes of an encoding whose end characters are ASCII
      are those characters. */
  lemma EncodeEnds(s: string)
    requires s != [] && s[0] as int < 0x80 && s[|s| - 1] as int < 0x80
    ensures |Encode(s)| >= 1
    ensures Encode(s)[0] == s[0] as int && Encode(s)[|Encode(s)| - 1] == s[|s| - 1] as int
  {
    var init := s[..|s| - 1];
    var last := [s[|s| - 1]];
    assert init + last == s;
    EncodeAppend(init, last);
    assert Encode(last) == EncodeChar(s[|s| - 1]) + Encode([]);
  }
}
