/** Decimal digits: the rendering of integers that Python's `str(int)` and
    f-strings, and Arduino's `Serial.print(int)`, produce, with its inverse. */
module Text {
  import opened Wrappers

  predicate IsDigit(c: char)
  {
    '0' <= c <= '9'
  }

  predicate AllDigits(s: string)
  {
    forall i :: 0 <= i < |s| ==> IsDigit(s[i])
  }

  function DigitChar(d: nat): (c: char)
    requires d < 10
    ensures IsDigit(c)
  {
    (('0' as int) + d) as char
  }

  function DigitValue(c: char): (d: nat)
    requires IsDigit(c)
    ensures d < 10 && DigitChar(d) == c
  {
    (c as int) - ('0' as int)
  }

  /** The value of a digit string read left to right ("" is 0). */
  function DigitsValue(s: string): nat
    requires AllDigits(s)
  {
    if s == [] then 0 else DigitsValue(s[..|s| - 1]) * 10 + DigitValue(s[|s| - 1])
  }

  /** Decimal digits of a natural number, without leading zeros. */
  function NatToDigits(n: nat): (s: string)
    ensures |s| >= 1 && AllDigits(s)
  {
    if n < 10 then [DigitChar(n)] else NatToDigits(n / 10) + [DigitChar(n % 10)]
  }

  /** Decimal rendering of an integer: a '-' before the digits of a negative one. */
  function IntToDecimal(n: int): string
  {
    if n < 0 then "-" + NatToDigits(-n) else NatToDigits(n)
  }

  /** A digit string as `NatToDigits` writes it: non-empty, no leading zero. */
  predicate Canonical(s: string)
  {
    |s| >= 1 && AllDigits(s) && (s[0] == '0' ==> |s| == 1)
  }

  /** Strict decimal parser: accepts exactly the renderings of `IntToDecimal`. */
  function ParseDecimal(s: string): Option<int>
  {
    if |s| >= 2 && s[0] == '-' && Canonical(s[1..]) && s[1] != '0' then Some(-(DigitsValue(s[1..]) as int))
    else if Canonical(s) then Some(DigitsValue(s))
    else None
  }

  lemma {:induction false} DigitsValueOfNat(n: nat)
    ensures DigitsValue(NatToDigits(n)) == n
    ensures Canonical(NatToDigits(n))
    ensures n > 0 ==> NatToDigits(n)[0] != '0'
    decreases n
  {
    var s := NatToDigits(n);
    if n >= 10 {
      DigitsValueOfNat(n / 10);
      assert s[..|s| - 1] == NatToDigits(n / 10);
    }
  }

  lemma {:induction false} DigitsValueLeading(s: string)
    requires Canonical(s) && (|s| >= 2 || s[0] != '0')
    ensures DigitsValue(s) >= 1
    ensures |s| >= 2 ==> DigitsValue(s) >= 10
    decreases |s|
  {
    if |s| >= 2 {
      var t := s[..|s| - 1];
      assert t[0] == s[0];
      DigitsValueLeading(t);
    }
  }

  lemma {:induction false} NatToDigitsOfValue(s: string)
    requires Canonical(s)
    ensures NatToDigits(DigitsValue(s)) == s
    decreases |s|
  {
    if |s| >= 2 {
      var t := s[..|s| - 1];
      assert t[0] == s[0];
      if |t| >= 2 || t[0] != '0' {
        DigitsValueLeading(t);
      }
      DigitsValueLeading(s);
      NatToDigitsOfValue(t);
      var v := DigitsValue(s);
      assert v / 10 == DigitsValue(t) && v % 10 == DigitValue(s[|s| - 1]);
      assert s == t + [s[|s| - 1]];
    }
  }

  /** Parsing undoes rendering. */
  lemma ParseRender(n: int)
    ensures ParseDecimal(IntToDecimal(n)) == Some(n)
  {
    if n < 0 {
      var d := NatToDigits(-n);
      DigitsValueOfNat(-n);
      assert IntToDecimal(n) == "-" + d;
      ParseNegative(d);
    } else {
      var d := NatToDigits(n);
      DigitsValueOfNat(n);
      assert IntToDecimal(n) == d;
      ParsePlain(d);
    }
  }

  lemma ParseNegative(d: string)
    requires Canonical(d) && d[0] != '0'
    ensures ParseDecimal("-" + d) == Some(-(DigitsValue(d) as int))
  {
    assert ("-" + d)[1..] == d;
  }

  lemma ParsePlain(d: string)
    requires Canonical(d)
    ensures ParseDecimal(d) == Some(DigitsValue(d))
  {
    assert IsDigit(d[0]);
  }

  /** Rendering undoes parsing: the parser accepts nothing but renderings. */
  lemma RenderParse(s: string, n: int)
    requires ParseDecimal(s) == Some(n)
    ensures s == IntToDecimal(n)
  {
    if |s| >= 2 && s[0] == '-' && Canonical(s[1..]) && s[1] != '0' {
      DigitsValueLeading(s[1..]);
      NatToDigitsOfValue(s[1..]);
      assert s == "-" + s[1..];
    } else {
      NatToDigitsOfValue(s);
    }
  }

  /** A rendering consists of digits and at most a leading '-'. */
  lemma RenderedChars(n: int)
    ensures forall i :: 0 <= i < |IntToDecimal(n)| ==>
      IsDigit(IntToDecimal(n)[i]) || (i == 0 && IntToDecimal(n)[i] == '-')
  {
  }

  /** Renderings are never empty and never start with a space. */
  lemma RenderedFirst(n: int)
    ensures |IntToDecimal(n)| >= 1
    ensures IsDigit(IntToDecimal(n)[0]) || IntToDecimal(n)[0] == '-'
    ensures IsDigit(IntToDecimal(n)[|IntToDecimal(n)| - 1])
  {
  }

  /** Distinct integers render differently. */
  lemma RenderInjective(m: int, n: int)
    requires IntToDecimal(m) == IntToDecimal(n)
    ensures m == n
  {
    ParseRender(m);
    ParseRender(n);
  }
}

/** Python's text operations that the raw REPL client relies on. */
module PyText {
  import opened Wrappers
  import opened Seqs
  import opened Text

  /** Python's `str.isspace()` for one character (the characters that
      `str.strip()` with no argument removes). */
  predicate IsSpace(c: char)
  {
    ('\t' <= c <= '\r') || ('\U{1C}' <= c <= ' ') || c == '\U{85}' || c == '\U{A0}' ||
    c == '\U{1680}' || ('\U{2000}' <= c <= '\U{200A}') || c == '\U{2028}' || c == '\U{2029}' ||
    c == '\U{202F}' || c == '\U{205F}' || c == '\U{3000}'
  }

  /** Python's `str.strip()`. */
  function Strip(s: string): string
  {
    Trim(s, IsSpace)
  }

  /** Python's repr of a list of integers, `str([8, 52]) == "[8, 52]"`. */
  function ShowIntList(xs: seq<int>): string
  {
    if xs == [] then "[]" else "[" + Join(Items(xs, true), ',') + "]"
  }

  /** The comma-separated items of a list repr: every item after the first
      carries the space that follows the comma. */
  function Items(xs: seq<int>, first: bool): (items: seq<string>)
    ensures |items| == |xs|
  {
    if xs == [] then [] else [(if first then "" else " ") + IntToDecimal(xs[0])] + Items(xs[1..], false)
  }

  function ParseItem(p: string, first: bool): Option<int>
  {
    if first then ParseDecimal(p)
    else if |p| >= 1 && p[0] == ' ' then ParseDecimal(p[1..])
    else None
  }

  function ParseItems(parts: seq<string>, first: bool): (r: Option<seq<int>>)
    ensures r.Some? ==> |r.value| == |parts|
  {
    if parts == [] then Some([])
    else
      match ParseItem(parts[0], first)
      case None => None
      case Some(x) =>
        match ParseItems(parts[1..], false)
        case None => None
        case Some(xs) => Some([x] + xs)
  }

  /** A strict reader for the text `print(list_of_ints)` produces: it
      accepts the repr of an integer list and nothing else. */
  function ParseIntList(s: string): Option<seq<int>>
  {
    if |s| >= 2 && s[0] == '[' && s[|s| - 1] == ']' then
      var inner := s[1..|s| - 1];
      if inner == "" then Some([]) else ParseItems(Split(inner, ','), true)
    else None
  }

  /** The items hold nothing but digits, minus signs and spaces. */
  lemma {:induction false} ItemsFree(xs: seq<int>, first: bool, c: char)
    requires !IsDigit(c) && c != '-' && c != ' '
    ensures forall i :: 0 <= i < |Items(xs, first)| ==> c !in Items(xs, first)[i]
    decreases |xs|
  {
    if xs != [] {
      RenderedChars(xs[0]);
      ItemsFree(xs[1..], false, c);
    }
  }

  lemma {:induction false} ParseItemsOfItems(xs: seq<int>, first: bool)
    ensures ParseItems(Items(xs, first), first) == Some(xs)
    decreases |xs|
  {
    if xs != [] {
      var items := Items(xs, first);
      ParseRender(xs[0]);
      if !first {
        assert items[0][1..] == IntToDecimal(xs[0]);
      }
      assert items[0] == (if first then "" else " ") + IntToDecimal(xs[0]);
      if first {
        assert items[0] == IntToDecimal(xs[0]);
      }
      assert ParseItem(items[0], first) == Some(xs[0]);
      assert items[1..] == Items(xs[1..], false);
      ParseItemsOfItems(xs[1..], false);
      assert [xs[0]] + xs[1..] == xs;
    }
  }

  lemma {:induction false} ItemsOfParseItems(parts: seq<string>, first: bool, xs: seq<int>)
    requires ParseItems(parts, first) == Some(xs)
    ensures parts == Items(xs, first)
    decreases |parts|
  {
    if parts != [] {
      ParseItemsCons(parts, first, xs);
      ItemsOfParseItems(parts[1..], false, xs[1..]);
      ItemOfParseItem(parts[0], first, xs[0]);
      assert parts == [parts[0]] + parts[1..];
    }
  }

  lemma ParseItemsCons(parts: seq<string>, first: bool, xs: seq<int>)
    requires parts != [] && ParseItems(parts, first) == Some(xs)
    ensures xs != [] && ParseItem(parts[0], first) == Some(xs[0])
    ensures ParseItems(parts[1..], false) == Some(xs[1..])
  {
    var rest := ParseItems(parts[1..], false).value;
    assert xs == [xs[0]] + rest;
  }

  lemma ItemOfParseItem(p: string, first: bool, x: int)
    requires ParseItem(p, first) == Some(x)
    ensures p == (if first then "" else " ") + IntToDecimal(x)
  {
    if first {
      RenderParse(p, x);
    } else {
      RenderParse(p[1..], x);
      assert p == " " + p[1..];
    }
  }

  /** The reader accepts every integer-list repr and returns its list. */
  lemma ParseShowIntList(xs: seq<int>)
    ensures ParseIntList(ShowIntList(xs)) == Some(xs)
  {
    if xs != [] {
      var s := ShowIntList(xs);
      var items := Items(xs, true);
      assert s[1..|s| - 1] == Join(items, ',');
      ItemsFree(xs, true, ',');
      SplitJoin(items, ',');
      JoinedItemsNonEmpty(xs);
      ParseItemsOfItems(xs, true);
    }
  }

  lemma JoinedItemsNonEmpty(xs: seq<int>)
    requires xs != []
    ensures Join(Items(xs, true), ',') != ""
  {
    var items := Items(xs, true);
    RenderedFirst(xs[0]);
    assert |items[0]| >= 1;
    if |items| > 1 {
      assert Join(items, ',') == items[0] + ([','] + Join(items[1..], ','));
    } else {
      assert Join(items, ',') == items[0];
    }
  }

  /** A list repr holds no control character (in particular no 0x04) and
      is already stripped. */
  lemma ShowIntListPlain(xs: seq<int>)
    ensures '\U{4}' !in ShowIntList(xs)
    ensures Strip(ShowIntList(xs)) == ShowIntList(xs)
  {
    var s := ShowIntList(xs);
    TrimKeeps(s, IsSpace);
    if xs != [] {
      var items := Items(xs, true);
      ItemsFree(xs, true, '\U{4}');
      JoinFree(items, ',', '\U{4}');
      assert s == "[" + Join(items, ',') + "]";
    }
  }

  /** … and nothing else: what it accepts is the repr of the list it returns. */
  lemma ShowParseIntList(s: string, xs: seq<int>)
    requires ParseIntList(s) == Some(xs)
    ensures s == ShowIntList(xs)
  {
    var inner := s[1..|s| - 1];
    assert s == "[" + inner + "]";
    if inner != "" {
      var parts := Split(inner, ',');
      ItemsOfParseItems(parts, true, xs);
      JoinSplit(inner, ',');
    }
  }
}

/** The C library's and Arduino `String` class's text handling used by the
    two firmware sketches. */
module CText {
  import opened Seqs
  import opened Text

  /** C's `isspace` in the "C" locale. */
  predicate IsCSpace(c: char)
  {
    c == ' ' || ('\t' <= c <= '\r')
  }

  /** Arduino's `String::trim()`. */
  function TrimLine(s: string): string
  {
    Trim(s, IsCSpace)
  }

  /** A line of whitespace trims to nothing. */
  lemma {:induction false} TrimLineBlank(s: string)
    requires forall i :: 0 <= i < |s| ==> IsCSpace(s[i])
    ensures TrimLine(s) == []
    decreases |s|
  {
    if s != [] {
      TrimLineBlank(s[1..]);
    }
  }

  /** A line that starts with a non-blank character keeps it first. */
  lemma {:induction false} TrimLineKeepsFirst(s: string)
    requires s != [] && !IsCSpace(s[0])
    ensures TrimLine(s) != [] && TrimLine(s)[0] == s[0]
    decreases |s|
  {
    if IsCSpace(s[|s| - 1]) {
      TrimLineKeepsFirst(s[..|s| - 1]);
      assert TrimLine(s) == TrimLine(s[..|s| - 1]);
    }
  }

  /** Arduino's `String::indexOf(char)`: the first position of `c`, or -1. */
  function IndexOf(s: string, c: char): (r: int)
    ensures -1 <= r < |s|
    ensures r == -1 <==> c !in s
    ensures r >= 0 ==> s[r] == c && c !in s[..r]
  {
    if s == [] then -1
    else if s[0] == c then 0
    else var k := IndexOf(s[1..], c); (if k == -1 then -1 else k + 1)
  }

  /** The longest prefix of decimal digits. */
  function DigitRun(s: string): (r: string)
    ensures AllDigits(r) && StartsWith(s, r)
    ensures |r| == |s| || !IsDigit(s[|r|])
  {
    if s != [] && IsDigit(s[0]) then [s[0]] + DigitRun(s[1..]) else []
  }

  /** Arduino's `String::toInt()`, that is C's `atol`: leading whitespace is
      skipped, an optional sign is read, then the longest run of digits; the
      rest of the text is ignored, and text with no digits reads as 0. */
  function LeadingInt(s: string): int
    decreases |s|
  {
    if s != [] && IsCSpace(s[0]) then LeadingInt(s[1..]) else SignedInt(s)
  }

  /** `atol` once the whitespace is skipped. */
  function SignedInt(t: string): int
  {
    if |t| > 0 && t[0] == '-' then -(DigitsValue(DigitRun(t[1..])) as int)
    else if |t| > 0 && t[0] == '+' then DigitsValue(DigitRun(t[1..]))
    else DigitsValue(DigitRun(t))
  }

  /** The value of the digits after a decimal point: 0.d1d2d3... */
  function FractionValue(digits: string): (v: real)
    requires AllDigits(digits)
    ensures 0.0 <= v <= 1.0
  {
    if digits == [] then 0.0 else (DigitValue(digits[0]) as real + FractionValue(digits[1..])) / 10.0
  }

  /** Arduino's `String::toFloat()` (C's `atof`) on fixed-point text:
      whitespace, an optional sign, digits, optionally '.' and more digits;
      the rest is ignored and text with no number reads as 0. */
  function LeadingReal(s: string): real
    decreases |s|
  {
    if s != [] && IsCSpace(s[0]) then LeadingReal(s[1..]) else SignedReal(s)
  }

  /** `atof` once the whitespace is skipped. */
  function SignedReal(t: string): real
  {
    var negative := |t| > 0 && t[0] == '-';
    var u := if |t| > 0 && (t[0] == '-' || t[0] == '+') then t[1..] else t;
    var whole := DigitRun(u);
    var rest := u[|whole|..];
    var frac := if |rest| > 0 && rest[0] == '.' then DigitRun(rest[1..]) else "";
    var magnitude := DigitsValue(whole) as real + FractionValue(frac);
    if negative then -magnitude else magnitude
  }

  lemma {:induction false} DigitRunOfDigits(d: string, rest: string)
    requires AllDigits(d) && (rest == [] || !IsDigit(rest[0]))
    ensures DigitRun(d + rest) == d
    decreases |d|
  {
    if d == [] {
      assert d + rest == rest;
    } else {
      assert (d + rest)[1..] == d[1..] + rest;
      DigitRunOfDigits(d[1..], rest);
      assert [d[0]] + d[1..] == d;
    }
  }

  /** `toInt` reads back a decimal rendering followed by anything that does
      not start with a digit. */
  lemma LeadingIntOfRendering(n: int, rest: string)
    requires rest == [] || !IsDigit(rest[0])
    ensures LeadingInt(IntToDecimal(n) + rest) == n
  {
    var s := IntToDecimal(n) + rest;
    RenderedFirst(n);
    assert s[0] == IntToDecimal(n)[0];
    if n < 0 {
      NegativeRendering(-n, rest);
    } else {
      NonNegativeRendering(n, rest);
    }
  }

  lemma NegativeRendering(m: nat, rest: string)
    requires m > 0 && (rest == [] || !IsDigit(rest[0]))
    ensures SignedInt(IntToDecimal(-(m as int)) + rest) == -(m as int)
  {
    var d := NatToDigits(m);
    assert IntToDecimal(-(m as int)) + rest == "-" + (d + rest);
    DigitRunOfDigits(d, rest);
    DigitsValueOfNat(m);
    MinusSign(d + rest);
  }

  lemma MinusSign(x: string)
    ensures SignedInt("-" + x) == -(DigitsValue(DigitRun(x)) as int)
  {
    assert ("-" + x)[1..] == x;
  }

  lemma NonNegativeRendering(n: nat, rest: string)
    requires rest == [] || !IsDigit(rest[0])
    ensures SignedInt(IntToDecimal(n) + rest) == n
  {
    var d := NatToDigits(n);
    var s := d + rest;
    assert s[0] == d[0];
    DigitRunOfDigits(d, rest);
    DigitsValueOfNat(n);
  }

  /** A line that starts with a letter reads as 0: `toFloat` finds no number in it. */
  lemma LeadingRealOfLetter(s: string)
    requires |s| > 0 && ('A' <= s[0] <= 'Z' || 'a' <= s[0] <= 'z')
    ensures LeadingReal(s) == 0.0
  {
    assert DigitRun(s) == [];
  }
}
