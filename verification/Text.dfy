/** Lines, tab-separated parts and decimal numbers, printed and parsed. */
module Text {
  import opened Outcomes
  import opened Bytes

  // ---- splitting

  /** The parts of s between separators; one part more than there are separators. */
  function Split(s: string, sep: char): (parts: seq<string>)
    ensures parts != []
  {
    if s == "" then [""]
    else
      var rest := Split(s[1..], sep);
      if s[0] == sep then [""] + rest else [[s[0]] + rest[0]] + rest[1..]
  }

  predicate Free(s: string, c: char) {
    forall i :: 0 <= i < |s| ==> s[i] != c
  }

  lemma {:induction false} SplitFree(s: string, sep: char)
    requires Free(s, sep)
    ensures Split(s, sep) == [s]
  {
    if s == "" {
    } else {
      SplitFree(s[1..], sep);
      assert [s[0]] + s[1..] == s;
    }
  }

  lemma {:induction false} SplitFirst(a: string, sep: char, rest: string)
    requires Free(a, sep)
    ensures Split(a + [sep] + rest, sep) == [a] + Split(rest, sep)
  {
    var s := a + [sep] + rest;
    if a == "" {
      assert s[1..] == rest;
    } else {
      assert s[1..] == a[1..] + [sep] + rest;
      SplitFirst(a[1..], sep, rest);
      var tail := Split(a[1..] + [sep] + rest, sep);
      assert tail[0] == a[1..] && tail[1..] == Split(rest, sep);
      assert [s[0]] + a[1..] == a;
    }
  }

  function StripCr(s: string): string {
    if s != "" && s[|s| - 1] == '\r' then s[..|s| - 1] else s
  }

  /** The lines of a text: a final line feed opens no further line; one carriage return before a line
      feed is dropped. */
  function Lines(s: string): seq<string>
    decreases |s|
  {
    LinesOf(Split(s, '\n'))
  }

  function LinesOf(parts: seq<string>): seq<string>
    decreases |parts|
  {
    if parts == [] then []
    else if |parts| == 1 then (if parts[0] == "" then [] else [parts[0]])
    else [StripCr(parts[0])] + LinesOf(parts[1..])
  }

  /** A text that is one line: no line feed and no carriage return. */
  predicate OneLine(s: string) {
    Free(s, '\n') && Free(s, '\r')
  }

  lemma LinesFirst(line: string, rest: string)
    requires OneLine(line)
    ensures Lines(line + "\n" + rest) == [line] + Lines(rest)
  {
    SplitFirst(line, '\n', rest);
    var parts := Split(rest, '\n');
    assert ([line] + parts)[1..] == parts;
    assert StripCr(line) == line;
  }

  // ---- decimal numbers

  function Digit(d: nat): char
    requires d < 10
  {
    "0123456789"[d]
  }

  predicate IsDigit(c: char) {
    '0' <= c <= '9'
  }

  function PrintNat(n: nat): (s: string)
    ensures s != "" && forall i :: 0 <= i < |s| ==> IsDigit(s[i])
  {
    if n < 10 then [Digit(n)] else PrintNat(n / 10) + [Digit(n % 10)]
  }

  function PrintInt(n: int): string {
    if n < 0 then "-" + PrintNat(0 - n) else PrintNat(n)
  }

  function ParseDigits(s: string): Option<nat>
    decreases |s|
  {
    if s == "" then Some(0)
    else if !IsDigit(s[|s| - 1]) then None
    else match ParseDigits(s[..|s| - 1])
      case None => None
      case Some(n) => Some(10 * n + (s[|s| - 1] - '0') as nat)
  }

  /** Digits with an optional plus sign. */
  function ParseNat(s: string): Option<nat> {
    var digits := if s != "" && s[0] == '+' then s[1..] else s;
    if digits == "" then None else ParseDigits(digits)
  }

  function ParseU32(s: string): Option<u32> {
    match ParseNat(s)
    case Some(n) => if n < 0x1_0000_0000 then Some(n) else None
    case None => None
  }

  /** Digits with an optional sign. */
  function ParseI32(s: string): Option<i32> {
    if s != "" && s[0] == '-' then
      (if s[1..] == "" then None
       else match ParseDigits(s[1..])
         case Some(n) => if n <= 0x8000_0000 then Some(0 - n as int) else None
         case None => None)
    else match ParseNat(s)
      case Some(n) => if n < 0x8000_0000 then Some(n) else None
      case None => None
  }

  function ParseUsize(s: string): Option<nat> {
    match ParseNat(s)
    case Some(n) => if n < USIZE_LIMIT then Some(n) else None
    case None => None
  }

  lemma {:induction false} DigitsRoundTrip(n: nat)
    ensures ParseDigits(PrintNat(n)) == Some(n)
  {
    var s := PrintNat(n);
    if n >= 10 {
      DigitsRoundTrip(n / 10);
      assert s[..|s| - 1] == PrintNat(n / 10);
    } else {
      assert s[..|s| - 1] == "";
      assert ParseDigits("") == Some(0);
    }
  }

  lemma StartsWithDigit(n: nat)
    ensures PrintNat(n) != "" && PrintNat(n)[0] != '+' && PrintNat(n)[0] != '-'
  {
    assert IsDigit(PrintNat(n)[0]);
  }

  lemma NatRoundTrip(n: nat)
    ensures ParseNat(PrintNat(n)) == Some(n)
  {
    hide PrintNat, ParseDigits;
    DigitsRoundTrip(n);
    StartsWithDigit(n);
  }

  /** Printing and parsing a signed 32-bit number, negative ones included. */
  lemma I32TextRoundTrip(n: i32)
    ensures ParseI32(PrintInt(n)) == Some(n)
  {
    hide PrintNat, ParseDigits, ParseNat;
    if n < 0 {
      var m: nat := 0 - n as int;
      DigitsRoundTrip(m);
      StartsWithDigit(m);
      assert PrintInt(n)[1..] == PrintNat(m);
    } else {
      NatRoundTrip(n);
      StartsWithDigit(n);
    }
  }

  lemma U32TextRoundTrip(n: u32)
    ensures ParseU32(PrintNat(n)) == Some(n)
  {
    NatRoundTrip(n);
  }

  // ---- which texts are numbers

  function Noughts(z: nat): string {
    seq(z, _ => '0')
  }

  /** The digits are those of n, behind any number of zeros. */
  ghost predicate DigitsFor(s: string, n: nat) {
    exists z: nat :: s == Noughts(z) + PrintNat(n)
  }

  lemma ParseLast(t: string, d: nat)
    requires d < 10
    ensures ParseDigits(t + [Digit(d)]) ==
              match ParseDigits(t) case None => None case Some(n) => Some(10 * n + d)
  {
    assert (t + [Digit(d)])[..|t|] == t;
  }

  lemma PrintLast(m: nat, d: nat)
    requires d < 10
    ensures PrintNat(10 * m + d) == if m == 0 then [Digit(d)] else PrintNat(m) + [Digit(d)]
  {
    assert (10 * m + d) / 10 == m && (10 * m + d) % 10 == d;
  }

  lemma {:induction false} PaddedDigits(z: nat, n: nat)
    ensures ParseDigits(Noughts(z) + PrintNat(n)) == Some(n)
    decreases n, z
  {
    hide ParseDigits, PrintNat, Digit;
    var m, d := n / 10, n % 10;
    PrintLast(m, d);
    if m > 0 {
      PaddedDigits(z, m);
      ParseLast(Noughts(z) + PrintNat(m), d);
      assert Noughts(z) + PrintNat(n) == (Noughts(z) + PrintNat(m)) + [Digit(d)];
    } else {
      NoughtsParse(z);
      ParseLast(Noughts(z), d);
    }
  }

  lemma {:induction false} NoughtsParse(z: nat)
    ensures ParseDigits(Noughts(z)) == Some(0)
  {
    hide Digit;
    if z > 0 {
      NoughtsParse(z - 1);
      assert Noughts(z)[..z - 1] == Noughts(z - 1);
    }
  }

  lemma {:induction false} DigitsOnly(s: string)
    requires s != "" && ParseDigits(s).Some?
    ensures DigitsFor(s, ParseDigits(s).value)
    decreases |s|
  {
    hide ParseDigits, PrintNat, Digit;
    var init, d := LastDigit(s);
    ParseLast(init, d);
    var m := ParseDigits(init).value;
    PrintLast(m, d);
    if init == "" {
      assert m == 0 by { NoughtsParse(0); assert Noughts(0) == ""; }
      assert s == Noughts(0) + PrintNat(10 * m + d);
    } else {
      DigitsOnly(init);
      var z: nat :| init == Noughts(z) + PrintNat(m);
      if m == 0 {
        PrintLast(0, 0);
        assert init == Noughts(z + 1) by { assert Digit(0) == '0' by { Nought(); } }
        assert s == Noughts(z + 1) + PrintNat(10 * m + d);
      } else {
        assert s == Noughts(z) + PrintNat(10 * m + d);
      }
    }
  }

  lemma Nought()
    ensures Digit(0) == '0'
  {
  }

  lemma LastDigit(s: string) returns (init: string, d: nat)
    requires s != "" && ParseDigits(s).Some?
    ensures d < 10 && s == init + [Digit(d)] && |init| < |s| && ParseDigits(init).Some?
  {
    init, d := s[..|s| - 1], (s[|s| - 1] - '0') as nat;
    DigitIs(s[|s| - 1]);
  }

  lemma DigitIs(c: char)
    requires IsDigit(c)
    ensures (c - '0') as nat < 10 && Digit((c - '0') as nat) == c
  {
  }

  /** A text is read as a number exactly if it is an optional sign, any number of zeros and the digits of
      a number that fits in 32 bits. */
  lemma I32TextExact(s: string, n: i32)
    ensures ParseI32(s) == Some(n) <==>
              || (n >= 0 && (DigitsFor(s, n) || (s != "" && s[0] == '+' && DigitsFor(s[1..], n))))
              || (n <= 0 && s != "" && s[0] == '-' && DigitsFor(s[1..], 0 - n as int))
  {
    hide ParseDigits, DigitsFor;
    DigitsExact(s);
    if s != "" {
      DigitsExact(s[1..]);
      if s[0] == '-' || s[0] == '+' {
        NotDigits(s);
      }
    }
  }

  lemma NotDigits(s: string)
    requires s != "" && !IsDigit(s[0])
    ensures forall n: nat :: !DigitsFor(s, n)
  {
    forall n: nat, z: nat ensures s != Noughts(z) + PrintNat(n) {
      var t := Noughts(z) + PrintNat(n);
      assert IsDigit(t[0]);
    }
  }

  lemma DigitsExact(s: string)
    ensures forall n: nat :: DigitsFor(s, n) <==> s != "" && ParseDigits(s) == Some(n)
  {
    forall n: nat ensures DigitsFor(s, n) <==> s != "" && ParseDigits(s) == Some(n) {
      if DigitsFor(s, n) {
        var z: nat :| s == Noughts(z) + PrintNat(n);
        PaddedDigits(z, n);
      } else if s != "" && ParseDigits(s).Some? {
        DigitsOnly(s);
      }
    }
  }

  /** Characters that separate nothing. */
  predicate Plain(s: string) {
    Free(s, '\n') && Free(s, '\r') && Free(s, '\t')
  }

  lemma PrintPlain(n: int)
    ensures Plain(PrintInt(n)) && PrintInt(n) != ""
    ensures n >= 0 ==> Plain(PrintNat(n))
  {
    var s := PrintNat(if n < 0 then 0 - n else n);
    assert forall i :: 0 <= i < |s| ==> IsDigit(s[i]);
  }

  // ---- tab-separated lines

  /** Parts joined by tabs. */
  function Join(parts: seq<string>): string
    requires parts != []
  {
    if |parts| == 1 then parts[0] else parts[0] + "\t" + Join(parts[1..])
  }

  lemma {:induction false} JoinSplit(parts: seq<string>)
    requires parts != [] && forall i :: 0 <= i < |parts| ==> Plain(parts[i])
    ensures Split(Join(parts), '\t') == parts && OneLine(Join(parts))
  {
    if |parts| == 1 {
      SplitFree(parts[0], '\t');
    } else {
      JoinSplit(parts[1..]);
      SplitFirst(parts[0], '\t', Join(parts[1..]));
    }
  }

  /** A line feed after each line. */
  function Unlines(lines: seq<string>): string {
    if lines == [] then "" else Unlines(lines[..|lines| - 1]) + lines[|lines| - 1] + "\n"
  }

  lemma {:induction false} UnlinesCons(line: string, lines: seq<string>)
    ensures Unlines([line] + lines) == line + "\n" + Unlines(lines)
  {
    var all := [line] + lines;
    if lines == [] {
      assert all[..0] == [];
      assert Unlines([]) == "";
      assert "" + line + "\n" == line + "\n" + "";
    } else {
      var init := lines[..|lines| - 1];
      assert all[..|all| - 1] == [line] + init;
      UnlinesCons(line, init);
      var last := lines[|lines| - 1];
      assert (line + "\n" + Unlines(init)) + last + "\n" == line + "\n" + (Unlines(init) + last + "\n");
    }
  }

  /** Reading back what was written line by line. */
  lemma {:induction false} LinesUnlines(lines: seq<string>)
    requires forall i :: 0 <= i < |lines| ==> OneLine(lines[i])
    ensures Lines(Unlines(lines)) == lines
    decreases |lines|
  {
    if lines == [] {
    } else {
      var rest := lines[1..];
      assert lines == [lines[0]] + rest;
      UnlinesCons(lines[0], rest);
      LinesUnlines(rest);
      LinesFirst(lines[0], Unlines(rest));
    }
  }
}
