/** Printing characters as a C++ string literal, read back by the lexical rules of ISO C++20
    ([lex.ccon] 5.13.3, [lex.string] 5.13.5). */
module StringLiterals {
  import opened Options

  // ---------- The printer ----------

  datatype CharType = Char | Char8 | Char16 | Char32 | WideChar {
    function Prefix(): string {
      match this
      case Char => ""
      case Char8 => "u8"
      case Char16 => "u"
      case Char32 => "U"
      case WideChar => "L"
    }
  }

  datatype CharFormat = AsIs | HexEscape | SpecialEscape

  predicate IsPrintableAscii(u: nat) { 0x20 <= u <= 0x7E }

  predicate IsHexChar(c: char) { '0' <= c <= '9' || 'A' <= c <= 'F' || 'a' <= c <= 'f' }

  function HexCharValue(c: char): nat
    requires IsHexChar(c)
  {
    if c <= '9' then c as int - '0' as int
    else if c <= 'F' then c as int - 'A' as int + 10
    else c as int - 'a' as int + 10
  }

  function HexDigit(d: nat): (c: char)
    requires d < 16
    ensures IsHexChar(c) && HexCharValue(c) == d
  {
    if d < 10 then ('0' as int + d) as char else ('A' as int + (d - 10)) as char
  }

  /** The upper-case hexadecimal digits of a nonzero unit. */
  function Hex(u: nat): (digits: string)
    ensures forall c <- digits :: IsHexChar(c)
    ensures u > 0 ==> digits != ""
  {
    if u == 0 then "" else Hex(u / 16) + [HexDigit(u % 16)]
  }

  function CharLiteral(u: nat): (string, CharFormat) {
    if u == 0 then ("\\0", SpecialEscape)
    else if u == 39 then ("\\'", SpecialEscape)
    else if u == 92 then ("\\\\", SpecialEscape)
    else if u == 7 then ("\\a", SpecialEscape)
    else if u == 8 then ("\\b", SpecialEscape)
    else if u == 12 then ("\\f", SpecialEscape)
    else if u == 10 then ("\\n", SpecialEscape)
    else if u == 13 then ("\\r", SpecialEscape)
    else if u == 9 then ("\\t", SpecialEscape)
    else if u == 11 then ("\\v", SpecialEscape)
    else if IsPrintableAscii(u) then ([u as char], AsIs)
    else ("\\x" + Hex(u), HexEscape)
  }

  function StringLiteral(u: nat): (string, CharFormat) {
    if u == 39 then ("'", AsIs)
    else if u == 34 then ("\\\"", SpecialEscape)
    else CharLiteral(u)
  }

  /** Hexadecimal digits are upper case. */
  lemma HexDigitsInOrder(d: nat)
    requires d < 16
    ensures HexDigit(d) == "0123456789ABCDEF"[d]
  {
  }

  /** How one unit of a string is written: NUL, the seven control characters from U+0007 on and
      two printable ones by special escapes, the other printable ones as they are, and the rest
      in hexadecimal. */
  lemma UnitText(u: nat)
    ensures var (text, format) := StringLiteral(u);
            if u == 0 then text == "\\0" && format == SpecialEscape
            else if 7 <= u <= 13 then text == ['\\', "abtnvfr"[u - 7]] && format == SpecialEscape
            else if 0x20 <= u <= 0x7E then
              if u as char in "\"\\" then text == ['\\', u as char] && format == SpecialEscape
              else text == [u as char] && format == AsIs
            else text == "\\x" + Hex(u) && format == HexEscape
  {
  }

  predicate IsXDigit(u: nat) {
    0x30 <= u <= 0x39 || 0x41 <= u <= 0x46 || 0x61 <= u <= 0x66
  }

  predicate PrintsHex(u: nat) {
    StringLiteral(u).1 == HexEscape
  }

  /** What is printed for one unit, `prev` telling whether a hexadecimal escape came just
      before: the literal is broken in two before a hexadecimal digit. */
  function Piece(ty: CharType, prev: bool, u: nat): string {
    if prev && IsXDigit(u) then "\" " + ty.Prefix() + "\"" + StringLiteral(u).0 else StringLiteral(u).0
  }

  /** What is printed for the units from a point on. */
  function Rest(ty: CharType, units: seq<nat>, prev: bool): string {
    if units == [] then "\"" else Piece(ty, prev, units[0]) + Rest(ty, units[1..], PrintsHex(units[0]))
  }

  lemma RestStep(ty: CharType, units: seq<nat>, i: nat, prev: bool, text: string)
    requires i < |units|
    ensures text + Rest(ty, units[i..], prev)
         == text + Piece(ty, prev, units[i]) + Rest(ty, units[i + 1..], PrintsHex(units[i]))
  {
    assert units[i..][1..] == units[i + 1..];
  }

  function Literal(ty: CharType, units: seq<nat>): string {
    ty.Prefix() + "\"" + Rest(ty, units, false)
  }

  /** What a literal of each character type starts with. */
  lemma LiteralStarts(units: seq<nat>)
    ensures "\"" <= Literal(Char, units) && "u8\"" <= Literal(Char8, units) && "u\"" <= Literal(Char16, units)
    ensures "U\"" <= Literal(Char32, units) && "L\"" <= Literal(WideChar, units)
  {
  }

  /** Prints one unit, after breaking the literal where it must be broken. */
  method PrintUnit(ty: CharType, prev: bool, cur: nat) returns (piece: string, hex: bool)
    ensures piece == Piece(ty, prev, cur) && hex == PrintsHex(cur)
  {
    piece := "";
    if prev && IsXDigit(cur) {
      piece := "\" " + ty.Prefix() + "\"";
    }
    var printed := StringLiteral(cur);
    piece := piece + printed.0;
    hex := printed.1 == HexEscape;
  }

  /** Prints the unit at a position. */
  method PrintNext(ty: CharType, units: seq<nat>, index: nat, prev: bool, text: string)
    returns (text': string, hex: bool)
    requires index < |units|
    ensures text' + Rest(ty, units[index + 1..], hex) == text + Rest(ty, units[index..], prev)
    ensures hex == PrintsHex(units[index])
  {
    RestStep(ty, units, index, prev, text);
    var piece;
    piece, hex := PrintUnit(ty, prev, units[index]);
    text' := text + piece;
  }

  method PrintCharsAsStringTo(ty: CharType, units: seq<nat>) returns (text: string, format: CharFormat)
    ensures text == Literal(ty, units)
    ensures format == HexEscape <==> exists u <- units :: PrintsHex(u)
  {
    text := ty.Prefix() + "\"";
    var isPreviousHex := false;
    format := AsIs;
    assert units[0..] == units;
    for index := 0 to |units|
      invariant text + Rest(ty, units[index..], isPreviousHex) == Literal(ty, units)
      invariant format == HexEscape <==> exists k | 0 <= k < index :: PrintsHex(units[k])
    {
      text, isPreviousHex := PrintNext(ty, units, index, isPreviousHex, text);
      if isPreviousHex {
        format := HexEscape;
      }
    }
    assert units[|units|..] == [];
    text := text + "\"";
  }

  // ---------- The reader ----------

  predicate IsOctalChar(c: char) { '0' <= c <= '7' }

  /** The number of hexadecimal digits at the head: an escape takes as many as there are. */
  function HexRun(t: string): (n: nat)
    ensures n <= |t| && forall k | 0 <= k < n :: IsHexChar(t[k])
  {
    if t == "" || !IsHexChar(t[0]) then 0 else 1 + HexRun(t[1..])
  }

  /** The number of octal digits at the head, three at most. */
  function OctalRun(t: string, max: nat): (n: nat)
    ensures n <= |t| && n <= max && forall k | 0 <= k < n :: IsOctalChar(t[k])
  {
    if max == 0 || t == "" || !IsOctalChar(t[0]) then 0 else 1 + OctalRun(t[1..], max - 1)
  }

  function HexValue(digits: string): nat
    requires forall c <- digits :: IsHexChar(c)
  {
    if digits == "" then 0 else 16 * HexValue(digits[..|digits| - 1]) + HexCharValue(digits[|digits| - 1])
  }

  function OctalCharValue(c: char): nat
    requires IsOctalChar(c)
  {
    c as int - '0' as int
  }

  function OctalValue(digits: string): nat
    requires forall c <- digits :: IsOctalChar(c)
  {
    if digits == "" then 0
    else 8 * OctalValue(digits[..|digits| - 1]) + OctalCharValue(digits[|digits| - 1])
  }

  function SimpleEscape(c: char): Option<nat> {
    if c == '\'' then Some(39)
    else if c == '"' then Some(34)
    else if c == '?' then Some(63)
    else if c == '\\' then Some(92)
    else if c == 'a' then Some(7)
    else if c == 'b' then Some(8)
    else if c == 'f' then Some(12)
    else if c == 'n' then Some(10)
    else if c == 'r' then Some(13)
    else if c == 't' then Some(9)
    else if c == 'v' then Some(11)
    else None
  }

  /** What a backslash and one of these characters stand for. */
  lemma SimpleEscapesInOrder(k: nat)
    requires k < 11
    ensures SimpleEscape("'\"?\\abtnvfr"[k]) == Some([39, 34, 63, 92, 7, 8, 9, 10, 11, 12, 13][k])
  {
  }

  function Cons(u: nat, r: Option<seq<nat>>): Option<seq<nat>> {
    if r == None then None else Some([u] + r.value)
  }

  /** Inside a literal. */
  function ReadInside(ty: CharType, t: string): Option<seq<nat>>
    decreases |t|
  {
    if t == "" || t[0] == '\n' then None
    else if t[0] == '"' then ReadOutside(ty, t[1..])
    else if t[0] != '\\' then Cons(t[0] as int, ReadInside(ty, t[1..]))
    else if |t| == 1 then None
    else if IsOctalChar(t[1]) then
      var n := OctalRun(t[1..], 3);
      Cons(OctalValue(t[1..][..n]), ReadInside(ty, t[1..][n..]))
    else if t[1] == 'x' then
      var n := HexRun(t[2..]);
      if n == 0 then None else Cons(HexValue(t[2..][..n]), ReadInside(ty, t[2..][n..]))
    else
      match SimpleEscape(t[1])
      case None => None
      case Some(u) => Cons(u, ReadInside(ty, t[2..]))
  }

  /** After a literal: adjacent literals are joined. */
  function ReadOutside(ty: CharType, t: string): Option<seq<nat>>
    decreases |t|
  {
    if t == "" then Some([])
    else if t[0] == ' ' then ReadOutside(ty, t[1..])
    else if ty.Prefix() + "\"" <= t then ReadInside(ty, t[|ty.Prefix()| + 1..])
    else None
  }

  /** The units that one or more adjacent literals stand for. */
  function Read(ty: CharType, t: string): Option<seq<nat>> {
    if t == "" then None else ReadOutside(ty, t)
  }

  // ---------- Reading back what was printed ----------

  predicate IsOctalUnit(u: nat) { 0x30 <= u <= 0x37 }

  /** Some NUL is directly followed by an octal digit. */
  predicate NulBeforeOctal(units: seq<nat>) {
    exists k | 0 <= k < |units| - 1 :: units[k] == 0 && IsOctalUnit(units[k + 1])
  }

  function UnitRun(units: seq<nat>, max: nat): (n: nat)
    ensures n <= |units| && n <= max
  {
    if max == 0 || units == [] || !IsOctalUnit(units[0]) then 0 else 1 + UnitRun(units[1..], max - 1)
  }

  function OctalUnitValue(u: nat): nat { if IsOctalUnit(u) then u - 0x30 else 0 }

  /** The unit that a NUL and up to two octal digits after it are read as. */
  function Swallowed(digits: seq<nat>): nat
    requires |digits| <= 2
  {
    if |digits| == 0 then 0
    else if |digits| == 1 then OctalUnitValue(digits[0])
    else 8 * OctalUnitValue(digits[0]) + OctalUnitValue(digits[1])
  }

  /** What the reader makes of the printed units: a NUL swallows up to two octal digits. */
  function ReadBack(units: seq<nat>): seq<nat> {
    if units == [] then []
    else if units[0] != 0 then [units[0]] + ReadBack(units[1..])
    else
      var n := UnitRun(units[1..], 2);
      [Swallowed(units[1..][..n])] + ReadBack(units[1..][n..])
  }

  lemma ReadPlain(ty: CharType, c: char, rest: string)
    requires c != '\n' && c != '"' && c != '\\'
    ensures ReadInside(ty, [c] + rest) == Cons(c as int, ReadInside(ty, rest))
  {
    assert ([c] + rest)[1..] == rest;
  }

  lemma ReadSimple(ty: CharType, c: char, u: nat, rest: string)
    requires SimpleEscape(c) == Some(u)
    ensures ReadInside(ty, ['\\', c] + rest) == Cons(u, ReadInside(ty, rest))
  {
    assert (['\\', c] + rest)[2..] == rest;
  }

  lemma {:induction false} HexRunExact(digits: string, rest: string)
    requires (forall c <- digits :: IsHexChar(c)) && (rest == "" || !IsHexChar(rest[0]))
    ensures HexRun(digits + rest) == |digits|
  {
    if digits == "" {
      assert digits + rest == rest;
    } else {
      HexRunExact(digits[1..], rest);
      assert (digits + rest)[1..] == digits[1..] + rest;
    }
  }

  lemma {:induction false} HexValueOfHex(u: nat)
    ensures HexValue(Hex(u)) == u
  {
    if u > 0 {
      HexValueOfHex(u / 16);
      assert Hex(u)[..|Hex(u)| - 1] == Hex(u / 16);
    }
  }

  lemma ReadHex(ty: CharType, u: nat, rest: string)
    requires u > 0 && (rest == "" || !IsHexChar(rest[0]))
    ensures ReadInside(ty, "\\x" + Hex(u) + rest) == Cons(u, ReadInside(ty, rest))
  {
    var t := "\\x" + Hex(u) + rest;
    assert t[2..] == Hex(u) + rest;
    HexRunExact(Hex(u), rest);
    HexValueOfHex(u);
    assert t[2..][..|Hex(u)|] == Hex(u) && t[2..][|Hex(u)|..] == rest;
  }

  /** Every unit but NUL is read back as itself, wherever its text ends. */
  lemma ReadUnit(ty: CharType, u: nat, rest: string)
    requires u != 0 && (PrintsHex(u) ==> rest == "" || !IsHexChar(rest[0]))
    ensures ReadInside(ty, StringLiteral(u).0 + rest) == Cons(u, ReadInside(ty, rest))
  {
    var text := StringLiteral(u).0;
    match StringLiteral(u).1 {
      case AsIs =>
        ReadPlain(ty, u as char, rest);
      case HexEscape =>
        ReadHex(ty, u, rest);
      case SpecialEscape =>
        ReadSimple(ty, text[1], u, rest);
        assert text == ['\\', text[1]];
    }
  }

  lemma ReadOpen(ty: CharType, rest: string)
    ensures ReadOutside(ty, ty.Prefix() + "\"" + rest) == ReadInside(ty, rest)
  {
    var open := ty.Prefix() + "\"";
    assert open[0] != ' ';
    assert (open + rest)[|open|..] == rest;
  }

  lemma ReadSpace(ty: CharType, rest: string)
    ensures ReadInside(ty, "\" " + rest) == ReadOutside(ty, rest)
  {
    assert ("\" " + rest)[1..] == " " + rest;
    assert (" " + rest)[1..] == rest;
  }

  lemma FiveParts(a: string, b: string, c: string, d: string, e: string)
    ensures a + b + c + d + e == a + (b + c + (d + e))
  {
  }

  lemma ReadBreak(ty: CharType, text: string, rest: string)
    ensures ReadInside(ty, "\" " + ty.Prefix() + "\"" + text + rest) == ReadInside(ty, text + rest)
  {
    var after := text + rest;
    ReadOpen(ty, after);
    ReadSpace(ty, ty.Prefix() + "\"" + after);
    FiveParts("\" ", ty.Prefix(), "\"", text, rest);
  }

  /** Breaking a literal in two does not change what is read. */
  lemma ReadPiece(ty: CharType, prev: bool, u: nat, rest: string)
    ensures ReadInside(ty, Piece(ty, prev, u) + rest) == ReadInside(ty, StringLiteral(u).0 + rest)
  {
    if prev && IsXDigit(u) {
      ReadBreak(ty, StringLiteral(u).0, rest);
    }
  }

  /** After a hexadecimal escape the next character printed is no hexadecimal digit. */
  lemma RestAfterHex(ty: CharType, units: seq<nat>)
    ensures Rest(ty, units, true) != "" && !IsHexChar(Rest(ty, units, true)[0])
  {
  }

  lemma RestAsIs(ty: CharType, units: seq<nat>)
    ensures var rest := Rest(ty, units, false);
            rest != "" && if units != [] && IsOctalUnit(units[0])
                          then rest == [units[0] as char] + Rest(ty, units[1..], false)
                          else !IsOctalChar(rest[0])
  {
  }

  lemma {:induction false} OctalRunExact(digits: string, rest: string, max: nat)
    requires |digits| <= max && forall c <- digits :: IsOctalChar(c)
    requires |digits| == max || rest == "" || !IsOctalChar(rest[0])
    ensures OctalRun(digits + rest, max) == |digits|
  {
    if digits == "" {
      assert digits + rest == rest;
    } else {
      OctalRunExact(digits[1..], rest, max - 1);
      assert (digits + rest)[1..] == digits[1..] + rest;
    }
  }

  lemma ReadOctal(ty: CharType, digits: string, rest: string)
    requires 1 <= |digits| <= 3 && forall c <- digits :: IsOctalChar(c)
    requires |digits| == 3 || rest == "" || !IsOctalChar(rest[0])
    ensures ReadInside(ty, ['\\'] + (digits + rest)) == Cons(OctalValue(digits), ReadInside(ty, rest))
  {
    var t := ['\\'] + (digits + rest);
    assert t[1..] == digits + rest;
    OctalRunExact(digits, rest, 3);
    assert t[1..][..|digits|] == digits && t[1..][|digits|..] == rest;
  }

  lemma OctalOne(c: char)
    requires IsOctalChar(c)
    ensures OctalValue([c]) == OctalUnitValue(c as int)
  {
    assert [c][..0] == "";
  }

  lemma OctalMore(digits: string, c: char)
    requires (forall d <- digits :: IsOctalChar(d)) && IsOctalChar(c)
    ensures (forall d <- digits + [c] :: IsOctalChar(d))
    ensures OctalValue(digits + [c]) == 8 * OctalValue(digits) + OctalUnitValue(c as int)
  {
    assert (digits + [c])[..|digits|] == digits;
  }

  lemma {:induction false} LeadingZero(digits: string)
    requires forall d <- digits :: IsOctalChar(d)
    ensures forall d <- ['0'] + digits :: IsOctalChar(d)
    ensures OctalValue(['0'] + digits) == OctalValue(digits)
  {
    if digits == "" {
      OctalOne('0');
      assert ['0'] + digits == ['0'];
    } else {
      var n := |digits| - 1;
      LeadingZero(digits[..n]);
      assert (['0'] + digits)[..n + 1] == ['0'] + digits[..n];
    }
  }

  lemma NulText(digits: string, rest: string)
    ensures "\\0" + (digits + rest) == ['\\'] + (['0'] + digits + rest)
  {
  }

  /** A NUL takes up to two octal digits that follow it. */
  lemma ReadNulDigits(ty: CharType, digits: string, rest: string)
    requires |digits| <= 2 && forall d <- digits :: IsOctalChar(d)
    requires |digits| == 2 || rest == "" || !IsOctalChar(rest[0])
    ensures ReadInside(ty, "\\0" + (digits + rest)) == Cons(OctalValue(digits), ReadInside(ty, rest))
  {
    LeadingZero(digits);
    ReadOctal(ty, ['0'] + digits, rest);
    NulText(digits, rest);
  }

  lemma TwoChars(c: char, d: char, rest: string)
    ensures [c] + [d] + rest == [c] + ([d] + rest)
  {
  }

  /** What a NUL and `n` octal digits after it are read as. */
  ghost predicate NulSwallows(ty: CharType, units: seq<nat>, n: nat)
    requires n <= |units| && n <= 2
  {
    ReadInside(ty, "\\0" + Rest(ty, units, false))
        == Cons(Swallowed(units[..n]), ReadInside(ty, Rest(ty, units[n..], false)))
  }

  lemma NulSwallowsOne(ty: CharType, units: seq<nat>)
    requires units != [] && IsOctalUnit(units[0]) && (|units| == 1 || !IsOctalUnit(units[1]))
    ensures NulSwallows(ty, units, 1)
  {
    RestAsIs(ty, units);
    RestAsIs(ty, units[1..]);
    OctalOne(units[0] as char);
    ReadNulDigits(ty, [units[0] as char], Rest(ty, units[1..], false));
  }

  lemma NulSwallowsTwo(ty: CharType, units: seq<nat>)
    requires |units| >= 2 && IsOctalUnit(units[0]) && IsOctalUnit(units[1])
    ensures NulSwallows(ty, units, 2)
  {
    var tail := units[1..];
    RestAsIs(ty, units);
    RestAsIs(ty, tail);
    assert tail[1..] == units[2..];
    var c, d, rest := units[0] as char, tail[0] as char, Rest(ty, tail[1..], false);
    OctalOne(c);
    OctalMore([c], d);
    ReadNulDigits(ty, [c] + [d], rest);
    TwoChars(c, d, rest);
  }

  /** A NUL is read together with up to two octal digits that happen to follow it. */
  lemma ReadNul(ty: CharType, units: seq<nat>)
    ensures NulSwallows(ty, units, UnitRun(units, 2))
  {
    if units == [] || !IsOctalUnit(units[0]) {
      RestAsIs(ty, units);
      ReadNulDigits(ty, "", Rest(ty, units, false));
      assert "" + Rest(ty, units, false) == Rest(ty, units, false);
      assert units[0..] == units;
    } else if |units| == 1 || !IsOctalUnit(units[1]) {
      assert UnitRun(units[1..], 1) == 0;
      NulSwallowsOne(ty, units);
    } else {
      assert UnitRun(units[1..], 1) == 1;
      NulSwallowsTwo(ty, units);
    }
  }

  /** What is read back from the printed text, for every sequence of units. */
  lemma {:induction false} ReadRest(ty: CharType, units: seq<nat>, prev: bool)
    ensures ReadInside(ty, Rest(ty, units, prev)) == Some(ReadBack(units))
    decreases |units|
  {
    if units == [] {
      assert "\""[1..] == "";
    } else {
      var u, tail, hex := units[0], units[1..], PrintsHex(units[0]);
      ReadPiece(ty, prev, u, Rest(ty, tail, hex));
      if u == 0 {
        ReadNul(ty, tail);
        ReadRest(ty, tail[UnitRun(tail, 2)..], false);
      } else {
        RestAfterHex(ty, tail);
        ReadUnit(ty, u, Rest(ty, tail, hex));
        ReadRest(ty, tail, hex);
      }
    }
  }

  /** Reading a printed literal gives `ReadBack` of the units. */
  lemma ReadLiteral(ty: CharType, units: seq<nat>)
    ensures Read(ty, Literal(ty, units)) == Some(ReadBack(units))
  {
    ReadOpen(ty, Rest(ty, units, false));
    ReadRest(ty, units, false);
  }

  lemma {:induction false} ReadBackIsIdentity(units: seq<nat>)
    ensures |ReadBack(units)| <= |units|
    ensures ReadBack(units) == units <==> !NulBeforeOctal(units)
    decreases |units|
  {
    if units != [] {
      var tail := units[1..];
      var n := if units[0] == 0 then UnitRun(tail, 2) else 0;
      ReadBackIsIdentity(tail[n..]);
      assert tail[0..] == tail;
      if n == 0 {
        assert ReadBack(units) == units <==> ReadBack(tail) == tail by {
          assert units == [units[0]] + tail;
          assert tail[..0] == [];
        }
        if NulBeforeOctal(tail) {
          var k :| 0 <= k < |tail| - 1 && tail[k] == 0 && IsOctalUnit(tail[k + 1]);
          assert units[k + 1] == 0 && IsOctalUnit(units[k + 2]);
        }
        if NulBeforeOctal(units) {
          var k :| 0 <= k < |units| - 1 && units[k] == 0 && IsOctalUnit(units[k + 1]);
          assert k > 0 && tail[k - 1] == 0 && IsOctalUnit(tail[k]);
        }
      } else {
        assert units[0] == 0 && IsOctalUnit(units[1]);
      }
    }
  }

  /** The text printed for the units is read back as exactly those units if and only if no
      NUL is directly followed by an octal digit. */
  lemma RoundTrip(ty: CharType, units: seq<nat>)
    ensures Read(ty, Literal(ty, units)) == Some(units) <==> !NulBeforeOctal(units)
  {
    ReadLiteral(ty, units);
    ReadBackIsIdentity(units);
  }

  /** An input the printer does not get back: NUL and the digit one are read as U+0001. */
  lemma NulThenDigitIsLost(ty: CharType)
    ensures Read(ty, Literal(ty, [0, 0x31])) == Some([1])
  {
    var units: seq<nat> := [0, 0x31];
    assert units[1..] == [0x31] && UnitRun([0x31], 2) == 1 by {
      assert UnitRun([], 1) == 0 && [0x31][1..] == [];
    }
    assert [0x31][..1] == [0x31] && Swallowed([0x31]) == 1;
    assert ReadBack([]) == [] && [0x31][1..] == [];
    assert ReadBack(units) == [1];
    ReadLiteral(ty, units);
  }
}
