/** The patterns of the logger: how they are compiled, and what they stand for. */
module Patterns {
  import opened Int128Printer
  import opened Paddings

  /** A broken-down calendar time, with the offsets of the C library. */
  datatype Tm = Tm(year: int, mon: int, mday: int, hour: int, min: int, sec: int, wday: int)

  const ZERO_TM := Tm(0, 0, 0, 0, 0, 0, 0)

  /** A message: its time in nanoseconds since the epoch, and everything else about it. */
  datatype Message = Message(time: int, loggerName: string, payload: string)

  const NANOS := 1_000_000_000

  /** The second a message falls in. The conversion truncates towards zero. */
  function Secs(msg: Message): int {
    if msg.time >= 0 then msg.time / NANOS else -(-msg.time / NANOS)
  }

  /** The second of a message is its time in whole seconds, counted away from the epoch. */
  lemma SecondsAreWhole(msg: Message)
    ensures msg.time >= 0 ==> 1_000_000_000 * Secs(msg) <= msg.time < 1_000_000_000 * (Secs(msg) + 1)
    ensures msg.time <= 0 ==> 1_000_000_000 * (Secs(msg) - 1) < msg.time <= 1_000_000_000 * Secs(msg)
  {
  }

  // ---------- Compiling ----------

  /** What a flag prints, and the size it announces to the padder. Flags that need the
      broken-down time say so. */
  datatype Rendering =
    | Plain(text: Message -> string, size: Message -> nat)
    | Timed(timedText: (Message, Tm) -> string, timedSize: (Message, Tm) -> nat)

  function TextOf(rendering: Rendering, msg: Message, tm: Tm): string {
    match rendering
    case Plain(text, _) => text(msg)
    case Timed(text, _) => text(msg, tm)
  }

  function SizeOf(rendering: Rendering, msg: Message, tm: Tm): nat {
    match rendering
    case Plain(_, size) => size(msg)
    case Timed(_, size) => size(msg, tm)
  }

  /** The built-in flags other than `+` and `%`, and the two parts of what the full format prints.
      `!` is the function name, to which a misplaced truncation mark falls back. */
  datatype Flags = Flags(table: map<char, Rendering>, dateText: Tm -> string, afterDate: Message -> string) {
    predicate Valid() {
      '!' in table
    }
  }

  /** A piece of a compiled pattern. */
  datatype Piece = Chars(text: string) | Field(flag: char, padding: Padding) | Full

  function DigitsEnd(pattern: string, pos: nat): (end: nat)
    requires pos <= |pattern|
    ensures pos <= end <= |pattern|
    decreases |pattern| - pos
  {
    if pos < |pattern| && IsDigit(pattern[pos]) then DigitsEnd(pattern, pos + 1) else pos
  }

  function SideAt(pattern: string, pos: nat): Side {
    if pos < |pattern| && pattern[pos] == '-' then Right
    else if pos < |pattern| && pattern[pos] == '=' then Center else Left
  }

  /** The padding written at a position, and where it ends. The width is read as a 64-bit word. */
  function PadSpec(pattern: string, pos: nat): (r: (Padding, nat))
    requires pos <= |pattern|
    ensures pos <= r.1 <= |pattern| && Usable(r.0)
  {
    var side := SideAt(pattern, pos);
    var start := if side == Left then pos else pos + 1;
    var end := DigitsEnd(pattern, start);
    if end == start then (NO_PADDING, start)
    else
      var width := Value(pattern[start..end]) % TWO_64;
      var truncate := end < |pattern| && pattern[end] == '!';
      (Padding(if width < MAX_WIDTH then width else MAX_WIDTH, side, truncate, true),
       if truncate then end + 1 else end)
  }

  lemma WrapStep(width: int, value: int, digit: int)
    requires width == value % TWO_64
    ensures (width * 10 + digit) % TWO_64 == (10 * value + digit) % TWO_64
  {
    var q := value / TWO_64;
    assert 10 * value + digit == width * 10 + digit + TWO_64 * (q * 10);
  }

  /** Reads a width of at least one digit. */
  method ReadWidth(pattern: string, start: nat) returns (width: nat, it: nat)
    requires start < |pattern| && IsDigit(pattern[start])
    ensures it == DigitsEnd(pattern, start) && it > start
    ensures width == Value(pattern[start..it]) % TWO_64
  {
    width := DigitValue(pattern[start]);
    it := start + 1;
    assert pattern[start..it] == [pattern[start]];
    while it < |pattern| && IsDigit(pattern[it])
      invariant start < it <= |pattern| && DigitsEnd(pattern, start) == DigitsEnd(pattern, it)
      invariant width == Value(pattern[start..it]) % TWO_64
    {
      WrapStep(width, Value(pattern[start..it]), DigitValue(pattern[it]));
      assert pattern[start..it + 1][..it - start] == pattern[start..it];
      width := (width * 10 + DigitValue(pattern[it])) % TWO_64;
      it := it + 1;
    }
  }

  /** Reads the padding after a percent sign. */
  method HandlePadspec(pattern: string, pos: nat) returns (padding: Padding, it: nat)
    requires pos <= |pattern|
    ensures (padding, it) == PadSpec(pattern, pos)
  {
    it := pos;
    if it == |pattern| {
      return NO_PADDING, it;
    }
    var side;
    if pattern[it] == '-' {
      side := Right;
      it := it + 1;
    } else if pattern[it] == '=' {
      side := Center;
      it := it + 1;
    } else {
      side := Left;
    }
    if it == |pattern| || !IsDigit(pattern[it]) {
      return NO_PADDING, it;
    }
    var width;
    width, it := ReadWidth(pattern, it);
    var truncate := it < |pattern| && pattern[it] == '!';
    if truncate {
      it := it + 1;
    }
    padding := Padding(if width < MAX_WIDTH then width else MAX_WIDTH, side, truncate, true);
  }

  /** The pieces a flag compiles to. An unknown flag appears as it is written. */
  function FlagPieces(flags: Flags, flag: char, padding: Padding): seq<Piece> {
    if flag == '+' then [Full]
    else if flag == '%' then [Chars("%")]
    else if flag in flags.table then [Field(flag, padding)]
    else if !padding.truncate then [Chars(['%', flag])]
    else [Field('!', padding.(truncate := false)), Chars([flag])]
  }

  function Pending(userChars: string): seq<Piece> {
    if userChars == "" then [] else [Chars(userChars)]
  }

  /** A pattern is read as characters that stand for themselves and flags. */
  datatype Token = Literal(ch: char) | Flag(flag: char, padding: Padding)

  function Tokens(pattern: string, pos: nat): seq<Token>
    requires pos <= |pattern|
    decreases |pattern| - pos
  {
    if pos == |pattern| then []
    else if pattern[pos] != '%' then [Literal(pattern[pos])] + Tokens(pattern, pos + 1)
    else
      var (padding, it) := PadSpec(pattern, pos + 1);
      if it == |pattern| then [] else [Flag(pattern[it], padding)] + Tokens(pattern, it + 1)
  }

  /** The pieces of a pattern, after the characters in `userChars`. */
  function Compiled(flags: Flags, tokens: seq<Token>, userChars: string): seq<Piece> {
    if tokens == [] then Pending(userChars)
    else
      match tokens[0]
      case Literal(c) => Compiled(flags, tokens[1..], userChars + [c])
      case Flag(flag, padding) =>
        Pending(userChars) + FlagPieces(flags, flag, padding) + Compiled(flags, tokens[1..], "")
  }

  /** What compiling has done at a position: `before` and what is still to come are the whole. */
  ghost predicate Pends(flags: Flags, pattern: string, pos: nat, userChars: string, before: seq<Piece>,
                        whole: seq<Piece>)
    requires pos <= |pattern|
  {
    before + Compiled(flags, Tokens(pattern, pos), userChars) == whole
  }

  lemma PendsLiteral(flags: Flags, pattern: string, pos: nat, userChars: string, before: seq<Piece>, whole: seq<Piece>)
    requires pos < |pattern| && pattern[pos] != '%' && Pends(flags, pattern, pos, userChars, before, whole)
    ensures Pends(flags, pattern, pos + 1, userChars + [pattern[pos]], before, whole)
  {
    assert Tokens(pattern, pos)[1..] == Tokens(pattern, pos + 1);
  }

  lemma PendsFlag(flags: Flags, pattern: string, pos: nat, userChars: string, before: seq<Piece>, whole: seq<Piece>,
                  padding: Padding, it: nat)
    requires pos < |pattern| && pattern[pos] == '%' && Pends(flags, pattern, pos, userChars, before, whole)
    requires (padding, it) == PadSpec(pattern, pos + 1) && it < |pattern|
    ensures Pends(flags, pattern, it + 1, "",
                  before + Pending(userChars) + FlagPieces(flags, pattern[it], padding), whole)
  {
    var flag, rest := FlagPieces(flags, pattern[it], padding), Tokens(pattern, it + 1);
    assert Tokens(pattern, pos)[1..] == rest;
    assert before + (Pending(userChars) + flag + Compiled(flags, rest, "")) ==
           before + Pending(userChars) + flag + Compiled(flags, rest, "");
  }

  /** A percent sign with nothing after its padding stands for nothing. */
  lemma PendsNothing(flags: Flags, pattern: string, pos: nat, userChars: string, before: seq<Piece>, whole: seq<Piece>)
    requires pos < |pattern| && pattern[pos] == '%' && Pends(flags, pattern, pos, userChars, before, whole)
    requires PadSpec(pattern, pos + 1).1 == |pattern|
    ensures Pends(flags, pattern, |pattern|, "", before + Pending(userChars), whole)
  {
    assert Tokens(pattern, pos) == [] == Tokens(pattern, |pattern|);
    assert before + Pending(userChars) + [] == before + Pending(userChars);
  }

  lemma PendsEnd(flags: Flags, pattern: string, userChars: string, before: seq<Piece>, whole: seq<Piece>)
    requires Pends(flags, pattern, |pattern|, userChars, before, whole)
    ensures before + Pending(userChars) == whole
  {
  }

  // ---------- What a pattern means ----------

  /** A buffer with a piece printed to it. */
  function WithPiece(flags: Flags, before: string, piece: Piece, msg: Message, tm: Tm): string {
    match piece
    case Chars(text) => before + text
    case Field(flag, padding) =>
      if flag in flags.table then
        WithField(before, TextOf(flags.table[flag], msg, tm), SizeOf(flags.table[flag], msg, tm), padding)
      else before
    case Full => before + (flags.dateText(tm) + flags.afterDate(msg))
  }

  /** A buffer with a flag printed to it. */
  function WithFlag(flags: Flags, before: string, flag: char, padding: Padding, msg: Message, tm: Tm): string {
    if flag == '+' then before + (flags.dateText(tm) + flags.afterDate(msg))
    else if flag == '%' then before + "%"
    else if flag in flags.table then WithPiece(flags, before, Field(flag, padding), msg, tm)
    else if !padding.truncate then before + ['%', flag]
    else WithPiece(flags, before, Field('!', padding.(truncate := false)), msg, tm) + [flag]
  }

  type PiecePrinter = (string, Piece) -> string

  type FlagPrinter = (string, char, Padding) -> string

  function PrinterOf(flags: Flags, msg: Message, tm: Tm): PiecePrinter {
    (before, piece) => WithPiece(flags, before, piece, msg, tm)
  }

  function FlagPrinterOf(flags: Flags, msg: Message, tm: Tm): FlagPrinter {
    (before, flag, padding) => WithFlag(flags, before, flag, padding, msg, tm)
  }

  /** A buffer with some pieces printed to it. */
  function Printed(print1: PiecePrinter, before: string, pieces: seq<Piece>): string {
    if pieces == [] then before
    else print1(Printed(print1, before, pieces[..|pieces| - 1]), pieces[|pieces| - 1])
  }

  /** A buffer with what a pattern stands for, given what each flag does. */
  function Meaning(withFlag: FlagPrinter, before: string, tokens: seq<Token>): string
    decreases |tokens|
  {
    if tokens == [] then before
    else
      var after := match tokens[0]
        case Literal(c) => before + [c]
        case Flag(flag, padding) => withFlag(before, flag, padding);
      Meaning(withFlag, after, tokens[1..])
  }

  /** Pieces print what the flags they were compiled from stand for. */
  ghost predicate Agree(flags: Flags, print1: PiecePrinter, withFlag: FlagPrinter) {
    && (forall before, text :: print1(before, Chars(text)) == before + text)
    && (forall before, flag, padding ::
          Printed(print1, before, FlagPieces(flags, flag, padding)) == withFlag(before, flag, padding))
  }

  lemma FlagPiecesText(flags: Flags, before: string, flag: char, padding: Padding, msg: Message, tm: Tm)
    ensures Printed(PrinterOf(flags, msg, tm), before, FlagPieces(flags, flag, padding))
         == WithFlag(flags, before, flag, padding, msg, tm)
  {
    var pieces, print1 := FlagPieces(flags, flag, padding), PrinterOf(flags, msg, tm);
    assert Printed(print1, before, []) == before;
    if |pieces| == 1 {
      assert pieces[..0] == [];
    } else {
      assert pieces[..1] == [pieces[0]] && pieces[..1][..0] == [];
    }
  }

  lemma PrintersAgree(flags: Flags, msg: Message, tm: Tm)
    ensures Agree(flags, PrinterOf(flags, msg, tm), FlagPrinterOf(flags, msg, tm))
  {
    var print1, withFlag := PrinterOf(flags, msg, tm), FlagPrinterOf(flags, msg, tm);
    forall before, flag, padding
      ensures Printed(print1, before, FlagPieces(flags, flag, padding)) == withFlag(before, flag, padding)
    {
      FlagPiecesText(flags, before, flag, padding, msg, tm);
    }
  }

  lemma {:induction false} PrintedConcat(print1: PiecePrinter, before: string, a: seq<Piece>, b: seq<Piece>)
    ensures Printed(print1, before, a + b) == Printed(print1, Printed(print1, before, a), b)
  {
    if b == [] {
      assert a + b == a;
    } else {
      var n := |b| - 1;
      assert (a + b)[..|a + b| - 1] == a + b[..n];
      PrintedConcat(print1, before, a, b[..n]);
    }
  }

  lemma PrintedPending(print1: PiecePrinter, before: string, userChars: string)
    requires forall before, text :: print1(before, Chars(text)) == before + text
    ensures Printed(print1, before, Pending(userChars)) == before + userChars
  {
    if userChars != "" {
      assert Pending(userChars)[..0] == [];
    }
  }

  lemma PrintedParts(print1: PiecePrinter, before: string, userChars: string, pieces: seq<Piece>, rest: seq<Piece>)
    requires forall before, text :: print1(before, Chars(text)) == before + text
    ensures Printed(print1, before, Pending(userChars) + pieces + rest)
         == Printed(print1, Printed(print1, before + userChars, pieces), rest)
  {
    PrintedPending(print1, before, userChars);
    PrintedConcat(print1, before, Pending(userChars), pieces);
    PrintedConcat(print1, before, Pending(userChars) + pieces, rest);
  }

  /** Compiling a pattern keeps its meaning. */
  lemma {:induction false} CompiledMeaning(flags: Flags, print1: PiecePrinter, withFlag: FlagPrinter,
                                           before: string, tokens: seq<Token>, userChars: string)
    requires Agree(flags, print1, withFlag)
    ensures Printed(print1, before, Compiled(flags, tokens, userChars)) == Meaning(withFlag, before + userChars, tokens)
    decreases |tokens|
  {
    if tokens == [] {
      PrintedPending(print1, before, userChars);
    } else {
      match tokens[0]
      case Literal(c) =>
        CompiledMeaning(flags, print1, withFlag, before, tokens[1..], userChars + [c]);
        assert before + userChars + [c] == before + (userChars + [c]);
      case Flag(flag, padding) =>
        var after := withFlag(before + userChars, flag, padding);
        CompiledMeaning(flags, print1, withFlag, after, tokens[1..], "");
        assert after + "" == after;
        PrintedParts(print1, before, userChars, FlagPieces(flags, flag, padding), Compiled(flags, tokens[1..], ""));
    }
  }

  /** A text in which every percent sign is doubled. */
  function Doubled(text: string): string {
    if text == "" then ""
    else (if text[0] == '%' then "%%" else [text[0]]) + Doubled(text[1..])
  }

  /** One doubled percent sign, or another character, prints as one character. */
  lemma DoubledStep(withFlag: FlagPrinter, before: string, pattern: string, pos: nat)
    requires pos < |pattern| && (pattern[pos] == '%' ==> pos + 1 < |pattern| && pattern[pos + 1] == '%')
    requires forall before, padding :: withFlag(before, '%', padding) == before + "%"
    ensures Meaning(withFlag, before, Tokens(pattern, pos)) ==
            Meaning(withFlag, before + [pattern[pos]],
                    Tokens(pattern, if pattern[pos] == '%' then pos + 2 else pos + 1))
  {
    if pattern[pos] == '%' {
      assert Tokens(pattern, pos) == [Flag('%', NO_PADDING)] + Tokens(pattern, pos + 2);
      assert Tokens(pattern, pos)[1..] == Tokens(pattern, pos + 2);
    } else {
      assert Tokens(pattern, pos)[1..] == Tokens(pattern, pos + 1);
    }
  }

  lemma DoubledHead(pattern: string, pos: nat, text: string)
    requires pos <= |pattern| && pattern[pos..] == Doubled(text) && text != ""
    ensures pos < |pattern| && pattern[pos] == text[0]
    ensures text[0] == '%' ==> pos + 1 < |pattern| && pattern[pos + 1] == '%'
    ensures pattern[if text[0] == '%' then pos + 2 else pos + 1..] == Doubled(text[1..])
  {
    var first := if text[0] == '%' then "%%" else [text[0]];
    assert pattern[pos..] == first + Doubled(text[1..]);
    assert pattern[pos] == first[0] && (text[0] == '%' ==> pattern[pos + 1] == first[1]);
    assert pattern[pos + |first|..] == pattern[pos..][|first|..];
  }

  /** What the rest of a pattern prints after a buffer. */
  function RestPrinter(withFlag: FlagPrinter, pattern: string): (string, nat) -> string {
    (before: string, pos: nat) => if pos <= |pattern| then Meaning(withFlag, before, Tokens(pattern, pos)) else before
  }

  ghost predicate StepsAt(rest: (string, nat) -> string, pattern: string, before: string, pos: nat) {
    pos < |pattern| && (pattern[pos] == '%' ==> pos + 1 < |pattern| && pattern[pos + 1] == '%') ==>
      rest(before, pos) == rest(before + [pattern[pos]], if pattern[pos] == '%' then pos + 2 else pos + 1)
  }

  /** Doubled percent signs and other characters are printed one by one. */
  lemma {:induction false} DoubledPrintsText(rest: (string, nat) -> string, before: string, pattern: string, pos: nat,
                                             text: string)
    requires pos <= |pattern| && pattern[pos..] == Doubled(text)
    requires forall before, pos :: StepsAt(rest, pattern, before, pos)
    requires forall before :: rest(before, |pattern|) == before
    ensures rest(before, pos) == before + text
    decreases |text|
  {
    if text == "" {
      assert |pattern[pos..]| == 0;
    } else {
      DoubledHead(pattern, pos, text);
      assert StepsAt(rest, pattern, before, pos);
      DoubledPrintsText(rest, before + [text[0]], pattern, if text[0] == '%' then pos + 2 else pos + 1, text[1..]);
      assert before + [text[0]] + text[1..] == before + text;
    }
  }

  /** Does a piece need the broken-down time? */
  predicate NeedsTime(flags: Flags, piece: Piece) {
    piece.Full? || (piece.Field? && piece.flag in flags.table && flags.table[piece.flag].Timed?)
  }

  /** Pieces that need no broken-down time print the same at all times. */
  lemma {:induction false} TimeIrrelevant(flags: Flags, before: string, pieces: seq<Piece>, msg: Message, tm: Tm,
                                          tm': Tm)
    requires forall piece <- pieces :: !NeedsTime(flags, piece)
    ensures Printed(PrinterOf(flags, msg, tm), before, pieces) == Printed(PrinterOf(flags, msg, tm'), before, pieces)
  {
    if pieces != [] {
      var n := |pieces| - 1;
      assert pieces[n] in pieces && forall piece <- pieces[..n] :: piece in pieces;
      TimeIrrelevant(flags, before, pieces[..n], msg, tm, tm');
    }
  }

  // ---------- How flags are written ----------

  lemma {:induction false} DigitsEndAfter(head: string, digits: string, rest: string)
    requires (forall c <- digits :: IsDigit(c)) && (rest == "" || !IsDigit(rest[0]))
    ensures DigitsEnd(head + digits + rest, |head|) == |head + digits|
    decreases |digits|
  {
    var text := head + digits + rest;
    if digits == "" {
      assert rest != "" ==> text[|head|] == rest[0];
    } else {
      assert text[|head|] == digits[0];
      assert text == (head + [digits[0]]) + digits[1..] + rest;
      DigitsEndAfter(head + [digits[0]], digits[1..], rest);
    }
  }

  /** A field is written as a side mark, its width and a truncation mark. */
  ghost predicate IsPadding(mark: string, digits: string, bang: string, rest: string) {
    && mark in {"", "-", "="} && bang in {"", "!"}
    && (forall c <- digits :: c in "0123456789")
    && (digits == "" ==> bang == "" && (rest != "" ==> rest[0] !in "0123456789" && (mark == "" ==> rest[0] !in "-=")))
    && (digits != "" && bang == "" && rest != "" ==> rest[0] !in "!0123456789")
  }

  /** The padding so written: `-` leaves the text at the left of its field, `=` in the middle. */
  ghost function PaddingOf(mark: string, digits: string, bang: string): Padding {
    if digits == "" then Padding(0, Left, false, false)
    else
      var width := Value(digits) % 0x1_0000_0000_0000_0000;
      var side := if mark == "-" then Right else if mark == "=" then Center else Left;
      Padding(if width > 64 then 64 else width, side, bang == "!", true)
  }

  lemma DigitsAreListed(text: string)
    requires forall c <- text :: c in "0123456789"
    ensures forall c <- text :: IsDigit(c)
  {
  }

  /** A padding as it is written, with something before and after it. */
  ghost function Written(head: string, mark: string, digits: string, bang: string, rest: string): (text: string)
    ensures |text| == |head| + |mark| + |digits| + |bang| + |rest|
  {
    head + mark + digits + bang + rest
  }

  lemma MarkIsRead(head: string, mark: string, digits: string, bang: string, rest: string)
    requires IsPadding(mark, digits, bang, rest)
    ensures SideAt(Written(head, mark, digits, bang, rest), |head|)
         == if mark == "-" then Right else if mark == "=" then Center else Left
  {
    var text, tail := Written(head, mark, digits, bang, rest), mark + digits + bang + rest;
    assert text == head + tail;
    assert tail != "" ==> text[|head|] == tail[0];
    if mark != "" {
      assert tail[0] == mark[0];
    } else if digits != "" {
      assert tail[0] == digits[0] && digits[0] in digits;
    } else {
      assert tail == rest;
    }
  }

  lemma DigitsAreRead(head: string, mark: string, digits: string, bang: string, rest: string)
    requires IsPadding(mark, digits, bang, rest)
    ensures var (text, start) := (Written(head, mark, digits, bang, rest), |head| + |mark|);
            && DigitsEnd(text, start) == start + |digits| && text[start..start + |digits|] == digits
  {
    DigitsAreListed(digits);
    assert Written(head, mark, digits, bang, rest) == (head + mark) + digits + (bang + rest);
    DigitsEndAfter(head + mark, digits, bang + rest);
  }

  lemma BangIsRead(head: string, mark: string, digits: string, bang: string, rest: string)
    requires IsPadding(mark, digits, bang, rest) && digits != ""
    ensures var (text, end) := (Written(head, mark, digits, bang, rest), |head| + |mark| + |digits|);
            bang == "!" <==> end < |text| && text[end] == '!'
  {
    var text, end := Written(head, mark, digits, bang, rest), |head| + |mark| + |digits|;
    assert text[end..] == bang + rest;
    assert end < |text| ==> text[end] == (bang + rest)[0];
  }

  /** Any padding is read as it is written, wherever it stands. */
  lemma PaddingIsRead(head: string, mark: string, digits: string, bang: string, rest: string)
    requires IsPadding(mark, digits, bang, rest)
    ensures PadSpec(Written(head, mark, digits, bang, rest), |head|) ==
            (PaddingOf(mark, digits, bang), |head| + |mark| + |digits| + |bang|)
  {
    MarkIsRead(head, mark, digits, bang, rest);
    DigitsAreRead(head, mark, digits, bang, rest);
    if digits != "" {
      BangIsRead(head, mark, digits, bang, rest);
    }
  }

  // ---------- Lines ----------

  /** A buffer with the line of a message printed to it, with a given broken-down time. */
  function Line(flags: Flags, before: string, pattern: string, eol: string, msg: Message, tm: Tm): string {
    Meaning(FlagPrinterOf(flags, msg, tm), before, Tokens(pattern, 0)) + eol
  }

  lemma MeaningOfOne(withFlag: FlagPrinter, before: string, flag: char, padding: Padding)
    ensures Meaning(withFlag, before, [Flag(flag, padding)]) == withFlag(before, flag, padding)
  {
    assert [Flag(flag, padding)][1..] == [];
  }

  lemma OneFlagTokens(mark: string, digits: string, bang: string, flag: char)
    requires IsPadding(mark, digits, bang, [flag])
    ensures Tokens(Written("%", mark, digits, bang, [flag]), 0) == [Flag(flag, PaddingOf(mark, digits, bang))]
  {
    var pattern := Written("%", mark, digits, bang, [flag]);
    PaddingIsRead("%", mark, digits, bang, [flag]);
    assert Tokens(pattern, |pattern|) == [];
  }

  /** What a line consisting of one flag prints. */
  lemma OneFlagLine(flags: Flags, before: string, mark: string, digits: string, bang: string, flag: char, eol: string,
                    msg: Message, tm: Tm)
    requires IsPadding(mark, digits, bang, [flag])
    ensures Line(flags, before, Written("%", mark, digits, bang, [flag]), eol, msg, tm)
         == WithFlag(flags, before, flag, PaddingOf(mark, digits, bang), msg, tm) + eol
  {
    OneFlagTokens(mark, digits, bang, flag);
    MeaningOfOne(FlagPrinterOf(flags, msg, tm), before, flag, PaddingOf(mark, digits, bang));
  }

  /** A known flag prints its text in the field asked for. */
  lemma KnownFlagLine(flags: Flags, before: string, mark: string, digits: string, bang: string, flag: char, eol: string,
                      msg: Message, tm: Tm)
    requires IsPadding(mark, digits, bang, [flag]) && flag in flags.table && flag !in "+%"
    ensures var f := flags.table[flag];
            Line(flags, before, Written("%", mark, digits, bang, [flag]), eol, msg, tm)
              == WithField(before, if f.Plain? then f.text(msg) else f.timedText(msg, tm),
                           if f.Plain? then f.size(msg) else f.timedSize(msg, tm), PaddingOf(mark, digits, bang)) + eol
  {
    OneFlagLine(flags, before, mark, digits, bang, flag, eol, msg, tm);
  }

  /** An unknown flag is printed after a percent sign, and after a truncation mark it is printed
      after the function name. The full format and the percent sign take no notice of a padding. */
  lemma OtherFlagLine(flags: Flags, before: string, mark: string, digits: string, bang: string, flag: char, eol: string,
                      msg: Message, tm: Tm)
    requires IsPadding(mark, digits, bang, [flag]) && (flag in "+%" || flag !in flags.table)
    ensures var line := Line(flags, before, Written("%", mark, digits, bang, [flag]), eol, msg, tm);
            && (flag == '+' ==> line == before + (flags.dateText(tm) + flags.afterDate(msg)) + eol)
            && (flag == '%' ==> line == before + "%" + eol)
            && (flag !in "+%" && bang == "" ==> line == before + ['%', flag] + eol)
            && (flag !in "+%" && bang == "!" && flags.Valid() ==>
                  var f := flags.table['!'];
                  line == WithField(before, if f.Plain? then f.text(msg) else f.timedText(msg, tm),
                                    if f.Plain? then f.size(msg) else f.timedSize(msg, tm),
                                    PaddingOf(mark, digits, "")) + [flag] + eol)
  {
    OneFlagLine(flags, before, mark, digits, bang, flag, eol, msg, tm);
  }

  /** The pieces of a pattern print its line. */
  lemma LineOfPieces(flags: Flags, before: string, pattern: string, eol: string, msg: Message, tm: Tm)
    ensures Printed(PrinterOf(flags, msg, tm), before, Compiled(flags, Tokens(pattern, 0), "")) + eol
         == Line(flags, before, pattern, eol, msg, tm)
  {
    PrintersAgree(flags, msg, tm);
    CompiledMeaning(flags, PrinterOf(flags, msg, tm), FlagPrinterOf(flags, msg, tm), before, Tokens(pattern, 0), "");
    assert before + "" == before;
  }

  /** The line of a text with its percent signs doubled is the text, for every message. */
  lemma DoubledLine(flags: Flags, before: string, text: string, eol: string, msg: Message, tm: Tm)
    ensures Line(flags, before, Doubled(text), eol, msg, tm) == before + text + eol
  {
    assert Doubled(text)[0..] == Doubled(text);
    var withFlag, pattern := FlagPrinterOf(flags, msg, tm), Doubled(text);
    var rest := RestPrinter(withFlag, pattern);
    forall before, pos: nat ensures StepsAt(rest, pattern, before, pos) {
      if pos < |pattern| && (pattern[pos] == '%' ==> pos + 1 < |pattern| && pattern[pos + 1] == '%') {
        DoubledStep(withFlag, before, pattern, pos);
      }
    }
    assert forall before :: rest(before, |pattern|) == before;
    DoubledPrintsText(rest, before, pattern, 0, text);
  }
}
