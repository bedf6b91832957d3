/** The pattern formatter of the logger. Patterns are compiled once, and the broken-down time of
    a message and its date text are cached for as long as messages fall in one second. */
module PatternFormatting {
  import opened Int128Printer
  import opened Paddings
  import opened Patterns

  /** The full format, which keeps the date text of the last second it printed. */
  class FullFormatter {
    var cacheTimestamp: int
    var cachedDatetime: string

    constructor ()
      ensures cacheTimestamp == 0 && cachedDatetime == ""
    {
      cacheTimestamp, cachedDatetime := 0, "";
    }

    /** The cache is empty, or holds the date text of a second. */
    ghost predicate Holds(flags: Flags, secs: int, tm: Tm)
      reads this
    {
      cachedDatetime == "" || (cacheTimestamp == secs && cachedDatetime == flags.dateText(tm))
    }

    method Format(flags: Flags, msg: Message, tm: Tm, dest: MemoryBuffer)
      requires Holds(flags, Secs(msg), tm) || cacheTimestamp != Secs(msg)
      modifies this, dest
      ensures Holds(flags, Secs(msg), tm)
      ensures dest.text == old(dest.text) + (flags.dateText(tm) + flags.afterDate(msg))
    {
      var secs := Secs(msg);
      if cacheTimestamp != secs || cachedDatetime == "" {
        cachedDatetime := flags.dateText(tm);
        cacheTimestamp := secs;
      }
      dest.Append(cachedDatetime);
      dest.Append(flags.afterDate(msg));
    }
  }

  /** A compiled piece: all but the full format keep no state. */
  datatype Formatter = Stateless(piece: Piece) | Stateful(full: FullFormatter)

  function Erased(f: Formatter): Piece {
    match f
    case Stateless(piece) => piece
    case Stateful(full) => Full
  }

  function AllErased(formatters: seq<Formatter>): seq<Piece> {
    seq(|formatters|, i requires 0 <= i < |formatters| => Erased(formatters[i]))
  }

  lemma PrintedStep(print1: PiecePrinter, before: string, pieces: seq<Piece>, i: nat)
    requires i < |pieces|
    ensures Printed(print1, before, pieces[..i + 1]) == print1(Printed(print1, before, pieces[..i]), pieces[i])
  {
    assert pieces[..i + 1][..i] == pieces[..i];
  }

  /** Stateless pieces are not the full format, and their padding is usable. */
  predicate WellFormed(f: Formatter) {
    f.Stateless? ==> !f.piece.Full? && (f.piece.Field? ==> Usable(f.piece.padding))
  }

  class PatternFormatter {
    const flags: Flags
    const clock: int -> Tm  // the broken-down time of a second
    const eol: string
    var pattern: string
    var needLocaltime: bool
    var cachedTm: Tm
    var lastLogSecs: int
    var formatters: seq<Formatter>
    ghost var fulls: set<FullFormatter>

    /** The formatters are those of the pattern. */
    ghost predicate IsCompiled()
      reads this
    {
      AllErased(formatters) == Compiled(flags, Tokens(pattern, 0), "")
    }

    /** The caches of the formatters are in step with the cached time. */
    ghost predicate Valid()
      reads this, fulls
    {
      && Typed()
      && forall f <- formatters :: f.Stateful? ==> f.full.Holds(flags, lastLogSecs, cachedTm)
    }

    ghost predicate Typed()
      reads this
    {
      && flags.Valid()
      && (forall f <- formatters :: WellFormed(f))
      && (forall f <- formatters :: f.Stateful? ==> f.full in fulls)
      && (needLocaltime <==> exists f <- formatters :: NeedsTime(flags, Erased(f)))
      && (fulls != {} ==> needLocaltime)
    }

    constructor (flags: Flags, clock: int -> Tm, pattern: string, eol: string)
      requires flags.Valid()
      ensures Valid() && IsCompiled() && fresh(fulls)
      ensures this.flags == flags && this.clock == clock && this.pattern == pattern && this.eol == eol
      ensures lastLogSecs == 0 && cachedTm == ZERO_TM
    {
      this.flags, this.clock, this.pattern, this.eol := flags, clock, pattern, eol;
      needLocaltime, cachedTm, lastLogSecs, formatters := false, ZERO_TM, 0, [];
      fulls := {};
      new;
      CompilePattern(pattern);
    }

    method SetPattern(pattern: string)
      requires flags.Valid()
      modifies this
      ensures Valid() && IsCompiled() && fresh(fulls) && this.pattern == pattern
      ensures lastLogSecs == old(lastLogSecs) && cachedTm == old(cachedTm)
    {
      this.pattern := pattern;
      needLocaltime := false;
      CompilePattern(pattern);
    }

    /** Adds a formatter. */
    method PushBack(f: Formatter)
      requires Typed() && WellFormed(f)
      modifies this`formatters, this`fulls, this`needLocaltime
      ensures Typed() && formatters == old(formatters) + [f]
      ensures AllErased(formatters) == AllErased(old(formatters)) + [Erased(f)]
      ensures fulls == old(fulls) + if f.Stateful? then {f.full} else {}
    {
      formatters := formatters + [f];
      if f.Stateful? {
        fulls := fulls + {f.full};
      }
      if NeedsTime(flags, Erased(f)) {
        needLocaltime := true;
      }
      assert f in formatters;
    }

    method HandleFlag(flag: char, padding: Padding)
      requires Typed() && Usable(padding)
      modifies this`formatters, this`fulls, this`needLocaltime
      ensures Typed() && fresh(fulls - old(fulls))
      ensures AllErased(formatters) == AllErased(old(formatters)) + FlagPieces(flags, flag, padding)
      ensures forall full <- fulls - old(fulls) :: full.cachedDatetime == ""
    {
      if flag == '+' {
        var full := new FullFormatter();
        PushBack(Stateful(full));
      } else if flag == '%' {
        PushBack(Stateless(Chars("%")));
      } else if flag in flags.table {
        PushBack(Stateless(Field(flag, padding)));
      } else if !padding.truncate {
        PushBack(Stateless(Chars(['%', flag])));
      } else {
        PushBack(Stateless(Field('!', padding.(truncate := false))));
        PushBack(Stateless(Chars([flag])));
      }
    }

    method CompilePattern(pattern: string)
      requires flags.Valid() && !needLocaltime
      modifies this`formatters, this`fulls, this`needLocaltime
      ensures AllErased(formatters) == Compiled(flags, Tokens(pattern, 0), "")
      ensures Typed() && fresh(fulls)
      ensures forall full <- fulls :: full.cachedDatetime == ""
    {
      formatters, fulls := [], {};
      var userChars := "";
      var it := 0;
      ghost var whole := Compiled(flags, Tokens(pattern, 0), "");
      assert AllErased(formatters) + whole == whole;
      while it < |pattern|
        invariant it <= |pattern| && Typed() && fresh(fulls)
        invariant forall full <- fulls :: full.cachedDatetime == ""
        invariant Pends(flags, pattern, it, userChars, AllErased(formatters), whole)
      {
        if pattern[it] == '%' {
          it := CompileFlag(pattern, it, userChars, whole);
          userChars := "";
        } else {
          PendsLiteral(flags, pattern, it, userChars, AllErased(formatters), whole);
          userChars := userChars + [pattern[it]];
          it := it + 1;
        }
      }
      PendsEnd(flags, pattern, userChars, AllErased(formatters), whole);
      Flush(userChars);
    }

    /** Compiles the flag after a padding, if there is one. */
    method CompileAfter(pattern: string, pos: nat, padding: Padding, end: nat, ghost userChars: string,
                        ghost before: seq<Piece>, ghost whole: seq<Piece>)
      returns (it: nat)
      requires pos < |pattern| && pattern[pos] == '%' && (padding, end) == PadSpec(pattern, pos + 1) && Typed()
      requires Pends(flags, pattern, pos, userChars, before, whole)
      requires AllErased(formatters) == before + Pending(userChars)
      modifies this`formatters, this`fulls, this`needLocaltime
      ensures pos < it <= |pattern| && Typed()
      ensures Pends(flags, pattern, it, "", AllErased(formatters), whole)
      ensures fresh(fulls - old(fulls)) && forall full <- fulls - old(fulls) :: full.cachedDatetime == ""
    {
      it := end;
      if it == |pattern| {
        PendsNothing(flags, pattern, pos, userChars, before, whole);
        return;
      }
      PendsFlag(flags, pattern, pos, userChars, before, whole, padding, it);
      HandleFlag(pattern[it], padding);
      it := it + 1;
    }

    /** Compiles a percent sign and its flag, after the characters found so far. */
    method CompileFlag(pattern: string, pos: nat, userChars: string, ghost whole: seq<Piece>) returns (it: nat)
      requires pos < |pattern| && pattern[pos] == '%' && Typed()
      requires Pends(flags, pattern, pos, userChars, AllErased(formatters), whole)
      modifies this`formatters, this`fulls, this`needLocaltime
      ensures pos < it <= |pattern| && Typed()
      ensures Pends(flags, pattern, it, "", AllErased(formatters), whole)
      ensures fresh(fulls - old(fulls)) && forall full <- fulls - old(fulls) :: full.cachedDatetime == ""
    {
      ghost var before := AllErased(formatters);
      Flush(userChars);
      var padding;
      padding, it := HandlePadspec(pattern, pos + 1);
      it := CompileAfter(pattern, pos, padding, it, userChars, before, whole);
    }

    /** Appends the characters found so far, if any. */
    method Flush(userChars: string)
      requires Typed()
      modifies this`formatters, this`fulls, this`needLocaltime
      ensures Typed() && fulls == old(fulls)
      ensures AllErased(formatters) == AllErased(old(formatters)) + Pending(userChars)
    {
      if userChars != "" {
        PushBack(Stateless(Chars(userChars)));
      }
    }

    /** Prints one piece of a line. */
    method FormatOne(f: Formatter, msg: Message, dest: MemoryBuffer)
      requires WellFormed(f)
      requires f.Stateful? ==> f.full.Holds(flags, Secs(msg), cachedTm) || f.full.cacheTimestamp != Secs(msg)
      modifies if f.Stateful? then {f.full} else {}, dest
      ensures f.Stateful? ==> f.full.Holds(flags, Secs(msg), cachedTm)
      ensures dest.text == WithPiece(flags, old(dest.text), Erased(f), msg, cachedTm)
    {
      match f
      case Stateful(full) =>
        full.Format(flags, msg, cachedTm, dest);
      case Stateless(Chars(text)) =>
        dest.Append(text);
      case Stateless(Field(flag, padding)) =>
        if flag in flags.table {
          var text := TextOf(flags.table[flag], msg, cachedTm);
          var size := SizeOf(flags.table[flag], msg, cachedTm);
          if padding.enabled {
            AppendPadded(text, size, padding, dest);
          } else {
            NoField(dest.text, text, size);
            dest.Append(text);
          }
        }
    }

    /** Prints the next piece of a line. */
    method FormatNext(i: nat, msg: Message, dest: MemoryBuffer, ghost before: string)
      requires i < |formatters| && WellFormed(formatters[i])
      requires var f := formatters[i];
               f.Stateful? ==> f.full.Holds(flags, Secs(msg), cachedTm) || f.full.cacheTimestamp != Secs(msg)
      requires dest.text == Printed(PrinterOf(flags, msg, cachedTm), before, AllErased(formatters)[..i])
      modifies if formatters[i].Stateful? then {formatters[i].full} else {}, dest
      ensures formatters[i].Stateful? ==> formatters[i].full.Holds(flags, Secs(msg), cachedTm)
      ensures dest.text == Printed(PrinterOf(flags, msg, cachedTm), before, AllErased(formatters)[..i + 1])
    {
      PrintedStep(PrinterOf(flags, msg, cachedTm), before, AllErased(formatters), i);
      FormatOne(formatters[i], msg, dest);
    }

    /** Runs the formatters. A cache that is not in step with the time is of another second. */
    method FormatPieces(msg: Message, dest: MemoryBuffer, ghost was: int, ghost wasTm: Tm)
      requires Typed()
      requires forall f <- formatters :: f.Stateful? ==> f.full.Holds(flags, was, wasTm)
      requires fulls != {} ==> lastLogSecs == Secs(msg) && (was == lastLogSecs ==> wasTm == cachedTm)
      modifies fulls, dest
      ensures forall f <- formatters :: f.Stateful? ==> f.full.Holds(flags, lastLogSecs, cachedTm)
      ensures dest.text == Printed(PrinterOf(flags, msg, cachedTm), old(dest.text), AllErased(formatters))
    {
      ghost var before := dest.text;
      for i := 0 to |formatters|
        invariant dest.text == Printed(PrinterOf(flags, msg, cachedTm), before, AllErased(formatters)[..i])
        invariant forall f <- formatters :: f.Stateful? ==>
                    f.full.Holds(flags, lastLogSecs, cachedTm) || f.full.Holds(flags, was, wasTm)
        invariant forall f <- formatters[..i] :: f.Stateful? ==> f.full.Holds(flags, lastLogSecs, cachedTm)
      {
        assert formatters[i] in formatters;
        FormatNext(i, msg, dest, before);
      }
      assert AllErased(formatters)[..|formatters|] == AllErased(formatters);
    }

    /** Refreshes the cached time for a message of another second. */
    method RefreshTime(msg: Message)
      modifies this`lastLogSecs, this`cachedTm
      ensures (lastLogSecs, cachedTm) ==
              if needLocaltime && Secs(msg) != old(lastLogSecs) then (Secs(msg), clock(Secs(msg)))
              else (old(lastLogSecs), old(cachedTm))
    {
      if needLocaltime {
        var secs := Secs(msg);
        if secs != lastLogSecs {
          cachedTm := clock(secs);
          lastLogSecs := secs;
        }
      }
    }

    /** Prints a message to a buffer. */
    method Format(msg: Message, dest: MemoryBuffer)
      requires Valid()
      modifies this`lastLogSecs, this`cachedTm, fulls, dest
      ensures Valid()
      ensures (lastLogSecs, cachedTm) ==
              if needLocaltime && Secs(msg) != old(lastLogSecs) then (Secs(msg), clock(Secs(msg)))
              else (old(lastLogSecs), old(cachedTm))
      ensures dest.text == Printed(PrinterOf(flags, msg, cachedTm), old(dest.text), AllErased(formatters)) + eol
    {
      RefreshTime(msg);
      FormatPieces(msg, dest, old(lastLogSecs), old(cachedTm));
      dest.Append(eol);
    }
  }

  /** A number in decimal. */
  function Decimal(n: int): string
    decreases if n < 0 then -n + 1 else n
  {
    if n < 0 then "-" + Decimal(-n)
    else if n < 10 then [DigitChar(n)]
    else Decimal(n / 10) + [DigitChar(n % 10)]
  }

  function Pad2(n: int): string {
    if 0 <= n < 10 then "0" + Decimal(n) else Decimal(n)
  }

  function AfterYear(tm: Tm): string {
    "-" + Pad2(tm.mon + 1) + "-" + Pad2(tm.mday) + " " + Pad2(tm.hour) + ":" + Pad2(tm.min) + ":" + Pad2(tm.sec) + "."
  }

  /** The date text of the full format. */
  function DateText(tm: Tm): string {
    "[" + Decimal(tm.year + 1900) + AfterYear(tm)
  }

  lemma OneMoreDigit(n: int)
    requires n >= 10
    ensures Decimal(n) == Decimal(n / 10) + ["0123456789"[n % 10]]
  {
  }

  lemma OneDigit(n: int)
    requires 0 <= n < 10
    ensures Decimal(n) == ["0123456789"[n]]
  {
  }

  lemma TwoDigits(n: int)
    requires 0 <= n < 100
    ensures Pad2(n) == ["0123456789"[n / 10], "0123456789"[n % 10]]
  {
    if n >= 10 {
      OneMoreDigit(n);
      OneDigit(n / 10);
    } else {
      OneDigit(n);
    }
  }

  lemma FourDigits(c: int, b: int, a: int, n: int)
    requires 1 <= c < 10 && c == b / 10 && b == a / 10 && a == n / 10
    ensures Decimal(n) == ["0123456789"[c], "0123456789"[b % 10], "0123456789"[a % 10], "0123456789"[n % 10]]
  {
    OneDigit(c);
    OneMoreDigit(b);
    OneMoreDigit(a);
    OneMoreDigit(n);
  }

  /** The fields of a date text and what stands between them. */
  ghost predicate HasFields(text: string, year: string, mon: string, mday: string, hour: string, min: string,
                            sec: string) {
    && |text| == 21 && text[0] == '[' && text[5] == text[8] == '-' && text[11] == ' '
    && text[14] == text[17] == ':' && text[20] == '.'
    && text[1..5] == year && text[6..8] == mon && text[9..11] == mday
    && text[12..14] == hour && text[15..17] == min && text[18..20] == sec
  }

  lemma FieldsAreJoined(year: string, mon: string, mday: string, hour: string, min: string, sec: string)
    requires |year| == 4 && |mon| == |mday| == |hour| == |min| == |sec| == 2
    ensures HasFields("[" + year + ("-" + mon + "-" + mday + " " + hour + ":" + min + ":" + sec + "."),
                      year, mon, mday, hour, min, sec)
  {
    var date, time := "-" + mon + "-" + mday + " ", hour + ":" + min + ":" + sec + ".";
    var head, text := "[" + year, "[" + year + (date + time);
    assert "-" + mon + "-" + mday + " " + hour + ":" + min + ":" + sec + "." == date + time;
    assert text[..5] == head && text[5..12] == date && text[12..] == time;
    assert head[1..] == year && text[1..5] == head[1..];
    assert date[1..3] == mon && text[6..8] == date[1..3] && date[4..6] == mday && text[9..11] == date[4..6];
    assert time[..2] == hour && text[12..14] == time[..2] && time[3..5] == min && text[15..17] == time[3..5];
    assert time[6..8] == sec && text[18..20] == time[6..8];
  }

  /** The date text of every time whose year has four digits, digit by digit: years count from
      1900 and months from zero. */
  lemma DateTextReads(tm: Tm)
    requires -900 <= tm.year < 8100 && 0 <= tm.mon < 12 && 0 <= tm.mday < 100
    requires 0 <= tm.hour < 100 && 0 <= tm.min < 100 && 0 <= tm.sec < 100
    ensures var (d, year, month) := ("0123456789", tm.year + 1900, tm.mon + 1);
            HasFields(DateText(tm),
                      [d[year / 10 / 10 / 10], d[year / 10 / 10 % 10], d[year / 10 % 10], d[year % 10]],
                      [d[month / 10], d[month % 10]], [d[tm.mday / 10], d[tm.mday % 10]],
                      [d[tm.hour / 10], d[tm.hour % 10]], [d[tm.min / 10], d[tm.min % 10]],
                      [d[tm.sec / 10], d[tm.sec % 10]])
  {
    var year := tm.year + 1900;
    FourDigits(year / 10 / 10 / 10, year / 10 / 10, year / 10, year);
    TwoDigits(tm.mon + 1);
    TwoDigits(tm.mday);
    TwoDigits(tm.hour);
    TwoDigits(tm.min);
    TwoDigits(tm.sec);
    FieldsAreJoined(Decimal(year), Pad2(tm.mon + 1), Pad2(tm.mday), Pad2(tm.hour), Pad2(tm.min), Pad2(tm.sec));
  }

  // ---------- The caches do not show ----------

  /** No message yet was outside second zero of the epoch. */
  predicate AllInSecondZero(messages: seq<Message>) {
    forall msg <- messages :: Secs(msg) == 0
  }

  /** The broken-down time shown to the last message: before any message outside second zero,
      the zeroed cache counts as fresh. */
  function Shown(clock: int -> Tm, messages: seq<Message>): Tm
    requires messages != []
  {
    if AllInSecondZero(messages) then ZERO_TM else clock(Secs(messages[|messages| - 1]))
  }

  /** The time cache after some messages. */
  ghost predicate TimeAfter(clock: int -> Tm, needLocaltime: bool, messages: seq<Message>, secs: int, tm: Tm) {
    if !needLocaltime || AllInSecondZero(messages) then secs == 0 && tm == ZERO_TM
    else secs == Secs(messages[|messages| - 1]) && tm == clock(secs)
  }

  /** One more message: the cache is refreshed only if the message is of another second. */
  lemma TimeShown(clock: int -> Tm, needLocaltime: bool, messages: seq<Message>, msg: Message, secs: int, tm: Tm)
    requires TimeAfter(clock, needLocaltime, messages, secs, tm)
    ensures var refresh := needLocaltime && Secs(msg) != secs;
            var (secs', tm') := if refresh then (Secs(msg), clock(Secs(msg))) else (secs, tm);
            && TimeAfter(clock, needLocaltime, messages + [msg], secs', tm')
            && (needLocaltime ==> tm' == Shown(clock, messages + [msg]))
  {
    var more := messages + [msg];
    if AllInSecondZero(messages) && Secs(msg) == 0 {
      assert AllInSecondZero(more);
    } else if AllInSecondZero(messages) {
      assert msg in more;
    } else {
      var other :| other in messages && Secs(other) != 0;
      assert other in more;
    }
  }

  /** What a formatter prints for one message and the broken-down time shown to it. */
  type LinePrinter = (Message, Tm) -> string

  /** The lines of a pattern. */
  function LineOf(flags: Flags, pattern: string, eol: string): LinePrinter {
    (msg, tm) => Line(flags, "", pattern, eol, msg, tm)
  }

  /** The lines of some messages, with the times shown. */
  function Lines(line: LinePrinter, clock: int -> Tm, messages: seq<Message>): seq<string> {
    if messages == [] then []
    else
      var n := |messages| - 1;
      Lines(line, clock, messages[..n]) + [line(messages[n], Shown(clock, messages))]
  }

  /** The time shown to a message: that of its second, or the zeroed time as long as no message
      was outside second zero. */
  lemma ShownSays(clock: int -> Tm, messages: seq<Message>)
    requires messages != []
    ensures (forall k | 0 <= k < |messages| :: Secs(messages[k]) == 0) ==>
              Shown(clock, messages) == Tm(0, 0, 0, 0, 0, 0, 0)
    ensures (exists k | 0 <= k < |messages| :: Secs(messages[k]) != 0) ==>
              Shown(clock, messages) == clock(Secs(messages[|messages| - 1]))
  {
  }

  /** Each message has its line, with the time shown to it. */
  lemma {:induction false} LinesSay(line: LinePrinter, clock: int -> Tm, messages: seq<Message>, i: nat)
    requires i < |messages|
    ensures var lines := Lines(line, clock, messages);
            |lines| == |messages| && lines[i] == line(messages[i], Shown(clock, messages[..i + 1]))
  {
    var n := |messages| - 1;
    if i < n {
      LinesSay(line, clock, messages[..n], i);
      assert messages[..n][..i + 1] == messages[..i + 1];
    } else {
      if n > 0 {
        LinesSay(line, clock, messages[..n], 0);
      }
      assert messages[..i + 1] == messages;
    }
  }

  lemma LinesStep(line: LinePrinter, clock: int -> Tm, messages: seq<Message>, i: nat)
    requires i < |messages|
    ensures Lines(line, clock, messages[..i + 1]) ==
            Lines(line, clock, messages[..i]) + [line(messages[i], Shown(clock, messages[..i + 1]))]
  {
    assert messages[..i + 1][..i] == messages[..i];
  }

  /** A formatter that keeps the time shown, or needs none, prints the line of its pattern. */
  lemma LineShown(formatter: PatternFormatter, msg: Message, shown: Tm)
    requires formatter.Typed() && formatter.IsCompiled()
    requires formatter.needLocaltime ==> formatter.cachedTm == shown
    ensures Printed(PrinterOf(formatter.flags, msg, formatter.cachedTm), "", AllErased(formatter.formatters))
              + formatter.eol
         == Line(formatter.flags, "", formatter.pattern, formatter.eol, msg, shown)
  {
    LineOfPieces(formatter.flags, "", formatter.pattern, formatter.eol, msg, shown);
    if !formatter.needLocaltime {
      forall piece | piece in AllErased(formatter.formatters) ensures !NeedsTime(formatter.flags, piece) {
        var i :| 0 <= i < |formatter.formatters| && piece == Erased(formatter.formatters[i]);
        assert formatter.formatters[i] in formatter.formatters;
      }
      TimeIrrelevant(formatter.flags, "", AllErased(formatter.formatters), msg, formatter.cachedTm, shown);
    }
  }

  /** Formats the next message to a buffer of its own. */
  method FormatMessage(formatter: PatternFormatter, messages: seq<Message>, i: nat, lines: seq<string>)
    returns (lines': seq<string>)
    requires i < |messages| && formatter.Valid() && formatter.IsCompiled()
    requires TimeAfter(formatter.clock, formatter.needLocaltime, messages[..i],
                       formatter.lastLogSecs, formatter.cachedTm)
    requires lines == Lines(LineOf(formatter.flags, formatter.pattern, formatter.eol), formatter.clock, messages[..i])
    modifies formatter`lastLogSecs, formatter`cachedTm, formatter.fulls
    ensures formatter.Valid()
    ensures TimeAfter(formatter.clock, formatter.needLocaltime, messages[..i + 1],
                      formatter.lastLogSecs, formatter.cachedTm)
    ensures lines'
            == Lines(LineOf(formatter.flags, formatter.pattern, formatter.eol), formatter.clock, messages[..i + 1])
  {
    assert messages[..i + 1] == messages[..i] + [messages[i]];
    TimeShown(formatter.clock, formatter.needLocaltime, messages[..i], messages[i],
              formatter.lastLogSecs, formatter.cachedTm);
    var dest := new MemoryBuffer();
    formatter.Format(messages[i], dest);
    LineShown(formatter, messages[i], Shown(formatter.clock, messages[..i + 1]));
    LinesStep(LineOf(formatter.flags, formatter.pattern, formatter.eol), formatter.clock, messages, i);
    lines' := lines + [dest.text];
  }

  /** Messages through a new formatter print the lines of the pattern, with the times shown. */
  method FormatAll(flags: Flags, clock: int -> Tm, pattern: string, eol: string, messages: seq<Message>)
    returns (lines: seq<string>)
    requires flags.Valid()
    ensures lines == Lines(LineOf(flags, pattern, eol), clock, messages)
  {
    var formatter := new PatternFormatter(flags, clock, pattern, eol);
    lines := [];
    for i := 0 to |messages|
      invariant lines == Lines(LineOf(flags, pattern, eol), clock, messages[..i])
      invariant fresh(formatter) && fresh(formatter.fulls)
      invariant formatter.Valid() && formatter.IsCompiled()
      invariant formatter.flags == flags && formatter.clock == clock && formatter.pattern == pattern
                && formatter.eol == eol
      invariant TimeAfter(clock, formatter.needLocaltime, messages[..i], formatter.lastLogSecs, formatter.cachedTm)
    {
      lines := FormatMessage(formatter, messages, i, lines);
    }
    assert messages[..|messages|] == messages;
  }

  /** The lines of some messages, each with its own time. */
  function FreshLines(line: LinePrinter, clock: int -> Tm, messages: seq<Message>): seq<string> {
    if messages == [] then []
    else
      var n := |messages| - 1;
      FreshLines(line, clock, messages[..n]) + [line(messages[n], clock(Secs(messages[n])))]
  }

  /** Without caches each message has the line of its own second. */
  lemma {:induction false} FreshLinesSay(line: LinePrinter, clock: int -> Tm, messages: seq<Message>, i: nat)
    requires i < |messages|
    ensures var lines := FreshLines(line, clock, messages);
            |lines| == |messages| && lines[i] == line(messages[i], clock(Secs(messages[i])))
  {
    var n := |messages| - 1;
    if i < n {
      FreshLinesSay(line, clock, messages[..n], i);
    } else if n > 0 {
      FreshLinesSay(line, clock, messages[..n], 0);
    }
  }

  /** Unless the first message is in second zero, the caches do not show. */
  lemma {:induction false} CachesDoNotShow(line: LinePrinter, clock: int -> Tm, messages: seq<Message>)
    requires messages != [] ==> Secs(messages[0]) != 0
    ensures Lines(line, clock, messages) == FreshLines(line, clock, messages)
  {
    if messages != [] {
      assert messages[0] in messages;
      CachesDoNotShow(line, clock, messages[..|messages| - 1]);
    }
  }

  lemma FirstLineDiffers(line: LinePrinter, clock: int -> Tm, messages: seq<Message>)
    requires messages != [] && Secs(messages[0]) == 0 && line(messages[0], ZERO_TM) != line(messages[0], clock(0))
    ensures Lines(line, clock, messages) != FreshLines(line, clock, messages)
  {
    LinesSay(line, clock, messages, 0);
    FreshLinesSay(line, clock, messages, 0);
    assert messages[..1] == [messages[0]];
  }

  lemma FullTokens()
    ensures Tokens("%+", 0) == [Flag('+', NO_PADDING)]
  {
    assert PadSpec("%+", 1) == (NO_PADDING, 1);
    assert Tokens("%+", 2) == [];
  }

  lemma FullLine(flags: Flags, eol: string, msg: Message, tm: Tm)
    ensures Line(flags, "", "%+", eol, msg, tm) == flags.dateText(tm) + flags.afterDate(msg) + eol
  {
    var withFlag, tokens := FlagPrinterOf(flags, msg, tm), [Flag('+', NO_PADDING)];
    FullTokens();
    assert tokens[1..] == [];
    assert Meaning(withFlag, "", tokens) == withFlag("", '+', NO_PADDING);
  }

  lemma Years()
    ensures Decimal(1900) == "1900" && Decimal(1969) == "1969" && Decimal(1970) == "1970"
  {
  }

  lemma YearAt(tm: Tm)
    requires |Decimal(tm.year + 1900)| == 4
    ensures |DateText(tm)| > 3 && DateText(tm)[3] == Decimal(tm.year + 1900)[2]
  {
    var year, rest := Decimal(tm.year + 1900), AfterYear(tm);
    assert ("[" + year + rest)[3] == year[2];
  }

  /** The zeroed time prints as the year 1900. */
  lemma YearsDiffer(tm: Tm)
    requires tm.year in {69, 70}
    ensures |DateText(tm)| > 3 && |DateText(ZERO_TM)| > 3 && DateText(tm)[3] != DateText(ZERO_TM)[3]
  {
    Years();
    YearAt(tm);
    YearAt(ZERO_TM);
  }

  lemma SecondZeroShows(flags: Flags, eol: string, msg: Message, tm: Tm)
    requires tm.year in {69, 70} && forall tm :: flags.dateText(tm) == DateText(tm)
    ensures Line(flags, "", "%+", eol, msg, tm) != Line(flags, "", "%+", eol, msg, ZERO_TM)
  {
    FullLine(flags, eol, msg, ZERO_TM);
    FullLine(flags, eol, msg, tm);
    YearsDiffer(tm);
    assert (flags.dateText(tm) + flags.afterDate(msg) + eol)[3] == flags.dateText(tm)[3];
    assert (flags.dateText(ZERO_TM) + flags.afterDate(msg) + eol)[3] == flags.dateText(ZERO_TM)[3];
  }

  /** With the full format they do not show exactly then: second zero is in 1969 or 1970 wherever
      one is, but the zeroed time is in 1900. */
  lemma FullFormatIsFreshIff(flags: Flags, clock: int -> Tm, eol: string, messages: seq<Message>)
    requires forall tm :: flags.dateText(tm) == DateText(tm)
    requires clock(0).year in {69, 70}
    ensures Lines(LineOf(flags, "%+", eol), clock, messages) == FreshLines(LineOf(flags, "%+", eol), clock, messages)
       <==> (messages == [] || Secs(messages[0]) != 0)
  {
    if messages == [] || Secs(messages[0]) != 0 {
      CachesDoNotShow(LineOf(flags, "%+", eol), clock, messages);
    } else {
      SecondZeroShows(flags, eol, messages[0], clock(0));
      FirstLineDiffers(LineOf(flags, "%+", eol), clock, messages);
    }
  }

  lemma LineAtEpoch(line: LinePrinter, clock: int -> Tm, msg: Message)
    requires Secs(msg) == 0
    ensures Lines(line, clock, [msg]) == [line(msg, ZERO_TM)]
  {
    assert Lines(line, clock, [msg][..0]) == [];
  }

  lemma ZeroedDate()
    ensures |DateText(ZERO_TM)| > 4 && DateText(ZERO_TM)[..5] == "[1900"
  {
    Years();
    assert DateText(ZERO_TM)[..5] == "[" + Decimal(1900);
  }

  /** A message at the epoch itself shows the year 1900. */
  lemma EpochShowsZeroedTime(flags: Flags, clock: int -> Tm, eol: string, loggerName: string, payload: string)
    requires forall tm :: flags.dateText(tm) == DateText(tm)
    ensures var msg := Message(0, loggerName, payload);
            && Lines(LineOf(flags, "%+", eol), clock, [msg]) == [DateText(ZERO_TM) + flags.afterDate(msg) + eol]
            && |DateText(ZERO_TM)| > 4 && DateText(ZERO_TM)[..5] == "[1900"
  {
    var msg := Message(0, loggerName, payload);
    LineAtEpoch(LineOf(flags, "%+", eol), clock, msg);
    FullLine(flags, eol, msg, ZERO_TM);
    ZeroedDate();
  }
}
