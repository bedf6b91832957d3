/** The incremental parser of server-sent events: whatever way a stream is cut into chunks,
    the same deltas are reported. */
module StreamParsing {

  datatype Delta = Delta(reasoning: string, content: string)

  /** What the JSON layer makes of a payload: an error, nothing to report, or a delta. */
  datatype Parsed = Invalid | Quiet | Report(delta: Delta)

  // ---------- Lines ----------

  /** The text after the last newline. */
  function Tail(s: string): string {
    if s == "" then ""
    else
      var n := |s| - 1;
      if s[n] == '\n' then "" else Tail(s[..n]) + [s[n]]
  }

  /** The complete lines of a text, without their newlines. */
  function Lines(s: string): seq<string> {
    if s == "" then []
    else
      var n := |s| - 1;
      if s[n] == '\n' then Lines(s[..n]) + [Tail(s[..n])] else Lines(s[..n])
  }

  function Join(lines: seq<string>): string {
    if lines == [] then "" else Join(lines[..|lines| - 1]) + lines[|lines| - 1] + "\n"
  }

  /** Lines and tail are the text cut at its newlines. */
  lemma {:induction false} LinesAndTail(s: string)
    ensures s == Join(Lines(s)) + Tail(s)
    ensures '\n' !in Tail(s) && forall line <- Lines(s) :: '\n' !in line
  {
    if s != "" {
      var n := |s| - 1;
      LinesAndTail(s[..n]);
      assert s == s[..n] + [s[n]];
    }
  }

  lemma AppendChar(s: string, t: string)
    requires t != ""
    ensures (s + t)[..|s + t| - 1] == s + t[..|t| - 1] && (s + t)[|s + t| - 1] == t[|t| - 1]
  {
  }

  lemma {:induction false} NoNewline(s: string)
    requires '\n' !in s
    ensures Lines(s) == [] && Tail(s) == s
  {
    if s != "" {
      NoNewline(s[..|s| - 1]);
    }
  }

  /** The lines of a text are those of its first part and those that the rest completes. */
  lemma {:induction false} LinesOfConcat(s: string, t: string)
    ensures Lines(s + t) == Lines(s) + Lines(Tail(s) + t)
    ensures Tail(s + t) == Tail(Tail(s) + t)
  {
    if t == "" {
      assert s + t == s && Tail(s) + t == Tail(s);
      LinesAndTail(s);
      NoNewline(Tail(s));
    } else {
      var n := |t| - 1;
      LinesOfConcat(s, t[..n]);
      AppendChar(s, t);
      AppendChar(Tail(s), t);
      assert Lines(s) + (Lines(Tail(s) + t[..n]) + [Tail(s + t[..n])]) ==
             Lines(s) + Lines(Tail(s) + t[..n]) + [Tail(s + t[..n])];
    }
  }

  /** The first line ends at the first newline. */
  lemma FirstLine(line: string, rest: string)
    requires '\n' !in line
    ensures Lines(line + "\n" + rest) == [line] + Lines(rest) && Tail(line + "\n" + rest) == Tail(rest)
  {
    var head := line + "\n";
    NoNewline(line);
    assert head[..|line|] == line;
    LinesOfConcat(head, rest);
    assert "" + rest == rest;
  }

  /** The position of the first newline at or after `pos`, or the length of the text. */
  function FindNewline(s: string, pos: nat): (nl: nat)
    requires pos <= |s|
    ensures pos <= nl <= |s| && (nl < |s| ==> s[nl] == '\n')
    ensures forall k | pos <= k < nl :: s[k] != '\n'
    decreases |s| - pos
  {
    if pos == |s| || s[pos] == '\n' then pos else FindNewline(s, pos + 1)
  }

  /** The lines from a position on: the one found next, and the lines after it. */
  lemma NextLine(s: string, pos: nat)
    requires pos <= |s|
    ensures var nl := FindNewline(s, pos);
            if nl == |s| then Lines(s[pos..]) == [] && Tail(s[pos..]) == s[pos..]
            else Lines(s[pos..]) == [s[pos..nl]] + Lines(s[nl + 1..]) && Tail(s[pos..]) == Tail(s[nl + 1..])
  {
    var nl := FindNewline(s, pos);
    if nl < |s| {
      assert s[pos..] == s[pos..nl] + "\n" + s[nl + 1..];
      FirstLine(s[pos..nl], s[nl + 1..]);
    } else {
      NoNewline(s[pos..]);
    }
  }

  // ---------- What is reported ----------

  function StripCarriageReturn(line: string): string {
    if line != "" && line[|line| - 1] == '\r' then line[..|line| - 1] else line
  }

  function StripSpace(payload: string): string {
    if payload != "" && payload[0] == ' ' then payload[1..] else payload
  }

  /** What a line of the stream means. */
  function LineMeaning(parse: string -> Parsed, line: string): Parsed {
    var text := StripCarriageReturn(line);
    if !("data:" <= text) then Quiet
    else
      var payload := StripSpace(text[5..]);
      if payload == "[DONE]" then Quiet else parse(payload)
  }

  /** The meanings of the complete lines of a stream. */
  function Meanings(meaning: string -> Parsed, s: string): seq<Parsed> {
    var lines := Lines(s);
    seq(|lines|, i requires 0 <= i < |lines| => meaning(lines[i]))
  }

  predicate AllParse(meanings: seq<Parsed>) {
    forall m <- meanings :: !m.Invalid?
  }

  /** The deltas reported, up to the first line that does not parse. */
  function Deltas(meanings: seq<Parsed>): seq<Delta> {
    if meanings == [] then []
    else
      match meanings[0]
      case Invalid => []
      case Quiet => Deltas(meanings[1..])
      case Report(delta) => [delta] + Deltas(meanings[1..])
  }

  lemma {:induction false} DeltasOfConcat(a: seq<Parsed>, b: seq<Parsed>)
    requires AllParse(a)
    ensures Deltas(a + b) == Deltas(a) + Deltas(b)
  {
    if a == [] {
      assert a + b == b;
    } else {
      assert (a + b)[1..] == a[1..] + b;
      assert a[0] in a;
      DeltasOfConcat(a[1..], b);
    }
  }

  /** One more meaning `m` after meanings that have been reported. */
  lemma DeltasStep(whole: seq<Parsed>, done: seq<Parsed>, m: Parsed, rest: seq<Parsed>,
                   before: seq<Delta>, deltas: seq<Delta>)
    requires whole == done + ([m] + rest) && AllParse(done) && deltas == before + Deltas(done)
    ensures var more := deltas + Deltas([m]);
            if m.Invalid? then !AllParse(whole) && more == before + Deltas(whole)
            else whole == done + [m] + rest && AllParse(done + [m]) && more == before + Deltas(done + [m])
  {
    assert whole == done + [m] + rest && m in whole;
    DeltasOfConcat(done, [m]);
    DeltasOfConcat(done, [m] + rest);
    assert before + (Deltas(done) + Deltas([m])) == deltas + Deltas([m]);
  }

  /** What has been read of `s` before `pos` parses, and its deltas have been reported. */
  ghost predicate Progress(meaning: string -> Parsed, s: string, pos: nat, done: seq<Parsed>,
                           before: seq<Delta>, deltas: seq<Delta>)
    requires pos <= |s|
  {
    && Meanings(meaning, s) == done + Meanings(meaning, s[pos..]) && Tail(s) == Tail(s[pos..])
    && AllParse(done) && deltas == before + Deltas(done)
  }

  lemma MeaningsFrom(meaning: string -> Parsed, s: string, pos: nat)
    requires pos <= |s|
    ensures var nl := FindNewline(s, pos);
            Meanings(meaning, s[pos..]) ==
              if nl == |s| then [] else [meaning(s[pos..nl])] + Meanings(meaning, s[nl + 1..])
  {
    NextLine(s, pos);
  }

  /** Reading the line that ends at the next newline. */
  lemma ProgressLine(meaning: string -> Parsed, s: string, pos: nat, done: seq<Parsed>, m: Parsed,
                     before: seq<Delta>, deltas: seq<Delta>)
    requires pos <= |s| && FindNewline(s, pos) < |s| && m == meaning(s[pos..FindNewline(s, pos)])
    requires Progress(meaning, s, pos, done, before, deltas)
    ensures var more := deltas + Deltas([m]);
            if m.Invalid? then !AllParse(Meanings(meaning, s)) && more == before + Deltas(Meanings(meaning, s))
            else Progress(meaning, s, FindNewline(s, pos) + 1, done + [m], before, more)
  {
    NextLine(s, pos);
    MeaningsFrom(meaning, s, pos);
    DeltasStep(Meanings(meaning, s), done, m, Meanings(meaning, s[FindNewline(s, pos) + 1..]), before, deltas);
  }

  lemma ProgressStart(meaning: string -> Parsed, s: string, deltas: seq<Delta>)
    ensures Progress(meaning, s, 0, [], deltas, deltas)
  {
    assert s[0..] == s;
  }

  lemma ProgressEnd(meaning: string -> Parsed, s: string, pos: nat, done: seq<Parsed>, before: seq<Delta>,
                    deltas: seq<Delta>)
    requires pos <= |s| && Progress(meaning, s, pos, done, before, deltas) && FindNewline(s, pos) == |s|
    ensures AllParse(Meanings(meaning, s)) && deltas == before + Deltas(Meanings(meaning, s)) && Tail(s) == s[pos..]
  {
    NextLine(s, pos);
    MeaningsFrom(meaning, s, pos);
    assert done + [] == done;
  }

  class DeepSeekStreamParser {
    const parse: string -> Parsed
    var buffer: string
    var deltas: seq<Delta>  // the callbacks fired so far

    /** What a line means to this parser. */
    function Meaning(): string -> Parsed {
      line => LineMeaning(parse, line)
    }

    constructor (parse: string -> Parsed)
      ensures this.parse == parse && buffer == "" && deltas == []
    {
      this.parse, buffer, deltas := parse, "", [];
    }

    /** Handles one line of the stream. */
    method TakeLine(rawLine: string) returns (ok: bool)
      modifies this`deltas
      ensures ok <==> !Meaning()(rawLine).Invalid?
      ensures deltas == old(deltas) + Deltas([Meaning()(rawLine)])
    {
      var line := rawLine;
      if line != "" && line[|line| - 1] == '\r' {
        line := line[..|line| - 1];
      }
      if !("data:" <= line) {
        return true;
      }
      var payload := line[5..];
      if payload != "" && payload[0] == ' ' {
        payload := payload[1..];
      }
      if payload == "[DONE]" {
        return true;
      }
      var j := parse(payload);
      if j.Invalid? {
        return false;
      }
      if j.Report? {
        deltas := deltas + [j.delta];
      }
      return true;
    }

    /** Handles the line that ends at `nl`, which reads the stream up to there. */
    method TakeNext(pos: nat, nl: nat, ghost done: seq<Parsed>, ghost before: seq<Delta>)
      returns (ok: bool, ghost done': seq<Parsed>)
      requires pos <= nl < |buffer| && nl == FindNewline(buffer, pos)
      requires Progress(Meaning(), buffer, pos, done, before, deltas)
      modifies this`deltas
      ensures ok ==> Progress(Meaning(), buffer, nl + 1, done', before, deltas)
      ensures !ok ==> !AllParse(Meanings(Meaning(), buffer)) && deltas == before + Deltas(Meanings(Meaning(), buffer))
    {
      var line := buffer[pos..nl];
      ghost var m := Meaning()(line);
      ProgressLine(Meaning(), buffer, pos, done, m, before, deltas);
      ok := TakeLine(line);
      done' := done + [m];
    }

    /** Takes the complete lines off the buffer, up to the first that does not parse. */
    method TakeLines() returns (ok: bool)
      modifies this
      ensures ok <==> AllParse(Meanings(Meaning(), old(buffer)))
      ensures deltas == old(deltas) + Deltas(Meanings(Meaning(), old(buffer)))
      ensures buffer == if ok then Tail(old(buffer)) else old(buffer)
    {
      ghost var meaning, text, before, done: seq<Parsed> := Meaning(), buffer, deltas, [];
      ProgressStart(meaning, text, before);
      var pos := 0;
      while true
        invariant 0 <= pos <= |text| && buffer == text
        invariant Progress(meaning, text, pos, done, before, deltas)
        decreases |text| - pos
      {
        var nl := FindNewline(buffer, pos);
        if nl == |buffer| {
          ProgressEnd(meaning, text, pos, done, before, deltas);
          buffer := buffer[pos..];
          break;
        }
        var taken;
        taken, done := TakeNext(pos, nl, done, before);
        pos := nl + 1;
        if !taken {
          return false;
        }
      }
      return true;
    }

    /** Takes a chunk of the stream. After an error the consumed lines stay in the buffer. */
    method Feed(chunk: string) returns (ok: bool)
      modifies this
      ensures ok <==> AllParse(Meanings(Meaning(), old(buffer) + chunk))
      ensures deltas == old(deltas) + Deltas(Meanings(Meaning(), old(buffer) + chunk))
      ensures buffer == if ok then Tail(old(buffer) + chunk) else old(buffer) + chunk
    {
      buffer := buffer + chunk;
      ok := TakeLines();
    }
  }

  // ---------- What a line does ----------

  /** A line that carries the payload `p`, after at most one space and before at most one `\r`. */
  ghost predicate Carries(line: string, sp: string, p: string, cr: string) {
    && line == "data:" + sp + p + cr
    && (sp == " " || (sp == "" && (p + cr == "" || (p + cr)[0] != ' ')))
    && (cr == "\r" || (cr == "" && (p == "" || p[|p| - 1] != '\r')))
  }

  lemma PayloadOfLine(line: string, sp: string, p: string, cr: string)
    requires Carries(line, sp, p, cr)
    ensures "data:" <= StripCarriageReturn(line) && StripSpace(StripCarriageReturn(line)[5..]) == p
  {
    var text := "data:" + sp + p;
    assert line == text + cr;
    assert StripCarriageReturn(line) == text;
    assert text[5..] == sp + p;
  }

  /** Splits one carriage return off the end. */
  lemma SplitReturn(rest: string) returns (body: string, cr: string)
    ensures rest == body + cr
    ensures cr == "\r" || (cr == "" && (body == "" || body[|body| - 1] != '\r'))
  {
    body, cr := rest, "";
    if rest != "" && rest[|rest| - 1] == '\r' {
      body, cr := rest[..|rest| - 1], "\r";
    } else {
      assert rest + "" == rest;
    }
  }

  lemma JoinFour(head: string, sp: string, p: string, cr: string)
    ensures head + (sp + p + cr) == head + sp + p + cr
  {
  }

  /** Splits one space off the start and one carriage return off the end. */
  lemma SplitPayload(rest: string) returns (sp: string, p: string, cr: string)
    ensures rest == sp + p + cr
    ensures sp == " " || (sp == "" && (p + cr == "" || (p + cr)[0] != ' '))
    ensures cr == "\r" || (cr == "" && (p == "" || p[|p| - 1] != '\r'))
  {
    var body;
    body, cr := SplitReturn(rest);
    if body != "" && body[0] == ' ' {
      sp, p := " ", body[1..];
      assert body == sp + p;
    } else {
      sp, p := "", body;
      assert body == sp + p;
      assert p + cr != "" ==> (p + cr)[0] == if p == "" then cr[0] else p[0];
    }
  }

  /** Every line that starts with `data:` carries some payload. */
  lemma EveryDataLineCarries(line: string) returns (sp: string, p: string, cr: string)
    requires "data:" <= line
    ensures Carries(line, sp, p, cr)
  {
    sp, p, cr := SplitPayload(line[5..]);
    JoinFour("data:", sp, p, cr);
    assert line == "data:" + line[5..];
  }

  /** What a line with the payload `p` means: the end marker nothing, any other payload what
      the parser makes of it. */
  lemma DataLineMeaning(parse: string -> Parsed, line: string, sp: string, p: string, cr: string)
    requires Carries(line, sp, p, cr)
    ensures LineMeaning(parse, line) == if p == "[DONE]" then Quiet else parse(p)
  {
    PayloadOfLine(line, sp, p, cr);
  }

  /** A line that does not start with `data:` means nothing. */
  lemma OtherLineMeaning(parse: string -> Parsed, line: string)
    requires !("data:" <= line)
    ensures LineMeaning(parse, line) == Quiet
  {
    var text := StripCarriageReturn(line);
    assert text <= line;
  }

  /** The only line of a text means what it means on its own. */
  lemma OneLineMeaning(meaning: string -> Parsed, line: string)
    requires '\n' !in line
    ensures "" + (line + "\n") == line + "\n"
    ensures Meanings(meaning, line + "\n") == [meaning(line)] && Tail(line + "\n") == ""
    ensures AllParse([meaning(line)]) <==> !meaning(line).Invalid?
    ensures Deltas([meaning(line)]) == if meaning(line).Report? then [meaning(line).delta] else []
  {
    FirstLine(line, "");
    assert line + "\n" + "" == line + "\n";
    assert meaning(line) in [meaning(line)];
    assert Deltas([]) == [];
  }

  /** Feeds one line to a parser that has no unfinished line. */
  method FeedLine(parser: DeepSeekStreamParser, line: string) returns (ok: bool)
    requires parser.buffer == "" && '\n' !in line
    modifies parser
    ensures !("data:" <= line) ==> ok && parser.deltas == old(parser.deltas)
    ensures forall sp, p, cr | Carries(line, sp, p, cr) ::
              if p == "[DONE]" then ok && parser.deltas == old(parser.deltas)
              else
                match parser.parse(p)
                case Invalid => !ok && parser.deltas == old(parser.deltas)
                case Quiet => ok && parser.deltas == old(parser.deltas)
                case Report(delta) => ok && parser.deltas == old(parser.deltas) + [delta]
    ensures ok ==> parser.buffer == ""
  {
    ghost var parse, before := parser.parse, parser.deltas;
    OneLineMeaning(parser.Meaning(), line);
    ok := parser.Feed(line + "\n");
    if !("data:" <= line) {
      OtherLineMeaning(parse, line);
    }
    forall sp, p, cr | Carries(line, sp, p, cr)
      ensures LineMeaning(parse, line) == if p == "[DONE]" then Quiet else parse(p)
    {
      DataLineMeaning(parse, line, sp, p, cr);
    }
  }

  // ---------- Chunks ----------

  function Concat(chunks: seq<string>): string {
    if chunks == [] then "" else Concat(chunks[..|chunks| - 1]) + chunks[|chunks| - 1]
  }

  /** The meanings of a stream are those of its first part and those that the rest completes. */
  lemma MeaningsOfConcat(meaning: string -> Parsed, s: string, t: string)
    ensures Meanings(meaning, s + t) == Meanings(meaning, s) + Meanings(meaning, Tail(s) + t)
  {
    LinesOfConcat(s, t);
  }

  lemma PartsParse(a: seq<Parsed>, b: seq<Parsed>, whole: seq<Parsed>)
    requires a + b <= whole && AllParse(whole)
    ensures AllParse(a) && AllParse(b) && Deltas(a + b) == Deltas(a) + Deltas(b)
  {
    forall m | m in a ensures m in whole {
      var k :| 0 <= k < |a| && a[k] == m;
      assert whole[k] == (a + b)[k];
    }
    forall m | m in b ensures m in whole {
      var k :| 0 <= k < |b| && b[k] == m;
      assert whole[|a| + k] == (a + b)[|a| + k];
    }
    DeltasOfConcat(a, b);
  }

  /** What some chunks mean is the beginning of what the whole stream means. */
  lemma {:induction false} PrefixMeanings(meaning: string -> Parsed, chunks: seq<string>, n: nat)
    requires n <= |chunks|
    ensures Meanings(meaning, Concat(chunks[..n])) <= Meanings(meaning, Concat(chunks))
    decreases |chunks|
  {
    if n == |chunks| {
      assert chunks[..n] == chunks;
    } else {
      var m := |chunks| - 1;
      PrefixMeanings(meaning, chunks[..m], n);
      assert chunks[..m][..n] == chunks[..n];
      MeaningsOfConcat(meaning, Concat(chunks[..m]), chunks[m]);
    }
  }

  /** What one more chunk adds to a stream that parses. */
  lemma OneMoreChunk(meaning: string -> Parsed, chunks: seq<string>, i: nat)
    requires i < |chunks| && AllParse(Meanings(meaning, Concat(chunks)))
    ensures var s, t := Concat(chunks[..i]), Concat(chunks[..i + 1]);
            var more := Meanings(meaning, Tail(s) + chunks[i]);
            && AllParse(more)
            && Deltas(Meanings(meaning, t)) == Deltas(Meanings(meaning, s)) + Deltas(more)
            && Tail(t) == Tail(Tail(s) + chunks[i])
  {
    var s := Concat(chunks[..i]);
    assert chunks[..i + 1][..i] == chunks[..i];
    LinesOfConcat(s, chunks[i]);
    MeaningsOfConcat(meaning, s, chunks[i]);
    PrefixMeanings(meaning, chunks, i + 1);
    PartsParse(Meanings(meaning, s), Meanings(meaning, Tail(s) + chunks[i]), Meanings(meaning, Concat(chunks)));
  }

  /** Feeding a stream in chunks reports the deltas of the whole stream, if all of it parses. */
  method FeedAll(parser: DeepSeekStreamParser, chunks: seq<string>) returns (ok: bool)
    requires parser.buffer == "" && parser.deltas == []
    requires AllParse(Meanings(parser.Meaning(), Concat(chunks)))
    modifies parser
    ensures ok
    ensures parser.deltas == Deltas(Meanings(parser.Meaning(), Concat(chunks)))
    ensures parser.buffer == Tail(Concat(chunks))
  {
    ok := true;
    assert chunks[..|chunks|] == chunks;
    for i := 0 to |chunks|
      invariant ok
      invariant parser.deltas == Deltas(Meanings(parser.Meaning(), Concat(chunks[..i])))
      invariant parser.buffer == Tail(Concat(chunks[..i]))
    {
      OneMoreChunk(parser.Meaning(), chunks, i);
      ok := parser.Feed(chunks[i]);
    }
  }
}
