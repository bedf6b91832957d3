/** The simple regular expressions of Google Test: validation and backtracking
    matching, proved against a grammar and a denotational language. */
module SimpleRegex {

  // ---------- Characters ----------

  /** The text before the terminating NUL of a C string. */
  type CString = s: string | '\0' !in s

  datatype CPointer = Null | Text(s: CString)

  /** The character at `i`, where the terminating NUL follows the text. */
  function At(s: string, i: nat): char {
    if i < |s| then s[i] else '\0'
  }

  predicate IsAsciiDigit(ch: char) { '0' <= ch <= '9' }

  predicate IsAsciiPunct(ch: char) {
    '!' <= ch <= '/' || ':' <= ch <= '@' || '[' <= ch <= '`' || '{' <= ch <= '~'
  }

  predicate IsRepeat(ch: char) { ch == '?' || ch == '*' || ch == '+' }

  predicate IsUnsupported(ch: char) {
    ch == '(' || ch == ')' || ch == '[' || ch == ']' || ch == '{' || ch == '}' || ch == '|'
  }

  /** A repeat may follow this unescaped character. */
  predicate IsRepeatable(ch: char) { ch != '^' && ch != '$' && !IsRepeat(ch) }

  const FF := '\U{000C}'

  const VT := '\U{000B}'

  predicate IsAsciiWhiteSpace(ch: char) {
    ch == ' ' || ch == FF || ch == '\n' || ch == '\r' || ch == '\t' || ch == VT
  }

  predicate IsAsciiWordChar(ch: char) {
    'a' <= ch <= 'z' || 'A' <= ch <= 'Z' || '0' <= ch <= '9' || ch == '_'
  }

  predicate IsValidEscape(c: char) {
    || IsAsciiPunct(c)
    || c == 'd' || c == 'D' || c == 'f' || c == 'n' || c == 'r' || c == 's' || c == 'S' || c == 't'
    || c == 'v' || c == 'w' || c == 'W'
  }

  predicate AtomMatchesChar(escaped: bool, patternChar: char, ch: char) {
    if escaped then
      match patternChar
      case 'd' => IsAsciiDigit(ch)
      case 'D' => !IsAsciiDigit(ch)
      case 'f' => ch == FF
      case 'n' => ch == '\n'
      case 'r' => ch == '\r'
      case 's' => IsAsciiWhiteSpace(ch)
      case 'S' => !IsAsciiWhiteSpace(ch)
      case 't' => ch == '\t'
      case 'v' => ch == VT
      case 'w' => IsAsciiWordChar(ch)
      case 'W' => !IsAsciiWordChar(ch)
      case _ => IsAsciiPunct(patternChar) && patternChar == ch
    else
      (patternChar == '.' && ch != '\n') || patternChar == ch
  }

  // ---------- Grammar: ^? (atom repeat?)* $? ----------

  datatype Repeat = Once | Optional | Star | Plus

  datatype Item = Item(escaped: bool, c: char, rep: Repeat)

  datatype Regex = Regex(atStart: bool, items: seq<Item>, atEnd: bool)

  predicate ValidAtom(escaped: bool, c: char) {
    if escaped then IsValidEscape(c)
    else c != '\0' && c != '\\' && c != '^' && c != '$' && !IsUnsupported(c) && !IsRepeat(c)
  }

  predicate IsRepeatText(ch: char, rep: Repeat) {
    match rep
    case Once => !IsRepeat(ch)
    case Optional => ch == '?'
    case Star => ch == '*'
    case Plus => ch == '+'
  }

  /** From position `i` on, `s` spells the items and then the optional end anchor. */
  ghost predicate SpellsTail(s: string, i: nat, items: seq<Item>, atEnd: bool)
    decreases |items|
  {
    if items == [] then
      if atEnd then i + 1 == |s| && s[i] == '$' else i == |s|
    else
      var it := items[0];
      var atom := if it.escaped then i + 1 else i;
      var next := if it.rep == Once then atom + 1 else atom + 2;
      && next <= |s|
      && ValidAtom(it.escaped, it.c)
      && (it.escaped ==> s[i] == '\\')
      && s[atom] == it.c
      && IsRepeatText(At(s, atom + 1), it.rep)
      && SpellsTail(s, next, items[1..], atEnd)
  }

  /** `s` spells the regex `re`. */
  ghost predicate Spells(s: string, re: Regex) {
    if re.atStart then s != [] && s[0] == '^' && SpellsTail(s, 1, re.items, re.atEnd)
    else SpellsTail(s, 0, re.items, re.atEnd)
  }

  const PUNCTUATION := "^-!\"#$%&'()*+,./:;<=>?@[\\]_`{|}~"

  lemma PunctuationIsListed(c: char)
    ensures IsAsciiPunct(c) <==> c in PUNCTUATION
  {
  }

  /** The characters with a part in the syntax. */
  lemma SyntaxIsListed(c: char)
    ensures IsRepeat(c) <==> c in "?*+"
    ensures IsUnsupported(c) <==> c in "()[]{}|"
    ensures IsRepeatable(c) <==> c !in "^$?*+"
  {
  }

  /** What may follow a backslash, and what may stand for itself without one. */
  lemma AtomsAreListed(c: char)
    ensures ValidAtom(true, c) <==> c in PUNCTUATION || c in "dDfnrsStvwW"
    ensures ValidAtom(false, c) <==> c != '\0' && c !in "\\^$()[]{}|?*+"
  {
    PunctuationIsListed(c);
    SyntaxIsListed(c);
  }

  // ---------- Denotation ----------

  ghost predicate CountAllowed(rep: Repeat, n: nat) {
    match rep
    case Once => n == 1
    case Optional => n <= 1
    case Star => true
    case Plus => n >= 1
  }

  const DIGITS := "0123456789"

  const LOWER := "abcdefghijklmnopqrstuvwxyz"

  const UPPER := "ABCDEFGHIJKLMNOPQRSTUVWXYZ"

  const SPACES := " \U{000C}\n\r\t\U{000B}"

  ghost predicate IsWord(ch: char) {
    ch in DIGITS || ch in LOWER || ch in UPPER || ch == '_'
  }

  /** The characters an atom stands for. */
  ghost predicate Denotes(escaped: bool, c: char, ch: char) {
    if !escaped then if c == '.' then ch != '\n' else ch == c
    else
      match c
      case 'd' => ch in DIGITS
      case 'D' => ch !in DIGITS
      case 'w' => IsWord(ch)
      case 'W' => !IsWord(ch)
      case 's' => ch in SPACES
      case 'S' => ch !in SPACES
      case 'f' => ch == '\U{000C}'
      case 'n' => ch == '\n'
      case 'r' => ch == '\r'
      case 't' => ch == '\t'
      case 'v' => ch == '\U{000B}'
      case _ => ch == c
  }

  /** The characters of a stretch of the code, listed. */
  lemma StretchIsRange(text: string, first: char, last: char, ch: char)
    requires first <= last && |text| == last as int - first as int + 1
    requires forall i | 0 <= i < |text| :: text[i] as int == first as int + i
    ensures ch in text <==> first <= ch <= last
  {
    if first <= ch <= last {
      assert text[ch as int - first as int] == ch;
    }
  }

  lemma ClassesAreRanges(ch: char)
    ensures ch in DIGITS <==> IsAsciiDigit(ch)
    ensures ch in SPACES <==> IsAsciiWhiteSpace(ch)
    ensures IsWord(ch) <==> IsAsciiWordChar(ch)
  {
    StretchIsRange(DIGITS, '0', '9', ch);
    StretchIsRange(LOWER, 'a', 'z', ch);
    StretchIsRange(UPPER, 'A', 'Z', ch);
  }

  /** A valid atom matches exactly the characters it stands for. */
  lemma AtomIsDenoted(escaped: bool, c: char, ch: char)
    requires ValidAtom(escaped, c)
    ensures AtomMatchesChar(escaped, c, ch) <==> Denotes(escaped, c, ch)
  {
    ClassesAreRanges(ch);
  }

  ghost predicate AllMatch(escaped: bool, c: char, s: string) {
    forall ch <- s :: Denotes(escaped, c, ch)
  }

  ghost predicate ItemMatches(it: Item, s: string) {
    AllMatch(it.escaped, it.c, s) && CountAllowed(it.rep, |s|)
  }

  /** `s` is a word of the language: it splits into one stretch per item. */
  ghost predicate Lang(items: seq<Item>, s: string) {
    if items == [] then s == []
    else exists k | 0 <= k <= |s| :: ItemMatches(items[0], s[..k]) && Lang(items[1..], s[k..])
  }

  /** A word of the language starts `s`, and is all of `s` when anchored at the end. */
  ghost predicate HeadMatches(items: seq<Item>, atEnd: bool, s: string) {
    exists j | 0 <= j <= |s| :: Lang(items, s[..j]) && (atEnd ==> j == |s|)
  }

  /** A word of the language occurs in `s` where the anchors allow it. */
  ghost predicate Occurs(re: Regex, s: string) {
    exists i, j | 0 <= i <= j <= |s| ::
      Lang(re.items, s[i..j]) && (re.atStart ==> i == 0) && (re.atEnd ==> j == |s|)
  }

  /** Matching at the head peels off one item. */
  lemma HeadMatchesCons(items: seq<Item>, atEnd: bool, s: string)
    requires items != []
    ensures HeadMatches(items, atEnd, s) <==>
              exists k | 0 <= k <= |s| :: ItemMatches(items[0], s[..k]) && HeadMatches(items[1..], atEnd, s[k..])
  {
    if j :| 0 <= j <= |s| && Lang(items, s[..j]) && (atEnd ==> j == |s|) {
      var k :| 0 <= k <= j && ItemMatches(items[0], s[..j][..k]) && Lang(items[1..], s[..j][k..]);
      assert s[..j][..k] == s[..k] && s[..j][k..] == s[k..][..j - k];
      assert HeadMatches(items[1..], atEnd, s[k..]);
    }
    if k :| 0 <= k <= |s| && ItemMatches(items[0], s[..k]) && HeadMatches(items[1..], atEnd, s[k..]) {
      var j :| 0 <= j <= |s[k..]| && Lang(items[1..], s[k..][..j]) && (atEnd ==> j == |s[k..]|);
      assert s[..k + j][..k] == s[..k] && s[..k + j][k..] == s[k..][..j];
      assert Lang(items, s[..k + j]);
    }
  }

  lemma OccursIffHeadMatches(re: Regex, s: string)
    ensures Occurs(re, s) <==>
              exists i | 0 <= i <= |s| :: HeadMatches(re.items, re.atEnd, s[i..]) && (re.atStart ==> i == 0)
  {
    if i, j :| 0 <= i <= j <= |s| && Lang(re.items, s[i..j]) && (re.atStart ==> i == 0) && (re.atEnd ==> j == |s|) {
      assert s[i..][..j - i] == s[i..j];
      assert HeadMatches(re.items, re.atEnd, s[i..]);
    }
    if i :| 0 <= i <= |s| && HeadMatches(re.items, re.atEnd, s[i..]) && (re.atStart ==> i == 0) {
      var j :| 0 <= j <= |s[i..]| && Lang(re.items, s[i..][..j]) && (re.atEnd ==> j == |s[i..]|);
      assert s[i..][..j] == s[i..i + j];
    }
  }

  // ---------- Matching ----------

  function RepeatOf(ch: char): Repeat {
    if ch == '?' then Optional else if ch == '*' then Star else Plus
  }

  /** One more character of a repeated atom: it matches, or no longer stretch does. */
  lemma OneMoreMatches(escaped: bool, c: char, str: string, i: nat)
    requires i < |str| && ValidAtom(escaped, c) && AllMatch(escaped, c, str[..i])
    ensures if AtomMatchesChar(escaped, c, str[i]) then AllMatch(escaped, c, str[..i + 1])
            else forall k | i < k <= |str| :: !AllMatch(escaped, c, str[..k])
  {
    AtomIsDenoted(escaped, c, str[i]);
    assert str[..i + 1] == str[..i] + [str[i]];
    forall k | i < k <= |str| ensures str[i] in str[..k] {
      assert str[..k][i] == str[i];
    }
  }

  /** Tries the repetition counts in increasing order; the rest of the regex starts at `p`. */
  method MatchRepetitionAndRegexAtHead(escaped: bool, c: char, repeat_: char, regex: CString, p: nat, str: CString,
                                       ghost items: seq<Item>, ghost atEnd: bool) returns (found: bool)
    requires IsRepeat(repeat_) && ValidAtom(escaped, c) && SpellsTail(regex, p, items, atEnd)
    ensures found <==> exists k | 0 <= k <= |str| ::
              ItemMatches(Item(escaped, c, RepeatOf(repeat_)), str[..k]) && HeadMatches(items, atEnd, str[k..])
    decreases |regex| - p, 1
  {
    var minCount := if repeat_ == '+' then 1 else 0;
    var i := 0;
    while repeat_ != '?' || i <= 1
      invariant 0 <= i <= |str|
      invariant AllMatch(escaped, c, str[..i])
      invariant repeat_ == '?' ==> i <= 2
      invariant forall k | 0 <= k < i && k >= minCount :: !HeadMatches(items, atEnd, str[k..])
      decreases |str| - i
    {
      if i >= minCount {
        var tail := MatchRegexAtHead(regex, p, str[i..], items, atEnd);
        if tail {
          return true;
        }
      }
      if i < |str| {
        OneMoreMatches(escaped, c, str, i);
      }
      if At(str, i) == '\0' || !AtomMatchesChar(escaped, c, At(str, i)) {
        return false;
      }
      i := i + 1;
    }
    return false;
  }

  /** An unrepeated item takes exactly one character. */
  lemma OnceHeadMatches(items: seq<Item>, atEnd: bool, s: string)
    requires items != [] && items[0].rep == Once && ValidAtom(items[0].escaped, items[0].c)
    ensures HeadMatches(items, atEnd, s) <==>
              s != [] && AtomMatchesChar(items[0].escaped, items[0].c, s[0]) && HeadMatches(items[1..], atEnd, s[1..])
  {
    HeadMatchesCons(items, atEnd, s);
    if s != [] {
      AtomIsDenoted(items[0].escaped, items[0].c, s[0]);
      assert s[..1] == [s[0]];
      assert ItemMatches(items[0], s[..1]) <==> AtomMatchesChar(items[0].escaped, items[0].c, s[0]);
    }
  }

  /** Does the regex from `p` on match a prefix of `str`? */
  method MatchRegexAtHead(regex: CString, p: nat, str: CString, ghost items: seq<Item>, ghost atEnd: bool)
    returns (found: bool)
    requires SpellsTail(regex, p, items, atEnd)
    ensures found <==> HeadMatches(items, atEnd, str)
    decreases |regex| - p, 0
  {
    if At(regex, p) == '\0' {
      assert items == [] && !atEnd;
      assert Lang(items, str[..0]);
      return true;
    }
    if At(regex, p) == '$' {
      assert items == [] && atEnd;
      assert str[..|str|] == str;
      return At(str, 0) == '\0';
    }
    var escaped := At(regex, p) == '\\';
    var atom := if escaped then p + 1 else p;
    if IsRepeat(At(regex, atom + 1)) {
      HeadMatchesCons(items, atEnd, str);
      found := MatchRepetitionAndRegexAtHead(escaped, At(regex, atom), At(regex, atom + 1), regex, atom + 2, str,
                                             items[1..], atEnd);
    } else {
      OnceHeadMatches(items, atEnd, str);
      if At(str, 0) == '\0' || !AtomMatchesChar(escaped, At(regex, atom), At(str, 0)) {
        return false;
      }
      found := MatchRegexAtHead(regex, atom + 1, str[1..], items[1..], atEnd);
    }
  }

  /** Does the regex match at the head, or anywhere when it has no `^`? */
  method MatchRegexAnywhere(regex: CPointer, str: CPointer, ghost re: Regex) returns (found: bool)
    requires regex.Text? ==> Spells(regex.s, re)
    ensures found <==> regex.Text? && str.Text? && Occurs(re, str.s)
  {
    if regex == Null || str == Null {
      return false;
    }
    OccursIffHeadMatches(re, str.s);
    assert str.s[0..] == str.s;
    if At(regex.s, 0) == '^' {
      assert re.atStart;
      found := MatchRegexAtHead(regex.s, 1, str.s, re.items, re.atEnd);
      return;
    }
    assert !re.atStart;
    var i := 0;
    while true
      invariant 0 <= i <= |str.s|
      invariant forall k | 0 <= k < i :: !HeadMatches(re.items, re.atEnd, str.s[k..])
      decreases |str.s| - i
    {
      var head := MatchRegexAtHead(regex.s, 0, str.s[i..], re.items, re.atEnd);
      if head {
        return true;
      }
      if At(str.s, i) == '\0' {
        return false;
      }
      i := i + 1;
    }
  }

  // ---------- Validation ----------

  /** The scanner's verdict on `s` from position `i`, `prev` telling whether a repeat may follow. */
  predicate Scan(s: string, i: nat, prev: bool)
    requires i <= |s|
    decreases |s| - i
  {
    if i == |s| then true
    else if s[i] == '\\' then i + 1 < |s| && IsValidEscape(s[i + 1]) && Scan(s, i + 2, true)
    else
      && (s[i] == '^' ==> i == 0)
      && (s[i] == '$' ==> i + 1 == |s|)
      && !IsUnsupported(s[i])
      && (IsRepeat(s[i]) ==> prev)
      && Scan(s, i + 1, IsRepeatable(s[i]))
  }

  lemma {:induction false} ScanComplete(s: string, i: nat, items: seq<Item>, atEnd: bool, prev: bool)
    requires SpellsTail(s, i, items, atEnd)
    ensures i <= |s| && Scan(s, i, prev)
    decreases |items|
  {
    if items != [] {
      var it := items[0];
      var atom := if it.escaped then i + 1 else i;
      ScanComplete(s, if it.rep == Once then atom + 1 else atom + 2, items[1..], atEnd, it.rep == Once);
    }
  }

  /** Past an atom, one repeat may be pending; the rest is a spelled tail. */
  lemma {:induction false} ScanSound(s: CString, i: nat, prev: bool)
    returns (rep: Repeat, items: seq<Item>, atEnd: bool)
    requires i <= |s| && Scan(s, i, prev) && (i == 0 ==> At(s, 0) != '^')
    ensures IsRepeatText(At(s, i), rep) && (!prev ==> rep == Once)
    ensures SpellsTail(s, if rep == Once then i else i + 1, items, atEnd)
    decreases |s| - i
  {
    if i == |s| {
      return Once, [], false;
    } else if s[i] == '$' {
      return Once, [], true;
    }
    var escaped := s[i] == '\\';
    var atom := if escaped then i + 1 else i;
    rep, items, atEnd := ScanSound(s, atom + 1, escaped || IsRepeatable(s[i]));
    if IsRepeat(s[i]) {
      return RepeatOf(s[i]), items, atEnd;
    }
    var it := Item(escaped, s[atom], rep);
    assert ([it] + items)[1..] == items;
    return Once, [it] + items, atEnd;
  }

  /** The scanner accepts exactly the spellings of the grammar. */
  lemma ScanIffSpelled(s: CString)
    ensures Scan(s, 0, false) <==> exists re :: Spells(s, re)
  {
    if Scan(s, 0, false) {
      var start := if At(s, 0) == '^' then 1 else 0;
      var rep, items, atEnd := ScanSound(s, start, false);
      assert Spells(s, Regex(start == 1, items, atEnd));
    }
    if re :| Spells(s, re) {
      ScanComplete(s, if re.atStart then 1 else 0, re.items, re.atEnd, false);
    }
  }

  /** Accepts exactly the spellings of the grammar. */
  method ValidateRegex(regex: CPointer) returns (ok: bool)
    ensures ok <==> regex.Text? && exists re :: Spells(regex.s, re)
  {
    if regex == Null {
      return false;
    }
    var s := regex.s;
    ScanIffSpelled(s);
    var isValid := true;
    var prevRepeatable := false;
    var i := 0;
    while At(s, i) != '\0'
      invariant 0 <= i <= |s|
      invariant Scan(s, 0, false) <==> isValid && Scan(s, i, prevRepeatable)
      decreases |s| - i
    {
      if s[i] == '\\' {
        i := i + 1;
        if At(s, i) == '\0' {
          return false;
        }
        if !IsValidEscape(s[i]) {
          isValid := false;
        }
        prevRepeatable := true;
      } else {
        var ch := s[i];
        if ch == '^' && i > 0 {
          isValid := false;
        } else if ch == '$' && At(s, i + 1) != '\0' {
          isValid := false;
        } else if IsUnsupported(ch) {
          isValid := false;
        } else if IsRepeat(ch) && !prevRepeatable {
          isValid := false;
        }
        prevRepeatable := IsRepeatable(ch);
      }
      i := i + 1;
    }
    return isValid;
  }

  // ---------- The RE class ----------

  lemma {:induction false} TailSpelledOnce(s: CString, i: nat, a: seq<Item>, aEnd: bool, b: seq<Item>, bEnd: bool)
    requires SpellsTail(s, i, a, aEnd) && SpellsTail(s, i, b, bEnd)
    ensures a == b && aEnd == bEnd
    decreases |a|
  {
    if a != [] {
      assert b != [] && a[0] == b[0];
      var it := a[0];
      var atom := if it.escaped then i + 1 else i;
      TailSpelledOnce(s, if it.rep == Once then atom + 1 else atom + 2, a[1..], aEnd, b[1..], bEnd);
      assert a == [a[0]] + a[1..] && b == [b[0]] + b[1..];
    }
  }

  /** A pattern has only one reading. */
  lemma SpelledOnce(s: CString, a: Regex, b: Regex)
    requires Spells(s, a) && Spells(s, b)
    ensures a == b
  {
    assert a.atStart == b.atStart;
    TailSpelledOnce(s, if a.atStart then 1 else 0, a.items, a.atEnd, b.items, b.atEnd);
  }

  predicate EndsInEscapedDollar(re: Regex) {
    !re.atEnd && re.items != [] && re.items[|re.items| - 1] == Item(true, '$', Once)
  }

  /** The regex behind the full pattern: no end anchor is added after an escaped `$`. */
  function Anchored(re: Regex): Regex {
    Regex(true, re.items, re.atEnd || !EndsInEscapedDollar(re))
  }

  /** A spelled tail ends in `$` iff that is its anchor or its last, escaped, atom. */
  lemma {:induction false} TailEndsInDollar(s: string, i: nat, items: seq<Item>, atEnd: bool)
    requires SpellsTail(s, i, items, atEnd)
    ensures i <= |s|
    ensures (i < |s| && s[|s| - 1] == '$') <==> (atEnd || EndsInEscapedDollar(Regex(true, items, atEnd)))
    decreases |items|
  {
    if items != [] {
      var it := items[0];
      var atom := if it.escaped then i + 1 else i;
      TailEndsInDollar(s, if it.rep == Once then atom + 1 else atom + 2, items[1..], atEnd);
      assert |items| > 1 ==> items[1..][|items| - 2] == items[|items| - 1];
    }
  }

  /** Moving a spelled tail to the right and closing it with `$` spells it with the end anchor. */
  lemma {:induction false} ShiftTail(s: CString, i: nat, items: seq<Item>, atEnd: bool, t: string, d: nat, close: bool)
    requires SpellsTail(s, i, items, atEnd)
    requires |t| == d + |s| + (if close then 1 else 0)
    requires forall k | 0 <= k < |s| :: t[k + d] == s[k]
    requires close ==> t[d + |s|] == '$' && !atEnd
    ensures SpellsTail(t, i + d, items, atEnd || close)
    decreases |items|
  {
    if items != [] {
      var it := items[0];
      var atom := if it.escaped then i + 1 else i;
      var next := if it.rep == Once then atom + 1 else atom + 2;
      ShiftTail(s, next, items[1..], atEnd, t, d, close);
      assert t[atom + d] == s[atom];
      if atom + 1 < |s| {
        assert t[atom + 1 + d] == s[atom + 1];
      }
    }
  }

  /** What a full match decides: the whole string is a word of the language, or, after an
      escaped `$`, only some prefix is. */
  ghost predicate FullyMatches(re: Regex, s: string) {
    if EndsInEscapedDollar(re) then exists j | 0 <= j <= |s| :: Lang(re.items, s[..j])
    else Lang(re.items, s)
  }

  lemma OccursAnchored(re: Regex, s: string)
    ensures Occurs(Anchored(re), s) <==> FullyMatches(re, s)
  {
    assert s[0..|s|] == s;
    if EndsInEscapedDollar(re) {
      forall j | 0 <= j <= |s| ensures s[0..j] == s[..j] {}
      if j :| 0 <= j <= |s| && Lang(re.items, s[..j]) {
        assert Lang(Anchored(re).items, s[0..j]);
      }
    }
  }

  /** A `$` is added exactly if the regex is neither anchored at the end nor ends in an escaped `$`. */
  lemma ClosesTail(pattern: CString, re: Regex, close: bool)
    requires Spells(pattern, re) && (close <==> pattern == "" || pattern[|pattern| - 1] != '$')
    ensures close <==> !re.atEnd && !EndsInEscapedDollar(re)
  {
    TailEndsInDollar(pattern, if re.atStart then 1 else 0, re.items, re.atEnd);
    assert re.atStart && |pattern| == 1 ==> pattern[0] == '^';
  }

  lemma FullPatternSpells(pattern: CString, re: Regex, head: string, close: bool, full: string)
    requires Spells(pattern, re)
    requires head == if pattern == "" || pattern[0] != '^' then "^" else ""
    requires close <==> pattern == "" || pattern[|pattern| - 1] != '$'
    requires full == head + pattern + if close then "$" else ""
    ensures Spells(full, Anchored(re))
  {
    var start := if re.atStart then 1 else 0;
    ClosesTail(pattern, re, close);
    forall k | 0 <= k < |pattern| ensures full[k + |head|] == pattern[k] {}
    ShiftTail(pattern, start, re.items, re.atEnd, full, |head|, close);
    assert start + |head| == 1 && full[0] == '^';
    assert SpellsTail(full, 1, re.items, Anchored(re).atEnd);
  }

  class RE {
    var isValid: bool
    var pattern: CString
    var fullPattern: CString

    ghost predicate Valid()
      reads this
    {
      isValid ==> exists re :: Spells(pattern, re) && Spells(fullPattern, Anchored(re))
    }

    constructor (regex: CPointer)
      ensures Valid()
      ensures isValid <==> regex.Text? && exists re :: Spells(regex.s, re)
      ensures pattern == if regex == Null then "" else regex.s
    {
      isValid, pattern, fullPattern := false, "", "";
      new;
      Init(regex);
    }

    method Init(regex: CPointer)
      modifies this
      ensures Valid()
      ensures isValid <==> regex.Text? && exists re :: Spells(regex.s, re)
      ensures pattern == if regex == Null then "" else regex.s
    {
      fullPattern := "";
      pattern := "";
      if regex != Null {
        pattern := regex.s;
      }
      isValid := ValidateRegex(regex);
      if !isValid {
        return;
      }
      if pattern == "" || pattern[0] != '^' {
        fullPattern := fullPattern + "^";
      }
      ghost var head := fullPattern;
      fullPattern := fullPattern + pattern;
      if pattern == "" || pattern[|pattern| - 1] != '$' {
        fullPattern := fullPattern + "$";
      }
      ghost var re :| Spells(pattern, re);
      FullPatternSpells(pattern, re, head, pattern == "" || pattern[|pattern| - 1] != '$', fullPattern);
    }

    method FullMatch(str: CPointer) returns (found: bool)
      requires Valid()
      ensures found ==> isValid && str.Text?
      ensures forall re | isValid && str.Text? && Spells(pattern, re) :: found <==> FullyMatches(re, str.s)
    {
      if !isValid {
        return false;
      }
      ghost var re :| Spells(pattern, re) && Spells(fullPattern, Anchored(re));
      found := MatchRegexAnywhere(Text(fullPattern), str, Anchored(re));
      if str.Text? {
        OccursAnchored(re, str.s);
        forall other | Spells(pattern, other) ensures other == re {
          SpelledOnce(pattern, re, other);
        }
      }
    }

    method PartialMatch(str: CPointer) returns (found: bool)
      requires Valid()
      ensures found ==> isValid && str.Text?
      ensures forall re | isValid && str.Text? && Spells(pattern, re) :: found <==> Occurs(re, str.s)
    {
      if !isValid {
        return false;
      }
      ghost var re :| Spells(pattern, re);
      found := MatchRegexAnywhere(Text(pattern), str, re);
      if str.Text? {
        forall other | Spells(pattern, other) ensures other == re {
          SpelledOnce(pattern, re, other);
        }
      }
    }
  }

  // ---------- When a full match is a match of the whole string ----------

  function WitnessChar(escaped: bool, c: char): (ch: char)
    requires ValidAtom(escaped, c)
    ensures ch != '\0' && Denotes(escaped, c, ch)
  {
    if !escaped then c
    else
      match c
      case 'd' => '0'
      case 'D' => 'a'
      case 'f' => FF
      case 'n' => '\n'
      case 'r' => '\r'
      case 's' => ' '
      case 'S' => 'a'
      case 't' => '\t'
      case 'v' => VT
      case 'w' => 'a'
      case 'W' => ' '
      case _ => c
  }

  /** The language of a valid regex is never empty. */
  lemma {:induction false} WitnessWord(items: seq<Item>) returns (w: CString)
    requires forall it <- items :: ValidAtom(it.escaped, it.c)
    ensures Lang(items, w)
  {
    if items == [] {
      return [];
    }
    var it := items[0];
    assert ValidAtom(it.escaped, it.c);
    var rest := WitnessWord(items[1..]);
    var ch := WitnessChar(it.escaped, it.c);
    w := [ch] + rest;
    assert w[..1] == [ch] && w[1..] == rest;
    assert ItemMatches(it, w[..1]);
  }

  lemma {:induction false} LastItemLast(items: seq<Item>, w: string)
    requires Lang(items, w) && items != [] && items[|items| - 1] == Item(true, '$', Once)
    ensures w != [] && w[|w| - 1] == '$'
  {
    var k :| 0 <= k <= |w| && ItemMatches(items[0], w[..k]) && Lang(items[1..], w[k..]);
    if |items| == 1 {
      assert k == |w| == 1 && w == w[..k];
      assert w[0] in w[..k];
    } else {
      LastItemLast(items[1..], w[k..]);
    }
  }

  /** Full matching means matching the whole string exactly for the regexes that do not
      end in an escaped `$`. */
  lemma FullMatchIsExact(re: Regex)
    requires forall it <- re.items :: ValidAtom(it.escaped, it.c)
    ensures (forall s: CString :: FullyMatches(re, s) <==> Lang(re.items, s)) <==> !EndsInEscapedDollar(re)
  {
    if EndsInEscapedDollar(re) {
      var w := WitnessWord(re.items);
      var s: CString := w + "x";
      assert s[..|w|] == w;
      assert FullyMatches(re, s);
      if Lang(re.items, s) {
        LastItemLast(re.items, s);
      }
    }
  }

  lemma OneCharWord(item: Item, ch: char)
    requires item.rep == Once
    ensures Lang([item], [ch]) <==> Denotes(item.escaped, item.c, ch)
  {
    assert [ch][..1] == [ch] && [ch][1..] == "" && [item][1..] == [] && Lang([], "");
    assert ItemMatches(item, [ch]) <==> Denotes(item.escaped, item.c, ch);
    assert !ItemMatches(item, [ch][..0]);
  }

  /** One class atom matches a one-character string iff the character is of the class. */
  method OneAtom(c: char, ch: char) returns (found: bool)
    requires c in "dDsSwWfnrtv" && ch != '\0'
    ensures found <==> Denotes(true, c, ch)
  {
    var item := Item(true, c, Once);
    var pattern, re := ['\\', c], Regex(false, [item], false);
    AtomsAreListed(c);
    assert SpellsTail(pattern, 2, [], false);
    assert Spells(pattern, re);
    var r := new RE(Text(pattern));
    found := r.FullMatch(Text([ch]));
    OneCharWord(item, ch);
  }

  lemma OneItemWord(item: Item, s: string)
    ensures Lang([item], s) <==> ItemMatches(item, s)
  {
    assert [item][1..] == [] && s[..|s|] == s && s[|s|..] == "";
  }

  /** A plain character and a repeat fully match the strings of that character alone: any for `*`,
      at least one for `+`, at most one for `?`. */
  method OneRepeat(c: char, repeat_: char, str: CString) returns (found: bool)
    requires c != '\0' && c !in ".\\^$()[]{}|?*+" && repeat_ in "?*+"
    ensures found <==> (forall ch <- str :: ch == c) && (repeat_ == '+' ==> |str| >= 1)
                       && (repeat_ == '?' ==> |str| <= 1)
  {
    var item := Item(false, c, RepeatOf(repeat_));
    var pattern, re := [c, repeat_], Regex(false, [item], false);
    AtomsAreListed(c);
    assert SpellsTail(pattern, 2, [], false);
    assert Spells(pattern, re);
    var r := new RE(Text(pattern));
    found := r.FullMatch(Text(str));
    OneItemWord(item, str);
  }

  /** Characters that stand for themselves. */
  predicate IsPlain(text: string) {
    forall k | 0 <= k < |text| :: text[k] != '\0' && text[k] !in ".\\^$()[]{}|?*+"
  }

  predicate IsPlainAtom(c: char) { ValidAtom(false, c) && c != '.' }

  predicate ArePlainAtoms(text: string) {
    forall k | 0 <= k < |text| :: IsPlainAtom(text[k])
  }

  lemma PlainAtoms(text: string)
    requires IsPlain(text)
    ensures ArePlainAtoms(text)
  {
    forall k | 0 <= k < |text| ensures IsPlainAtom(text[k]) {
      AtomsAreListed(text[k]);
    }
  }

  /** One unrepeated item for each character. */
  function PlainItems(text: string): seq<Item> {
    if text == "" then [] else [Item(false, text[0], Once)] + PlainItems(text[1..])
  }

  lemma PlainStep(pattern: string, i: nat, c: char, items: seq<Item>, atEnd: bool)
    requires IsPlainAtom(c) && At(pattern, i) == c && !IsRepeat(At(pattern, i + 1))
    requires SpellsTail(pattern, i + 1, items, atEnd)
    ensures SpellsTail(pattern, i, [Item(false, c, Once)] + items, atEnd)
  {
    assert ([Item(false, c, Once)] + items)[1..] == items;
  }

  lemma {:induction false} PlainSpells(pattern: string, i: nat, text: string, atEnd: bool)
    requires ArePlainAtoms(text) && |pattern| == i + |text| + (if atEnd then 1 else 0)
    requires forall k | 0 <= k < |text| :: pattern[i + k] == text[k]
    requires atEnd ==> pattern[i + |text|] == '$'
    ensures SpellsTail(pattern, i, PlainItems(text), atEnd)
    decreases |text|
  {
    if text != "" {
      forall k | 0 <= k < |text[1..]| ensures pattern[i + 1 + k] == text[1..][k] {
        assert pattern[i + (k + 1)] == text[k + 1];
      }
      PlainSpells(pattern, i + 1, text[1..], atEnd);
      assert pattern[i + 0] == text[0];
      if |text| > 1 {
        assert pattern[i + 1] == text[1] && IsPlainAtom(text[1]);
      }
      PlainStep(pattern, i, text[0], PlainItems(text[1..]), atEnd);
    }
  }

  lemma PlainItemMatches(c: char, s: string)
    requires IsPlainAtom(c)
    ensures ItemMatches(Item(false, c, Once), s) <==> s == [c]
  {
    if |s| == 1 {
      assert s == [s[0]] && s[0] in s;
    }
  }

  lemma {:induction false} PlainWord(text: string, s: string)
    requires ArePlainAtoms(text)
    ensures Lang(PlainItems(text), s) <==> s == text
  {
    if text != "" {
      var items := PlainItems(text);
      assert items[1..] == PlainItems(text[1..]);
      forall k | 0 <= k <= |s|
        ensures ItemMatches(items[0], s[..k]) && Lang(items[1..], s[k..]) <==> k == 1 && s == text
      {
        PlainItemMatches(text[0], s[..k]);
        PlainWord(text[1..], s[k..]);
        assert s == s[..k] + s[k..] && text == [text[0]] + text[1..];
      }
    }
  }

  lemma PlainOccurs(text: string, atStart: bool, atEnd: bool, str: string)
    requires ArePlainAtoms(text)
    ensures Occurs(Regex(atStart, PlainItems(text), atEnd), str) <==>
              exists i, j | 0 <= i <= j <= |str| ::
                str[i..j] == text && (atStart ==> i == 0) && (atEnd ==> j == |str|)
  {
    forall i, j | 0 <= i <= j <= |str| ensures Lang(PlainItems(text), str[i..j]) <==> str[i..j] == text {
      PlainWord(text, str[i..j]);
    }
  }

  lemma PlainPatternSpells(text: string, atStart: bool, atEnd: bool)
    requires ArePlainAtoms(text)
    ensures Spells((if atStart then "^" else "") + text + (if atEnd then "$" else ""),
                   Regex(atStart, PlainItems(text), atEnd))
  {
    PlainSpells((if atStart then "^" else "") + text + (if atEnd then "$" else ""),
                if atStart then 1 else 0, text, atEnd);
  }

  /** A plain text as a pattern occurs where the text does: anywhere, or at the start of the
      string after a `^`, or at its end before a `$`. */
  method PlainPattern(text: CString, atStart: bool, atEnd: bool, str: CString) returns (found: bool)
    requires IsPlain(text)
    ensures found <==> exists i, j | 0 <= i <= j <= |str| ::
              str[i..j] == text && (atStart ==> i == 0) && (atEnd ==> j == |str|)
  {
    PlainAtoms(text);
    PlainPatternSpells(text, atStart, atEnd);
    PlainOccurs(text, atStart, atEnd, str);
    var r := new RE(Text((if atStart then "^" else "") + text + (if atEnd then "$" else "")));
    found := r.PartialMatch(Text(str));
  }

  /** A pattern that ends in an escaped `$` fully matches a string with text after the `$`. */
  method EscapedDollarMatchesMore() returns (found: bool)
    ensures found
    ensures Spells("\\$", Regex(false, [Item(true, '$', Once)], false)) && !Lang([Item(true, '$', Once)], "$x")
  {
    var item := Item(true, '$', Once);
    var re := Regex(false, [item], false);
    assert SpellsTail("\\$", 2, [], false);
    assert Spells("\\$", re);
    assert "$x"[..1] == "$" && "$x"[1..] == "x" && ItemMatches(item, "$") && Lang([], "");
    assert "$"[1..] == "" && "$"[..1] == "$";
    assert Lang([item], "$x"[..1]);
    assert EndsInEscapedDollar(re) && FullyMatches(re, "$x");
    if Lang([item], "$x") {
      LastItemLast([item], "$x");
    }
    var r := new RE(Text("\\$"));
    found := r.FullMatch(Text("$x"));
  }
}
