/** The base64 decoder of Google Mock, against the encoding of RFC 4648, sections 4 and 5. */
module Base64Decoding {

  // ---------- Alphabets ----------

  const INVALID: nat := 65

  predicate IsSpace(c: char) {
    c == ' ' || '\t' <= c <= '\r'
  }

  /** White space and padding are skipped wherever they stand. */
  predicate IsSkipped(c: char) {
    IsSpace(c) || c == '='
  }

  /** The 64 characters of the standard alphabet: letters, digits, plus and slash. */
  function AlphabetChar(v: nat): (c: char)
    requires v < 64
    ensures c as int < 128 && !IsSkipped(c)
  {
    if v < 26 then ('A' as int + v) as char
    else if v < 52 then ('a' as int + (v - 26)) as char
    else if v < 62 then ('0' as int + (v - 52)) as char
    else if v == 62 then '+'
    else '/'
  }

  function Alphabet(): (s: string)
    ensures |s| == 64 && forall v | 0 <= v < 64 :: s[v] == AlphabetChar(v)
  {
    seq(64, v requires 0 <= v < 64 => AlphabetChar(v))
  }

  /** The URL-safe alphabet differs in the last two characters. */
  function WebSafeChar(v: nat): (c: char)
    requires v < 64
    ensures c as int < 128 && !IsSkipped(c)
  {
    if v == 62 then '-' else if v == 63 then '_' else AlphabetChar(v)
  }

  function UndoWebSafeEncoding(c: char): char {
    if c == '-' then '+' else if c == '_' then '/' else c
  }

  /** The position of `c` in the alphabet, counted up from `carry`. */
  function UnBase64Impl(c: char, base64: string, carry: nat): nat {
    if base64 == "" then INVALID
    else if base64[0] == c then carry
    else UnBase64Impl(c, base64[1..], carry + 1)
  }

  /** The entry of the decoding table for `c`. */
  function UnBase64(c: char): nat {
    UnBase64Impl(UndoWebSafeEncoding(c), Alphabet(), 0)
  }

  lemma {:induction false} UnBase64ImplFinds(c: char, base64: string, carry: nat)
    ensures var r := UnBase64Impl(c, base64, carry);
            if c in base64 then carry <= r < carry + |base64| && base64[r - carry] == c else r == INVALID
  {
    if base64 != "" && base64[0] != c {
      UnBase64ImplFinds(c, base64[1..], carry + 1);
      assert forall d <- base64 :: d == base64[0] || d in base64[1..];
    }
  }

  /** The table decodes both alphabets and nothing else. */
  lemma TableDecodes(c: char)
    ensures UnBase64(c) < 64 <==> exists v: nat :: v < 64 && (c == AlphabetChar(v) || c == WebSafeChar(v))
    ensures UnBase64(c) < 64 ==> c == AlphabetChar(UnBase64(c)) || c == WebSafeChar(UnBase64(c))
  {
    var d := UndoWebSafeEncoding(c);
    UnBase64ImplFinds(d, Alphabet(), 0);
    if v: nat :| v < 64 && (c == AlphabetChar(v) || c == WebSafeChar(v)) {
      assert d == Alphabet()[v];
    }
  }

  lemma AlphabetInjective(v: nat, w: nat)
    requires v < 64 && w < 64
    requires AlphabetChar(v) == AlphabetChar(w)
    ensures v == w
  {
  }

  /** The two alphabets never disagree on a character. */
  lemma TableValue(c: char, v: nat)
    requires v < 64 && (c == AlphabetChar(v) || c == WebSafeChar(v))
    ensures UnBase64(c) == v
  {
    var d := UndoWebSafeEncoding(c);
    UnBase64ImplFinds(d, Alphabet(), 0);
    assert d == AlphabetChar(v) == Alphabet()[v];
    AlphabetInjective(v, UnBase64(c));
  }

  /** The value of a character by sections 4 and 5 of RFC 4648: capitals, small letters, digits,
      and two more. */
  function GroupValue(c: char): nat {
    if 'A' <= c <= 'Z' then c as int - 'A' as int
    else if 'a' <= c <= 'z' then c as int - 'a' as int + 26
    else if '0' <= c <= '9' then c as int - '0' as int + 52
    else if c == '+' || c == '-' then 62
    else if c == '/' || c == '_' then 63
    else INVALID
  }

  /** The table holds the values of the RFC. */
  lemma TableHoldsValues(c: char)
    ensures UnBase64(c) == GroupValue(c)
  {
    TableDecodes(c);
    var v := GroupValue(c);
    if v < 64 {
      assert c == AlphabetChar(v) || c == WebSafeChar(v);
      TableValue(c, v);
    } else {
      assert UnBase64(c) < 64 ==> GroupValue(c) == UnBase64(c);
      UnBase64ImplFinds(UndoWebSafeEncoding(c), Alphabet(), 0);
    }
  }

  // ---------- Packing ----------

  // The four 6-bit groups of three bytes, and the three bytes of four groups.
  function Group0(a: bv8): bv8 { a >> 2 }

  function Group1(a: bv8, b: bv8): bv8 { ((a & 3) << 4) | (b >> 4) }

  function Group2(b: bv8, c: bv8): bv8 { ((b & 15) << 2) | (c >> 6) }

  function Group3(c: bv8): bv8 { c & 63 }

  function Byte0(p: bv8, q: bv8): bv8 { (p << 2) | (q >> 4) }

  function Byte1(q: bv8, r: bv8): bv8 { (q << 4) | (r >> 2) }

  function Byte2(r: bv8, s: bv8): bv8 { (r << 6) | s }

  lemma GroupsFit(a: bv8, b: bv8, c: bv8)
    ensures Group0(a) < 64 && Group1(a, b) < 64 && Group2(b, c) < 64 && Group3(c) < 64
  {
  }

  /** Splitting three bytes and joining the groups gives the bytes back. */
  lemma JoinSplit(a: bv8, b: bv8, c: bv8)
    ensures Byte0(Group0(a), Group1(a, b)) == a
    ensures Byte1(Group1(a, b), Group2(b, c)) == b
    ensures Byte2(Group2(b, c), Group3(c)) == c
  {
  }

  /** The 6-bit groups of a byte string, without padding (section 4 of RFC 4648). */
  function Pack(bytes: seq<bv8>): seq<bv8> {
    if |bytes| == 0 then []
    else if |bytes| == 1 then [Group0(bytes[0]), Group1(bytes[0], 0)]
    else if |bytes| == 2 then [Group0(bytes[0]), Group1(bytes[0], bytes[1]), Group2(bytes[1], 0)]
    else
      var (a, b, c) := (bytes[0], bytes[1], bytes[2]);
      [Group0(a), Group1(a, b), Group2(b, c), Group3(c)] + Pack(bytes[3..])
  }

  /** The bytes that 6-bit groups spell; bits that do not fill a byte are dropped. */
  function Unpack(groups: seq<bv8>): seq<bv8> {
    if |groups| <= 1 then []
    else if |groups| == 2 then [Byte0(groups[0], groups[1])]
    else if |groups| == 3 then [Byte0(groups[0], groups[1]), Byte1(groups[1], groups[2])]
    else
      var (p, q, r, s) := (groups[0], groups[1], groups[2], groups[3]);
      [Byte0(p, q), Byte1(q, r), Byte2(r, s)] + Unpack(groups[4..])
  }

  lemma UnpackFour(p: bv8, q: bv8, r: bv8, s: bv8, rest: seq<bv8>)
    ensures Unpack([p, q, r, s] + rest) == [Byte0(p, q), Byte1(q, r), Byte2(r, s)] + Unpack(rest)
  {
    assert ([p, q, r, s] + rest)[4..] == rest;
  }

  lemma {:induction false} UnpackPack(bytes: seq<bv8>)
    ensures Unpack(Pack(bytes)) == bytes
  {
    if |bytes| >= 3 {
      var a, b, c := bytes[0], bytes[1], bytes[2];
      JoinSplit(a, b, c);
      UnpackPack(bytes[3..]);
      UnpackFour(Group0(a), Group1(a, b), Group2(b, c), Group3(c), Pack(bytes[3..]));
      assert bytes == [a, b, c] + bytes[3..];
    } else if |bytes| == 2 {
      JoinSplit(bytes[0], bytes[1], 0);
    } else if |bytes| == 1 {
      JoinSplit(bytes[0], 0, 0);
    }
  }

  // ---------- The decoder ----------

  /** What the loop carries: the place of the next group, the byte begun, and the output. */
  datatype State = State(bitPos: nat, dst: bv8, decoded: seq<bv8>)

  const START := State(0, 0, [])

  function Step(s: State, g: bv8): State {
    if s.bitPos == 0 then State(6, s.dst | (g << 2), s.decoded)
    else if s.bitPos == 6 then State(4, g << 4, s.decoded + [s.dst | (g >> 4)])
    else if s.bitPos == 4 then State(2, g << 6, s.decoded + [s.dst | (g >> 2)])
    else State(0, 0, s.decoded + [s.dst | g])
  }

  function Run(s: State, groups: seq<bv8>): State
    decreases |groups|
  {
    if groups == [] then s else Run(Step(s, groups[0]), groups[1..])
  }

  lemma StepFirst(o: seq<bv8>, p: bv8)
    ensures Step(State(0, 0, o), p) == State(6, p << 2, o)
  {
  }

  lemma StepSecond(o: seq<bv8>, p: bv8, q: bv8)
    ensures Step(State(6, p << 2, o), q) == State(4, q << 4, o + [Byte0(p, q)])
  {
  }

  lemma StepThird(o: seq<bv8>, q: bv8, r: bv8)
    ensures Step(State(4, q << 4, o), r) == State(2, r << 6, o + [Byte1(q, r)])
  {
  }

  lemma StepFourth(o: seq<bv8>, r: bv8, s: bv8)
    ensures Step(State(2, r << 6, o), s) == State(0, 0, o + [Byte2(r, s)])
  {
  }

  lemma RunOne(s: State, g: bv8, rest: seq<bv8>)
    ensures Run(s, [g] + rest) == Run(Step(s, g), rest)
  {
    assert ([g] + rest)[1..] == rest;
  }

  lemma RunTwo(o: seq<bv8>, p: bv8, q: bv8, rest: seq<bv8>)
    ensures Run(State(0, 0, o), [p] + ([q] + rest)) == Run(State(4, q << 4, o + [Byte0(p, q)]), rest)
  {
    StepFirst(o, p);
    RunOne(State(0, 0, o), p, [q] + rest);
    StepSecond(o, p, q);
    RunOne(State(6, p << 2, o), q, rest);
  }

  lemma RunThree(o: seq<bv8>, p: bv8, q: bv8, r: bv8, rest: seq<bv8>)
    ensures Run(State(0, 0, o), [p] + ([q] + ([r] + rest)))
            == Run(State(2, r << 6, o + [Byte0(p, q), Byte1(q, r)]), rest)
  {
    var o1 := o + [Byte0(p, q)];
    RunTwo(o, p, q, [r] + rest);
    StepThird(o1, q, r);
    RunOne(State(4, q << 4, o1), r, rest);
    assert o1 + [Byte1(q, r)] == o + [Byte0(p, q), Byte1(q, r)];
  }

  lemma RunFour(o: seq<bv8>, p: bv8, q: bv8, r: bv8, s: bv8, rest: seq<bv8>)
    ensures Run(State(0, 0, o), [p] + ([q] + ([r] + ([s] + rest))))
         == Run(State(0, 0, o + [Byte0(p, q), Byte1(q, r), Byte2(r, s)]), rest)
  {
    var o2 := o + [Byte0(p, q), Byte1(q, r)];
    RunThree(o, p, q, r, [s] + rest);
    StepFourth(o2, r, s);
    RunOne(State(2, r << 6, o2), s, rest);
    assert o2 + [Byte2(r, s)] == o + [Byte0(p, q), Byte1(q, r), Byte2(r, s)];
  }

  lemma Peel<T>(s: seq<T>)
    requires s != []
    ensures s == [s[0]] + s[1..] && forall k | 1 <= k <= |s| :: s[1..][k - 1..] == s[k..]
  {
  }

  lemma Regroup<T>(a: seq<T>, b: seq<T>, c: seq<T>)
    ensures a + b + c == a + (b + c)
  {
  }

  lemma RunEndTwo(o: seq<bv8>, p: bv8, q: bv8)
    ensures Run(State(0, 0, o), [p, q]).decoded == o + Unpack([p, q])
  {
    assert [p, q] == [p] + ([q] + []);
    RunTwo(o, p, q, []);
  }

  lemma RunEndThree(o: seq<bv8>, p: bv8, q: bv8, r: bv8)
    ensures Run(State(0, 0, o), [p, q, r]).decoded == o + Unpack([p, q, r])
  {
    assert [p, q, r] == [p] + ([q] + ([r] + []));
    RunThree(o, p, q, r, []);
  }

  /** The state machine computes `Unpack`. */
  lemma {:induction false} RunUnpacks(o: seq<bv8>, groups: seq<bv8>)
    ensures Run(State(0, 0, o), groups).decoded == o + Unpack(groups)
    decreases |groups|
  {
    var s0 := State(0, 0, o);
    if |groups| >= 4 {
      var p, q, r, s := groups[0], groups[1], groups[2], groups[3];
      Peel(groups);
      Peel(groups[1..]);
      Peel(groups[2..]);
      Peel(groups[3..]);
      RunFour(o, p, q, r, s, groups[4..]);
      RunUnpacks(o + [Byte0(p, q), Byte1(q, r), Byte2(r, s)], groups[4..]);
      Regroup(o, [Byte0(p, q), Byte1(q, r), Byte2(r, s)], Unpack(groups[4..]));
    } else if |groups| == 3 {
      RunEndThree(o, groups[0], groups[1], groups[2]);
      assert groups == [groups[0], groups[1], groups[2]];
    } else if |groups| == 2 {
      RunEndTwo(o, groups[0], groups[1]);
      assert groups == [groups[0], groups[1]];
    } else if |groups| == 1 {
      StepFirst(o, groups[0]);
    }
  }

  function ToGroup(v: nat): bv8
    requires v < 64
  {
    v as bv8
  }

  /** A character the decoder accepts. */
  predicate IsAccepted(c: char) {
    IsSkipped(c) || GroupValue(c) < 64
  }

  /** The groups that a text spells, white space and padding left out. */
  function Groups(text: string): seq<bv8>
    requires forall c <- text :: IsAccepted(c)
  {
    if text == "" then []
    else if IsSkipped(text[0]) then Groups(text[1..])
    else
      assert IsAccepted(text[0]);
      [ToGroup(GroupValue(text[0]))] + Groups(text[1..])
  }

  /** Adds one group to the output. */
  method TakeGroup(bitPos: nat, dst: bv8, decoded: seq<bv8>, srcBin: bv8)
    returns (bitPos': nat, dst': bv8, decoded': seq<bv8>)
    requires bitPos == 0 || bitPos == 2 || bitPos == 4 || bitPos == 6
    ensures State(bitPos', dst', decoded') == Step(State(bitPos, dst, decoded), srcBin)
    ensures bitPos' == 0 || bitPos' == 2 || bitPos' == 4 || bitPos' == 6
  {
    if bitPos == 0 {
      dst' := dst | (srcBin << 2);
      bitPos' := 6;
      decoded' := decoded;
    } else {
      dst' := dst | (srcBin >> (bitPos - 2));
      decoded' := decoded + [dst'];
      dst' := srcBin << (10 - bitPos);
      bitPos' := (bitPos + 6) % 8;
    }
  }

  /** What an accepted character does to the state. */
  function After(s: State, c: char): State
    requires IsAccepted(c) && (s.bitPos == 0 || s.bitPos == 2 || s.bitPos == 4 || s.bitPos == 6)
  {
    if IsSkipped(c) then s else Step(s, ToGroup(GroupValue(c)))
  }

  /** Looks a character up and takes its group, if it has one. */
  method TakeChar(bitPos: nat, dst: bv8, decoded: seq<bv8>, src: char)
    returns (ok: bool, bitPos': nat, dst': bv8, decoded': seq<bv8>)
    requires bitPos == 0 || bitPos == 2 || bitPos == 4 || bitPos == 6
    requires src as int < 256
    ensures ok <==> IsAccepted(src)
    ensures ok ==> State(bitPos', dst', decoded') == After(State(bitPos, dst, decoded), src)
    ensures bitPos' == 0 || bitPos' == 2 || bitPos' == 4 || bitPos' == 6
  {
    ok, bitPos', dst', decoded' := true, bitPos, dst, decoded;
    if IsSkipped(src) {
      return;
    }
    TableHoldsValues(src);
    var v := UnBase64(src);
    if v >= 64 {
      ok := false;
      return;
    }
    bitPos', dst', decoded' := TakeGroup(bitPos, dst, decoded, ToGroup(v));
  }

  lemma RunAfter(s: State, text: string, i: nat)
    requires i < |text| && (forall c <- text :: IsAccepted(c))
    requires s.bitPos == 0 || s.bitPos == 2 || s.bitPos == 4 || s.bitPos == 6
    ensures IsAccepted(text[i])
    ensures Run(s, Groups(text[i..])) == Run(After(s, text[i]), Groups(text[i + 1..]))
  {
    assert text[i] in text && text[i..][1..] == text[i + 1..];
    var g, rest := Groups(text[i..]), Groups(text[i + 1..]);
    if !IsSkipped(text[i]) {
      assert g == [ToGroup(GroupValue(text[i]))] + rest && g[1..] == rest;
    }
  }

  /** Decodes a text of 8-bit characters. Where they are signed, a character above 127 would be
      a negative index of the table, so the caller must not pass one. */
  method Base64Unescape(encoded: string, signedChars: bool) returns (ok: bool, decoded: seq<bv8>)
    requires forall c <- encoded :: c as int < if signedChars then 128 else 256
    ensures ok <==> forall c <- encoded :: IsAccepted(c)
    ensures ok ==> decoded == Unpack(Groups(encoded))
    ensures !ok ==> decoded == []
  {
    decoded := [];
    var bitPos: nat := 0;
    var dst: bv8 := 0;
    var i := 0;
    ghost var valid := forall c <- encoded :: IsAccepted(c);
    ghost var goal := if valid then Run(START, Groups(encoded)) else START;
    assert encoded[0..] == encoded;
    while i < |encoded|
      invariant 0 <= i <= |encoded|
      invariant forall k | 0 <= k < i :: IsAccepted(encoded[k])
      invariant bitPos == 0 || bitPos == 2 || bitPos == 4 || bitPos == 6
      invariant valid ==> goal == Run(State(bitPos, dst, decoded), Groups(encoded[i..]))
    {
      assert encoded[i] in encoded;
      var code := encoded[i] as int;
      if signedChars && code >= 128 {
        code := code - 256;
      }
      assert 0 <= code < 256;
      if valid {
        RunAfter(State(bitPos, dst, decoded), encoded, i);
      }
      var taken;
      taken, bitPos, dst, decoded := TakeChar(bitPos, dst, decoded, code as char);
      if !taken {
        return false, [];
      }
      i := i + 1;
    }
    RunUnpacks([], Groups(encoded));
    return true, decoded;
  }

  // ---------- Round trip ----------

  /** `c` stands for the group `g` in one of the two alphabets. */
  ghost predicate IsCharFor(c: char, g: bv8) {
    exists v: nat :: v < 64 && ToGroup(v) == g && (c == AlphabetChar(v) || c == WebSafeChar(v))
  }

  /** `text` spells the groups, each in either alphabet, with white space and padding anywhere. */
  ghost predicate Spells(text: string, groups: seq<bv8>) {
    if text == "" then groups == []
    else if IsSkipped(text[0]) then Spells(text[1..], groups)
    else groups != [] && IsCharFor(text[0], groups[0]) && Spells(text[1..], groups[1..])
  }

  lemma {:induction false} SpelledGroups(text: string, groups: seq<bv8>)
    requires Spells(text, groups)
    ensures (forall c <- text :: IsAccepted(c)) && Groups(text) == groups
    decreases |text|
  {
    if text != "" {
      if IsSkipped(text[0]) {
        SpelledGroups(text[1..], groups);
      } else {
        SpelledGroups(text[1..], groups[1..]);
        var v: nat :| v < 64 && ToGroup(v) == groups[0] && (text[0] == AlphabetChar(v) || text[0] == WebSafeChar(v));
        TableValue(text[0], v);
        TableHoldsValues(text[0]);
        assert groups == [groups[0]] + groups[1..];
      }
      assert forall c <- text :: c == text[0] || c in text[1..];
    }
  }

  /** Every spelling of the encoding of some bytes is decoded to those bytes. */
  lemma DecodeInvertsEncode(bytes: seq<bv8>, text: string)
    requires Spells(text, Pack(bytes))
    ensures (forall c <- text :: IsAccepted(c)) && Unpack(Groups(text)) == bytes
  {
    SpelledGroups(text, Pack(bytes));
    UnpackPack(bytes);
  }

  /** Six bits. */
  predicate Fits(g: bv8) {
    g < 64
  }

  /** The character of a group. */
  function CharOf(g: bv8, webSafe: bool): char
    requires Fits(g)
  {
    if webSafe then WebSafeChar(g as nat) else AlphabetChar(g as nat)
  }

  function CharsOf(groups: seq<bv8>, webSafe: bool): (text: string)
    requires forall k | 0 <= k < |groups| :: Fits(groups[k])
    ensures |text| == |groups|
  {
    if groups == [] then "" else [CharOf(groups[0], webSafe)] + CharsOf(groups[1..], webSafe)
  }

  lemma {:induction false} PackFits(bytes: seq<bv8>)
    ensures forall k | 0 <= k < |Pack(bytes)| :: Fits(Pack(bytes)[k])
  {
    if |bytes| == 1 {
      GroupsFit(bytes[0], 0, 0);
    } else if |bytes| == 2 {
      GroupsFit(bytes[0], bytes[1], 0);
    } else if |bytes| > 2 {
      GroupsFit(bytes[0], bytes[1], bytes[2]);
      PackFits(bytes[3..]);
    }
  }

  /** The padding that fills the last quantum of four characters. */
  function Padding(n: nat): string {
    if n % 3 == 1 then "==" else if n % 3 == 2 then "=" else ""
  }

  /** The encoding of some bytes, in either alphabet, with or without padding. */
  function Encode(bytes: seq<bv8>, webSafe: bool, padded: bool): string {
    PackFits(bytes);
    CharsOf(Pack(bytes), webSafe) + if padded then Padding(|bytes|) else ""
  }

  /** A padded encoding consists of quanta of four characters. */
  lemma {:induction false} PaddedQuanta(bytes: seq<bv8>)
    ensures |Pack(bytes)| + |Padding(|bytes|)| == (|bytes| + 2) / 3 * 4
    decreases |bytes|
  {
    if |bytes| > 2 {
      PaddedQuanta(bytes[3..]);
      assert |Pack(bytes)| == 4 + |Pack(bytes[3..])| && |bytes[3..]| == |bytes| - 3;
      assert |Padding(|bytes|)| == |Padding(|bytes| - 3)|;
    }
  }

  lemma GroupOfChar(g: bv8, webSafe: bool)
    requires Fits(g)
    ensures IsCharFor(CharOf(g, webSafe), g) && !IsSkipped(CharOf(g, webSafe))
  {
    var v := g as nat;
    assert v < 64 && ToGroup(v) == g;
  }

  lemma {:induction false} PaddingSpells(rest: string)
    requires forall c <- rest :: c == '='
    ensures Spells(rest, [])
  {
    if rest != "" {
      assert rest[0] in rest && forall c <- rest[1..] :: c in rest;
      PaddingSpells(rest[1..]);
    }
  }

  lemma {:induction false} CharsSpell(groups: seq<bv8>, webSafe: bool, rest: string)
    requires (forall k | 0 <= k < |groups| :: Fits(groups[k])) && forall c <- rest :: c == '='
    ensures Spells(CharsOf(groups, webSafe) + rest, groups)
  {
    var text := CharsOf(groups, webSafe) + rest;
    if groups == [] {
      assert text == rest;
      PaddingSpells(rest);
    } else {
      GroupOfChar(groups[0], webSafe);
      assert text[1..] == CharsOf(groups[1..], webSafe) + rest;
      CharsSpell(groups[1..], webSafe, rest);
    }
  }

  /** The encoding of some bytes spells their groups. */
  lemma EncodeSpells(bytes: seq<bv8>, webSafe: bool, padded: bool)
    ensures Spells(Encode(bytes, webSafe, padded), Pack(bytes))
  {
    PackFits(bytes);
    CharsSpell(Pack(bytes), webSafe, if padded then Padding(|bytes|) else "");
  }

  lemma {:induction false} SpelledIsAscii(text: string, groups: seq<bv8>)
    requires Spells(text, groups)
    ensures forall c <- text :: c as int < 128
    decreases |text|
  {
    if text != "" {
      SpelledIsAscii(text[1..], if IsSkipped(text[0]) then groups else groups[1..]);
      assert forall c <- text :: c == text[0] || c in text[1..];
    }
  }

  /** Decoding an encoding gives the bytes back, wherever characters are signed or not. */
  method DecodeEncoding(bytes: seq<bv8>, webSafe: bool, padded: bool, signedChars: bool)
    returns (ok: bool, decoded: seq<bv8>)
    ensures ok && decoded == bytes
  {
    EncodeSpells(bytes, webSafe, padded);
    SpelledIsAscii(Encode(bytes, webSafe, padded), Pack(bytes));
    DecodeInvertsEncode(bytes, Encode(bytes, webSafe, padded));
    ok, decoded := Base64Unescape(Encode(bytes, webSafe, padded), signedChars);
  }

  /** A character is accepted iff it is in an alphabet, white space or padding. */
  lemma AcceptedCharacters(c: char)
    ensures IsAccepted(c) <==>
              || c in " \t\n\U{000B}\U{000C}\r="
              || 'A' <= c <= 'Z' || 'a' <= c <= 'z' || '0' <= c <= '9' || c in "+/-_"
  {
  }

  lemma GroupsOfMan()
    ensures Groups("TWFu") == [19, 22, 5, 46]
  {
    assert "TWFu"[1..] == "WFu" && "WFu"[1..] == "Fu" && "Fu"[1..] == "u" && "u"[1..] == "";
    assert Groups("") == [] && Groups("u") == [46] && Groups("Fu") == [5, 46];
    assert Groups("WFu") == [22, 5, 46];
  }

  /** The text `TWFu` is the encoding of `Man`. */
  method DecodeMan() returns (ok: bool, decoded: seq<bv8>)
    ensures ok && decoded == [0x4D, 0x61, 0x6E]
  {
    ok, decoded := Base64Unescape("TWFu", true);
    GroupsOfMan();
    assert [19 as bv8, 22, 5, 46][4..] == [];
  }
}
