/** The UTF-8 check of the Google Test printers, against the encoding of RFC 3629, section 4. */
module Utf8Validation {

  type Byte = b: int | 0 <= b < 256

  /** A Unicode scalar value: up to U+10FFFF, without the surrogates. */
  predicate IsScalar(c: int) {
    0 <= c <= 0x10FFFF && !(0xD800 <= c <= 0xDFFF)
  }

  /** The shortest-form encoding of one scalar value. */
  function Encode(c: int): (bytes: seq<Byte>)
    requires IsScalar(c)
    ensures 1 <= |bytes| <= 4
  {
    if c <= 0x7F then [c]
    else if c <= 0x7FF then [0xC0 + c / 64, 0x80 + c % 64]
    else if c <= 0xFFFF then [0xE0 + c / 64 / 64, 0x80 + c / 64 % 64, 0x80 + c % 64]
    else [0xF0 + c / 64 / 64 / 64, 0x80 + c / 64 / 64 % 64, 0x80 + c / 64 % 64, 0x80 + c % 64]
  }

  function EncodeAll(text: seq<int>): seq<Byte>
    requires forall c <- text :: IsScalar(c)
  {
    if text == [] then [] else Encode(text[0]) + EncodeAll(text[1..])
  }

  /** `bytes` is the encoding of the scalar values `text`. */
  ghost predicate Encodes(text: seq<int>, bytes: seq<Byte>) {
    (forall c <- text :: IsScalar(c)) && EncodeAll(text) == bytes
  }

  ghost predicate IsUtf8(bytes: seq<Byte>) {
    exists text :: Encodes(text, bytes)
  }

  predicate IsTrail(t: Byte) { 0x80 <= t <= 0xBF }

  /** The number of bytes of the well-formed character at the head, or 0. */
  ghost function HeadLength(s: seq<Byte>): nat {
    if s == [] then 0
    else if s[0] <= 0x7F then 1
    else if 0xC2 <= s[0] <= 0xDF && |s| >= 2 && IsTrail(s[1]) then 2
    else if 0xE0 <= s[0] <= 0xEF && |s| >= 3 && IsTrail(s[1]) && IsTrail(s[2])
            && (s[0] == 0xE0 ==> s[1] >= 0xA0) && (s[0] == 0xED ==> s[1] < 0xA0) then 3
    else if 0xF0 <= s[0] <= 0xF4 && |s| >= 4 && IsTrail(s[1]) && IsTrail(s[2]) && IsTrail(s[3])
            && (s[0] == 0xF0 ==> s[1] >= 0x90) && (s[0] == 0xF4 ==> s[1] < 0x90) then 4
    else 0
  }

  /** The six bits a trail byte carries. */
  function Payload(b: int): int { b - 0x80 }

  /** The number that `n` bytes of an encoding stand for. */
  function Scalar(s: seq<Byte>, n: nat): int
    requires 1 <= n <= |s| && n <= 4
  {
    var lead: int := s[0];
    if n == 1 then lead
    else if n == 2 then (lead - 0xC0) * 64 + Payload(s[1])
    else if n == 3 then ((lead - 0xE0) * 64 + Payload(s[1])) * 64 + Payload(s[2])
    else (((lead - 0xF0) * 64 + Payload(s[1])) * 64 + Payload(s[2])) * 64 + Payload(s[3])
  }

  lemma ScalarOfEncode(c: int)
    requires IsScalar(c)
    ensures Scalar(Encode(c), |Encode(c)|) == c
  {
    var q1 := c / 64;
    var q2 := q1 / 64;
    assert c == q1 * 64 + c % 64 && q1 == q2 * 64 + q1 % 64 && q2 == q2 / 64 * 64 + q2 % 64;
  }

  /** A trail byte holds the last six bits of the number it completes. */
  lemma SplitSix(x: int, t: Byte)
    requires IsTrail(t)
    ensures (x * 64 + Payload(t)) / 64 == x && 0x80 + (x * 64 + Payload(t)) % 64 == t
  {
  }

  lemma SameBytes(a: seq<Byte>, s: seq<Byte>, n: nat)
    requires |a| == n <= |s| && n <= 4
    requires n > 0 ==> a[0] == s[0]
    requires n > 1 ==> a[1] == s[1]
    requires n > 2 ==> a[2] == s[2]
    requires n > 3 ==> a[3] == s[3]
    ensures a == s[..n]
  {
  }

  lemma DecodeFour(s: seq<Byte>)
    requires HeadLength(s) == 4
    ensures IsScalar(Scalar(s, 4)) && Encode(Scalar(s, 4)) == s[..4]
  {
    var c := Scalar(s, 4);
    var lead: int := s[0];
    var top := (lead - 0xF0) * 64 + Payload(s[1]);
    SplitSix(lead - 0xF0, s[1]);
    SplitSix(top, s[2]);
    SplitSix(top * 64 + Payload(s[2]), s[3]);
    SameBytes(Encode(c), s, 4);
  }

  lemma DecodeThree(s: seq<Byte>)
    requires HeadLength(s) == 3
    ensures IsScalar(Scalar(s, 3)) && Encode(Scalar(s, 3)) == s[..3]
  {
    var lead: int := s[0];
    SplitSix(lead - 0xE0, s[1]);
    SplitSix((lead - 0xE0) * 64 + Payload(s[1]), s[2]);
    SameBytes(Encode(Scalar(s, 3)), s, 3);
  }

  /** A well-formed head is the encoding of a scalar value. */
  lemma DecodeHead(s: seq<Byte>) returns (c: int)
    requires HeadLength(s) > 0
    ensures IsScalar(c) && |Encode(c)| == HeadLength(s) && Encode(c) == s[..HeadLength(s)]
  {
    var n := HeadLength(s);
    c := Scalar(s, n);
    if n == 4 {
      DecodeFour(s);
    } else if n == 3 {
      DecodeThree(s);
    } else {
      if n == 2 {
        SplitSix(s[0] as int - 0xC0, s[1]);
      }
      SameBytes(Encode(c), s, n);
    }
  }

  /** The encoding of a scalar value makes a well-formed head, whatever follows it. */
  lemma EncodeHead(c: int, rest: seq<Byte>)
    requires IsScalar(c)
    ensures HeadLength(Encode(c) + rest) == |Encode(c)|
  {
  }

  /** No encoding is a prefix of another. */
  lemma EncodeInjective(a: int, b: int, x: seq<Byte>, y: seq<Byte>)
    requires IsScalar(a) && IsScalar(b) && Encode(a) + x == Encode(b) + y
    ensures a == b && x == y
  {
    var s := Encode(a) + x;
    EncodeHead(a, x);
    EncodeHead(b, y);
    var n := |Encode(a)|;
    assert Encode(a) == s[..n] == Encode(b);
    assert x == s[n..] == y;
    ScalarOfEncode(a);
    ScalarOfEncode(b);
  }

  /** A byte string is the encoding of at most one sequence of scalar values. */
  lemma {:induction false} DecodingUnique(a: seq<int>, b: seq<int>, bytes: seq<Byte>)
    requires Encodes(a, bytes) && Encodes(b, bytes)
    ensures a == b
  {
    if a != [] && b != [] {
      EncodeInjective(a[0], b[0], EncodeAll(a[1..]), EncodeAll(b[1..]));
      DecodingUnique(a[1..], b[1..], EncodeAll(a[1..]));
      assert a == [a[0]] + a[1..] && b == [b[0]] + b[1..];
    }
  }

  /** Reading one character off the head does not change validity. */
  lemma HeadStep(s: seq<Byte>)
    requires s != []
    ensures IsUtf8(s) <==> HeadLength(s) > 0 && IsUtf8(s[HeadLength(s)..])
  {
    if text :| Encodes(text, s) {
      EncodeHead(text[0], EncodeAll(text[1..]));
      assert s[HeadLength(s)..] == EncodeAll(text[1..]);
      assert Encodes(text[1..], s[HeadLength(s)..]);
    }
    if HeadLength(s) > 0 && IsUtf8(s[HeadLength(s)..]) {
      var c := DecodeHead(s);
      var text :| Encodes(text, s[HeadLength(s)..]);
      assert ([c] + text)[1..] == text;
      assert Encodes([c] + text, s);
    }
  }

  /** The least and the greatest scalar value of each length, and of the surrogate gap. */
  lemma LengthBounds()
    ensures Encode(0) == [0] && Encode(0x7F) == [0x7F]
    ensures Encode(0x80) == [0xC2, 0x80] && Encode(0x7FF) == [0xDF, 0xBF]
    ensures Encode(0x800) == [0xE0, 0xA0, 0x80] && Encode(0xFFFF) == [0xEF, 0xBF, 0xBF]
    ensures Encode(0xD7FF) == [0xED, 0x9F, 0xBF] && Encode(0xE000) == [0xEE, 0x80, 0x80]
    ensures Encode(0x10000) == [0xF0, 0x90, 0x80, 0x80] && Encode(0x10FFFF) == [0xF4, 0x8F, 0xBF, 0xBF]
  {
  }

  /** The bytes that no text contains: those of over-long forms and of numbers too great. */
  lemma {:induction false} ForbiddenBytes(text: seq<int>, bytes: seq<Byte>)
    requires Encodes(text, bytes)
    ensures forall b <- bytes :: b < 0xF5 && b != 0xC0 && b != 0xC1
  {
    if text != [] {
      ForbiddenBytes(text[1..], EncodeAll(text[1..]));
      assert bytes == Encode(text[0]) + EncodeAll(text[1..]);
    }
  }

  /** No text contains an encoded surrogate, an over-long form, or a number past U+10FFFF at its head. */
  lemma IllFormedHeads(t: Byte, rest: seq<Byte>)
    ensures t >= 0xA0 ==> !IsUtf8([0xED, t] + rest)
    ensures t < 0xA0 ==> !IsUtf8([0xE0, t] + rest)
    ensures t < 0x90 ==> !IsUtf8([0xF0, t] + rest)
    ensures t >= 0x90 ==> !IsUtf8([0xF4, t] + rest)
    ensures 0x80 <= t < 0xC0 ==> !IsUtf8([t] + rest)
  {
    HeadStep([0xED, t] + rest);
    HeadStep([0xE0, t] + rest);
    HeadStep([0xF0, t] + rest);
    HeadStep([0xF4, t] + rest);
    HeadStep([t] + rest);
  }

  method IsValidUTF8(s: seq<Byte>) returns (ok: bool)
    ensures ok <==> IsUtf8(s)
  {
    var length := |s|;
    var i := 0;
    assert s[0..] == s;
    while i < length
      invariant 0 <= i <= length
      invariant IsUtf8(s) <==> IsUtf8(s[i..])
    {
      HeadStep(s[i..]);
      ghost var n := HeadLength(s[i..]);
      assert n <= |s[i..]| ==> s[i..][n..] == s[i + n..];
      var lead := s[i];
      i := i + 1;
      if lead <= 0x7F {
        continue;
      }
      if lead < 0xC2 {
        return false;
      } else if lead <= 0xDF && i + 1 <= length && IsTrail(s[i]) {
        i := i + 1;
      } else if 0xE0 <= lead && lead <= 0xEF && i + 2 <= length && IsTrail(s[i]) && IsTrail(s[i + 1])
                && (lead != 0xE0 || s[i] >= 0xA0)
                && (lead != 0xED || s[i] < 0xA0) {
        i := i + 2;
      } else if 0xF0 <= lead && lead <= 0xF4 && i + 3 <= length && IsTrail(s[i]) && IsTrail(s[i + 1])
                && IsTrail(s[i + 2])
                && (lead != 0xF0 || s[i] >= 0x90)
                && (lead != 0xF4 || s[i] < 0x90) {
        i := i + 3;
      } else {
        return false;
      }
    }
    assert s[i..] == EncodeAll([]);
    assert Encodes([], s[i..]);
    return true;
  }
}
