/** Printing 128-bit integers in decimal with two 64-bit limbs. */
module Int128Printer {

  const TWO_64 := 0x1_0000_0000_0000_0000

  const TWO_128 := TWO_64 * TWO_64

  // ---------- Numerals ----------

  predicate IsDigit(c: char) { '0' <= c <= '9' }

  function DigitValue(c: char): int { c as int - '0' as int }

  function DigitChar(d: int): (c: char)
    requires 0 <= d < 10
    ensures IsDigit(c) && DigitValue(c) == d
  {
    ('0' as int + d) as char
  }

  /** The ten digits, in order. */
  lemma DigitsInOrder(d: int, c: char)
    requires 0 <= d < 10
    ensures DigitChar(d) == "0123456789"[d] && DigitValue("0123456789"[d]) == d
    ensures IsDigit(c) <==> c in "0123456789"
  {
    if IsDigit(c) {
      assert "0123456789"[DigitValue(c)] == c;
    }
  }

  /** The number a string of digits stands for, most significant digit first. */
  function Value(text: string): int {
    if text == "" then 0 else 10 * Value(text[..|text| - 1]) + DigitValue(text[|text| - 1])
  }

  /** The canonical decimal numeral of `n`: digits only, the right value, no leading zero. */
  ghost predicate IsNumeral(text: string, n: int) {
    && text != "" && (forall c <- text :: IsDigit(c))
    && Value(text) == n
    && (text[0] == '0' ==> text == "0")
  }

  function Pow10(k: nat): (p: int)
    ensures p >= 1
  {
    if k == 0 then 1 else 10 * Pow10(k - 1)
  }

  lemma {:induction false} ValueCons(c: char, text: string)
    ensures Value([c] + text) == DigitValue(c) * Pow10(|text|) + Value(text)
  {
    if text == "" {
      assert [c] + text == [c];
      assert [c][..0] == "";
    } else {
      var n := |text| - 1;
      ValueCons(c, text[..n]);
      assert ([c] + text)[..n + 1] == [c] + text[..n];
    }
  }

  lemma {:induction false} ValueBounds(text: string)
    requires forall c <- text :: IsDigit(c)
    ensures 0 <= Value(text) < Pow10(|text|)
    ensures text != "" && text[0] != '0' ==> Value(text) >= Pow10(|text| - 1)
  {
    if text != "" {
      var n := |text| - 1;
      assert IsDigit(text[n]);
      ValueBounds(text[..n]);
    }
  }

  lemma {:induction false} Pow10Mono(a: nat, b: nat)
    requires a <= b
    ensures Pow10(a) <= Pow10(b)
  {
    if a < b {
      Pow10Mono(a, b - 1);
    }
  }

  lemma LastDigit(x: int, d: int, y: int, e: int)
    requires 0 <= d < 10 && 0 <= e < 10 && 10 * x + d == 10 * y + e
    ensures x == y && d == e
  {
  }

  lemma {:induction false} SameValueSameDigits(a: string, b: string)
    requires |a| == |b| && Value(a) == Value(b)
    requires (forall c <- a :: IsDigit(c)) && (forall c <- b :: IsDigit(c))
    ensures a == b
  {
    if a != "" {
      var n := |a| - 1;
      assert IsDigit(a[n]) && IsDigit(b[n]);
      LastDigit(Value(a[..n]), DigitValue(a[n]), Value(b[..n]), DigitValue(b[n]));
      SameValueSameDigits(a[..n], b[..n]);
      assert a == a[..n] + [a[n]] && b == b[..n] + [b[n]];
    }
  }

  /** A number has only one canonical numeral. */
  lemma NumeralUnique(a: string, b: string, n: int)
    requires IsNumeral(a, n) && IsNumeral(b, n)
    ensures a == b
  {
    ValueBounds(a);
    ValueBounds(b);
    if a[0] == '0' || b[0] == '0' {
      assert "0"[..0] == "";
      assert n == 0;
      assert Pow10(|a| - 1) >= 1 && Pow10(|b| - 1) >= 1;
    } else if |a| < |b| {
      Pow10Mono(|a|, |b| - 1);
    } else if |b| < |a| {
      Pow10Mono(|b|, |a| - 1);
    } else {
      SameValueSameDigits(a, b);
    }
  }

  // ---------- One step of long division ----------

  const TENTH := 1844674407370955161

  /** Dividing high * 2^64 + low by ten: the new limbs fit 64 bits and the digit is the rest. */
  lemma DivideByTen(high: int, low: int)
    requires 0 <= high < TWO_64 && 0 <= low < TWO_64
    ensures var highMod := high % 10;
            var carry := 6 * highMod + low % 10;
            var low' := low / 10 + highMod * TENTH + carry / 10;
            && 0 <= low' < TWO_64 && 0 <= carry < TWO_64
            && high * TWO_64 + low == 10 * (high / 10 * TWO_64 + low') + carry % 10
  {
  }

  lemma {:induction false} Pow10Add(a: nat, b: nat)
    ensures Pow10(a + b) == Pow10(a) * Pow10(b)
  {
    if b > 0 {
      Pow10Add(a, b - 1);
      assert Pow10(a + b) == 10 * Pow10(a + (b - 1));
    }
  }

  lemma {:induction false} LimbsFit(k: nat)
    ensures k >= 39 ==> Pow10(k) >= TWO_128
  {
    if k == 39 {
      assert Pow10(10) == 10000000000;
      Pow10Add(10, 10);
      Pow10Add(20, 10);
      assert Pow10(9) == 1000000000;
      Pow10Add(30, 9);
    } else if k > 39 {
      LimbsFit(k - 1);
    }
  }

  // ---------- The printers ----------

  /** `digits` are the last `k` digits of `v`, and `rest` is what is left above them. */
  ghost predicate Progress(v: int, rest: int, k: nat, digits: string) {
    && |digits| == k && (forall c <- digits :: IsDigit(c))
    && rest >= 0 && v == rest * Pow10(k) + Value(digits)
    && (rest == 0 ==> digits != "" && digits[0] != '0')
  }

  lemma AtLeastOnce(n: int, p: int)
    requires n >= 1 && p >= 0
    ensures n * p >= p
  {
    assert n * p == (n - 1) * p + p;
  }

  /** As long as something is left to print there is room in the buffer. */
  lemma RoomLeft(v: int, rest: int, k: nat, digits: string)
    requires v < TWO_128 && rest >= 1 && Progress(v, rest, k, digits)
    ensures k < 39
  {
    ValueBounds(digits);
    LimbsFit(k);
    AtLeastOnce(rest, Pow10(k));
  }

  lemma ProgressStep(v: int, rest: int, k: nat, digits: string, rest': int, d: int)
    requires rest >= 1 && Progress(v, rest, k, digits)
    requires rest == 10 * rest' + d && 0 <= d < 10
    ensures Progress(v, rest', k + 1, [DigitChar(d)] + digits)
  {
    ValueCons(DigitChar(d), digits);
    assert rest * Pow10(k) == (10 * rest' + d) * Pow10(k) == rest' * (10 * Pow10(k)) + d * Pow10(k);
  }

  /** When nothing is left the digits are the numeral. */
  lemma ProgressDone(v: int, k: nat, digits: string)
    requires Progress(v, 0, k, digits)
    ensures IsNumeral(digits, v)
  {
    assert 0 * Pow10(k) == 0;
  }

  /** One pass of the long division, in 64-bit words. */
  method DivideLimbs(high: int, low: int) returns (high': int, low': int, digit: int)
    requires 0 <= high < TWO_64 && 0 <= low < TWO_64
    ensures 0 <= high' < TWO_64 && 0 <= low' < TWO_64 && 0 <= digit < 10
    ensures high * TWO_64 + low == 10 * (high' * TWO_64 + low') + digit
  {
    DivideByTen(high, low);
    var highMod := high % 10;
    high' := high / 10;
    var carry := (6 * highMod + low % 10) % TWO_64;
    low' := (low / 10 + highMod * TENTH + carry / 10) % TWO_64;
    digit := carry % 10;
  }

  method PrintUint128(v: int) returns (text: string)
    requires 0 <= v < TWO_128
    ensures IsNumeral(text, v)
  {
    if v == 0 {
      assert "0"[..0] == "";
      return "0";
    }
    var buf := new char[40](_ => 'x');
    var p := 40;
    var high, low := v / TWO_64, v % TWO_64;
    ghost var rest := v;
    p := p - 1;
    buf[p] := '\0';
    while high != 0 || low != 0
      invariant 0 <= p <= 39 && buf[39] == '\0'
      invariant 0 <= high < TWO_64 && 0 <= low < TWO_64 && rest == high * TWO_64 + low
      invariant Progress(v, rest, 39 - p, buf[p..39])
      decreases rest
    {
      RoomLeft(v, rest, 39 - p, buf[p..39]);
      ghost var before, digits := rest, buf[p..39];
      var digit;
      high, low, digit := DivideLimbs(high, low);
      rest := high * TWO_64 + low;
      p := p - 1;
      buf[p] := DigitChar(digit);
      assert buf[p] == DigitChar(digit) && buf[p + 1..39] == digits;
      assert buf[p..39] == [buf[p]] + buf[p + 1..39];
      ProgressStep(v, before, 38 - p, digits, rest, digit);
    }
    text := buf[p..39];
    ProgressDone(v, 39 - p, text);
  }

  const INT128_MAX := TWO_64 / 2 * TWO_64 - 1

  const INT128_MIN := -(TWO_64 / 2 * TWO_64)

  /** Negating the unsigned image of a negative number gives its magnitude, the most
      negative one included. */
  lemma Magnitude(v: int)
    requires INT128_MIN <= v <= INT128_MAX
    ensures v >= 0 ==> v % TWO_128 == v
    ensures v < 0 ==> v % TWO_128 == v + TWO_128 && (-(v % TWO_128)) % TWO_128 == -v
  {
    if v < 0 {
      assert (v + TWO_128) % TWO_128 == v % TWO_128;
      assert -(v + TWO_128) == -v - TWO_128;
    }
  }

  method PrintInt128(v: int) returns (text: string)
    requires INT128_MIN <= v <= INT128_MAX
    ensures v >= 0 ==> IsNumeral(text, v)
    ensures v < 0 ==> text != "" && text[0] == '-' && IsNumeral(text[1..], -v)
  {
    Magnitude(v);
    var uv := v % TWO_128;
    if v < 0 {
      uv := (-uv) % TWO_128;
    }
    text := PrintUint128(uv);
    if v < 0 {
      ghost var digits := text;
      text := "-" + text;
      assert text[1..] == digits;
    }
  }
}
