/** The prime samples of Google Test: trial division, odd divisors, a sieve and a hybrid. */
module PrimeTables {

  ghost predicate Divides(d: int, n: int)
    requires d > 0
  {
    n % d == 0
  }

  ghost predicate Prime(n: int) {
    2 <= n && forall d | 2 <= d < n :: !Divides(d, n)
  }

  // ---------- Divisibility ----------

  lemma MulMono(a: int, b: int, c: int)
    requires c >= 0
    ensures a <= b ==> a * c <= b * c
  {
    if a <= b {
      assert b * c - a * c == (b - a) * c;
    }
  }

  lemma ModUnique(n: int, d: int, q: int, r: int)
    requires d > 0 && 0 <= r < d && n == q * d + r
    ensures n % d == r && n / d == q
  {
    var q', r' := n / d, n % d;
    assert n == q' * d + r';
    MulMono(q + 1, q', d);
    MulMono(q' + 1, q, d);
    assert (q + 1) * d == q * d + d && (q' + 1) * d == q' * d + d;
  }

  lemma DividesTimes(d: int, k: int)
    requires d > 0
    ensures Divides(d, d * k)
  {
    assert d * k == k * d + 0;
    ModUnique(d * k, d, k, 0);
  }

  lemma DividesTrans(a: int, b: int, n: int)
    requires a > 0 && b > 0 && Divides(a, b) && Divides(b, n)
    ensures Divides(a, n)
  {
    var x, y := b / a, n / b;
    assert b == a * x && n == b * y;
    assert n == a * (x * y);
    DividesTimes(a, x * y);
  }

  lemma DividesNext(d: int, n: int)
    requires d > 0
    ensures Divides(d, n + d) <==> Divides(d, n)
  {
    var q, r := n / d, n % d;
    assert n + d == (q + 1) * d + r;
    ModUnique(n + d, d, q + 1, r);
  }

  lemma SquareMono(a: int, b: int)
    requires 0 <= a <= b
    ensures a * a <= b * b
  {
    MulMono(a, b, a);
    MulMono(a, b, b);
  }

  /** A proper divisor comes with one that is not above the square root. */
  lemma SmallDivisor(n: int, d: int) returns (e: int)
    requires 2 <= d < n && Divides(d, n)
    ensures 2 <= e < n && Divides(e, n) && e * e <= n && e <= d
  {
    var q := n / d;
    assert n == q * d;
    MulMono(q, 1, d);
    MulMono(d, q, d);
    MulMono(q, d, q);
    MulMono(2, d, q);
    DividesTimes(q, d);
    e := if d <= q then d else q;
  }

  /** Divisors up to the square root decide primality. */
  lemma PrimeByRoot(n: int, i: int)
    requires 2 <= n && 2 <= i && i * i > n
    ensures Prime(n) <==> forall d | 2 <= d < i && d < n :: !Divides(d, n)
  {
    if !Prime(n) {
      var d :| 2 <= d < n && Divides(d, n);
      var e := SmallDivisor(n, d);
      if e >= i {
        SquareMono(i, e);
      }
    }
  }

  // ---------- Euclid ----------

  ghost function Factorial(n: nat): (f: nat)
    ensures f >= 1
  {
    if n == 0 then 1 else n * Factorial(n - 1)
  }

  lemma {:induction false} DividesFactorial(d: nat, n: nat)
    requires 1 <= d <= n
    ensures Divides(d, Factorial(n))
  {
    if d == n {
      DividesTimes(d, Factorial(n - 1));
    } else {
      DividesFactorial(d, n - 1);
      DividesTimes(Factorial(n - 1), n);
      DividesTrans(d, Factorial(n - 1), Factorial(n));
    }
  }

  lemma {:induction false} PrimeDivisor(n: int) returns (p: int)
    requires 2 <= n
    ensures Prime(p) && Divides(p, n) && p <= n
    decreases n
  {
    if Prime(n) {
      p := n;
    } else {
      var d :| 2 <= d < n && Divides(d, n);
      p := PrimeDivisor(d);
      DividesTrans(p, d, n);
    }
  }

  /** There is a prime above every number. */
  lemma Euclid(n: nat) returns (p: int)
    ensures p > n && Prime(p)
  {
    var f := Factorial(n);
    p := PrimeDivisor(f + 1);
    if p <= n {
      DividesFactorial(p, n);
      assert f == (f / p) * p;
      ModUnique(f + 1, p, f / p, 1);
    }
  }

  /** `q` is the least prime above `p`. */
  ghost predicate IsNextPrime(p: int, q: int) {
    p < q && Prime(q) && forall m | p < m < q :: !Prime(m)
  }

  // ---------- On the fly ----------

  class OnTheFlyPrimeTable {
    constructor () {}

    method IsPrime(n: int) returns (b: bool)
      ensures b <==> Prime(n)
    {
      if n <= 1 {
        return false;
      }
      var i := 2;
      while i * i <= n
        invariant 2 <= i
        invariant forall d | 2 <= d < i && d < n :: !Divides(d, n)
        decreases n - i
      {
        assert i < n by { MulMono(2, i, i); }
        if n % i == 0 {
          assert Divides(i, n);
          return false;
        }
        i := i + 1;
        assert i <= n;
      }
      PrimeByRoot(n, i);
      return true;
    }

    /** Searches upwards without a bound; that it ends is Euclid's theorem. */
    method GetNextPrime(p: int) returns (q: int)
      ensures p < 0 ==> q == -1
      ensures p >= 0 ==> IsNextPrime(p, q)
    {
      if p < 0 {
        return -1;
      }
      ghost var bound := Euclid(p);
      q := p + 1;
      while true
        invariant p < q <= bound
        invariant forall m | p < m < q :: !Prime(m)
        decreases bound - q
      {
        var prime := IsPrime(q);
        if prime {
          return;
        }
        q := q + 1;
      }
    }
  }

  // ---------- Odd divisors only ----------

  lemma EvenDivisor(d: int, n: int)
    requires d > 0 && Divides(d, n) && n % 2 == 1
    ensures d % 2 == 1
  {
    if d % 2 == 0 {
      assert Divides(2, d);
      DividesTrans(2, d, n);
    }
  }

  lemma QuotientIsRoot(n: int, i: int)
    requires n >= 0 && i > 0
    ensures i > n / i <==> i * i > n
  {
    var q := n / i;
    assert n == q * i + n % i;
    assert (q + 1) * i == q * i + i;
    MulMono(q + 1, i, i);
    MulMono(i, q, i);
  }

  method IsPrimeOddDivisors(n: int) returns (b: bool)
    ensures b <==> Prime(n)
  {
    if n <= 1 {
      return false;
    }
    if n % 2 == 0 {
      assert Divides(2, n);
      return n == 2;
    }
    var i := 3;
    while true
      invariant 3 <= i && i % 2 == 1
      invariant forall d | 2 <= d < i && d < n :: !Divides(d, n)
      decreases n - i
    {
      QuotientIsRoot(n, i);
      if i > n / i {
        break;
      }
      assert i < n by { MulMono(3, i, i); }
      if n % i == 0 {
        assert Divides(i, n);
        return false;
      }
      forall d | 2 <= d < i + 2 && d < n ensures !Divides(d, n) {
        if d == i + 1 && Divides(d, n) {
          EvenDivisor(d, n);
        }
      }
      i := i + 2;
      assert i <= n + 1;
    }
    PrimeByRoot(n, i);
    return true;
  }

  // ---------- The sieve ----------

  /** `j` is a multiple, from the square on, of some number below `i`. */
  ghost predicate Marked(j: int, i: int) {
    exists d | 2 <= d < i :: Divides(d, j) && d * d <= j
  }

  /** A composite number below `i` marks nothing that a smaller one does not mark. */
  lemma CompositeMarksNothingNew(j: int, i: int)
    requires 2 <= i && !Prime(i) && Divides(i, j) && i * i <= j
    ensures Marked(j, i)
  {
    var d :| 2 <= d < i && Divides(d, i);
    DividesTrans(d, i, j);
    SquareMono(d, i);
  }

  /** Past the square root the marks are exactly the composite numbers. */
  lemma MarkedIffComposite(j: int, i: int)
    requires 2 <= j && 2 <= i && i * i > j
    ensures Marked(j, i) <==> !Prime(j)
  {
    if d :| 2 <= d < i && Divides(d, j) && d * d <= j {
      MulMono(2, d, d);
    }
    if !Prime(j) {
      var d :| 2 <= d < j && Divides(d, j);
      var e := SmallDivisor(j, d);
      if e >= i {
        SquareMono(i, e);
      }
    }
  }

  /** A number up to its own square root bound is marked iff it is composite. */
  lemma MarkedSelf(i: int)
    requires 2 <= i
    ensures Marked(i, i) <==> !Prime(i)
  {
    MulMono(2, i, i);
    MarkedIffComposite(i, i);
  }

  /** Stepping from `i` to the next candidate adds the multiples of `i` when it is prime. */
  lemma MarkedStep(j: int, i: int)
    requires 2 <= i && (i == 2 || i % 2 == 1)
    ensures Marked(j, i + i % 2 + 1) <==> Marked(j, i) || (Prime(i) && Divides(i, j) && i * i <= j)
  {
    var next := i + i % 2 + 1;
    if d :| 2 <= d < next && Divides(d, j) && d * d <= j {
      if d == i && !Prime(i) {
        CompositeMarksNothingNew(j, i);
      } else if d == i + 1 {
        assert Divides(2, d);
        DividesTrans(2, d, j);
        SquareMono(2, d);
      }
    }
  }

  lemma NotBetweenMultiples(i: int, j: int, k: int)
    requires 0 < i && Divides(i, j) && j < k < j + i
    ensures !Divides(i, k)
  {
    ModUnique(k, i, j / i, k - j);
  }

  class PreCalculatedPrimeTable {
    const isPrime: array<bool>

    ghost predicate Valid()
      reads this, isPrime
    {
      forall j | 0 <= j < isPrime.Length :: isPrime[j] <==> Prime(j)
    }

    constructor (max: int)
      requires max >= 1
      ensures Valid() && isPrime.Length == max + 1 && fresh(isPrime)
    {
      isPrime := new bool[max + 1];
      new;
      CalculatePrimesUpTo(max);
    }

    /** Fills the table: the even candidates after 2 are skipped, marking starts at the square. */
    method CalculatePrimesUpTo(max: int)
      requires max >= 1 && isPrime.Length == max + 1
      modifies isPrime
      ensures Valid()
    {
      for j := 0 to isPrime.Length
        invariant forall k | 0 <= k < j :: isPrime[k]
      {
        isPrime[j] := true;
      }
      isPrime[0], isPrime[1] := false, false;
      var i := 2;
      while i * i <= max
        invariant 2 <= i && (i == 2 || i % 2 == 1)
        invariant Sieved(i)
        decreases max - i
      {
        MulMono(2, i, i);
        SieveOut(i, max);
        i := i + i % 2 + 1;
      }
      forall j | 0 <= j <= max ensures isPrime[j] <==> Prime(j) {
        if 2 <= j {
          MarkedIffComposite(j, i);
        }
      }
    }

    /** The table leaves out what the candidates below `i` have marked. */
    ghost predicate Sieved(i: int)
      reads this, isPrime
    {
      forall j | 0 <= j < isPrime.Length :: isPrime[j] <==> 2 <= j && !Marked(j, i)
    }

    /** One candidate of the sieve. */
    method SieveOut(i: int, max: int)
      requires isPrime.Length == max + 1 && 2 <= i <= max && (i == 2 || i % 2 == 1)
      requires Sieved(i)
      modifies isPrime
      ensures Sieved(i + i % 2 + 1)
    {
      MarkedSelf(i);
      if isPrime[i] {
        MarkMultiples(i, max);
      }
      forall j | 0 <= j <= max
        ensures Marked(j, i + i % 2 + 1) <==> Marked(j, i) || (Prime(i) && Divides(i, j) && i * i <= j)
      {
        MarkedStep(j, i);
      }
    }

    /** Unmarks the multiples of `i` from its square on. */
    method MarkMultiples(i: int, max: int)
      requires 2 <= i && isPrime.Length == max + 1
      modifies isPrime
      ensures forall j | 0 <= j <= max :: isPrime[j] <==> old(isPrime[j]) && !(Divides(i, j) && i * i <= j)
    {
      var j := i * i;
      DividesTimes(i, i);
      while j <= max
        invariant i * i <= j && Divides(i, j)
        invariant forall k | 0 <= k <= max ::
                    isPrime[k] <==> old(isPrime[k]) && !(Divides(i, k) && i * i <= k < j)
        decreases max - j
      {
        forall k | j < k < j + i ensures !Divides(i, k) {
          NotBetweenMultiples(i, j, k);
        }
        isPrime[j] := false;
        DividesNext(i, j);
        j := j + i;
      }
    }

    predicate IsPrime(n: int)
      reads this, isPrime
    {
      0 <= n < isPrime.Length && isPrime[n]
    }

    /** The least prime above `p` that the table holds, or -1. */
    method GetNextPrime(p: int) returns (q: int)
      requires Valid() && p >= -1
      ensures q == -1 ==> forall m | p < m < isPrime.Length :: !Prime(m)
      ensures q != -1 ==> q < isPrime.Length && IsNextPrime(p, q)
    {
      var n := p + 1;
      while n < isPrime.Length
        invariant p < n
        invariant forall m | p < m < n && m < isPrime.Length :: !Prime(m)
      {
        if isPrime[n] {
          return n;
        }
        n := n + 1;
      }
      return -1;
    }
  }

  // ---------- The hybrid ----------

  lemma TwoIsFirst()
    ensures Prime(2) && forall n | n < 2 :: !Prime(n)
  {
  }

  class HybridPrimeTable {
    const onTheFly: OnTheFlyPrimeTable
    const precalc: PreCalculatedPrimeTable?
    const maxPrecalculated: int

    ghost predicate Valid()
      reads this, precalc, if precalc == null then {} else {precalc.isPrime}
    {
      precalc != null ==> precalc.Valid() && precalc.isPrime.Length == maxPrecalculated + 1
    }

    constructor (forceOnTheFly: bool, maxPrecalculated: int)
      requires forceOnTheFly || maxPrecalculated >= 1
      ensures Valid() && this.maxPrecalculated == maxPrecalculated && (precalc == null <==> forceOnTheFly)
    {
      this.maxPrecalculated := maxPrecalculated;
      onTheFly := new OnTheFlyPrimeTable();
      if forceOnTheFly {
        precalc := null;
      } else {
        precalc := new PreCalculatedPrimeTable(maxPrecalculated);
      }
    }

    method IsPrime(n: int) returns (b: bool)
      requires Valid()
      ensures b <==> Prime(n)
    {
      if precalc != null && n < maxPrecalculated {
        b := precalc.IsPrime(n);
      } else {
        b := onTheFly.IsPrime(n);
      }
    }

    /** Below -1 a precalculated table would be read before its first entry. Of a negative number
        only the precalculated table has a next prime. */
    method GetNextPrime(p: int) returns (q: int)
      requires Valid() && (p >= -1 || precalc == null)
      ensures p >= 0 ==> IsNextPrime(p, q)
      ensures p < 0 ==> q == if precalc != null && maxPrecalculated >= 2 then 2 else -1
    {
      TwoIsFirst();
      var nextPrime := -1;
      if precalc != null && p < maxPrecalculated {
        nextPrime := precalc.GetNextPrime(p);
      }
      if nextPrime != -1 {
        q := nextPrime;
      } else {
        q := onTheFly.GetNextPrime(p);
      }
    }
  }
}
