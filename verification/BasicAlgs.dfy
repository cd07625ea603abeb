/**
 * basic_algs/src/main.rs: the minimum of a fixed-size array, the n-th prime
 * (0-indexed) found with a trial-division primality test, and a binary-search
 * lower bound.
 */
module BasicAlgs {
  import opened Common

  /** Length of the fixed-size arrays the program works on (`const N`). */
  const N: nat := 10

  /** Smallest element of a 10-element array, starting from `i32::MAX`. */
  method Minimum(numbers: array<i32>) returns (min: i32)
    requires numbers.Length == N
    ensures forall k :: 0 <= k < numbers.Length ==> min <= numbers[k]
    ensures exists k :: 0 <= k < numbers.Length && min == numbers[k]
  {
    min := I32_MAX;
    for idx := 0 to numbers.Length
      invariant forall k :: 0 <= k < idx ==> min <= numbers[k]
      invariant min == I32_MAX || exists k :: 0 <= k < idx && min == numbers[k]
    {
      if numbers[idx] < min {
        min := numbers[idx];
      }
    }
    if min == I32_MAX {
      // every element is an i32, hence at most i32::MAX: the first one is the minimum
      assert min == numbers[0];
    }
  }

  // ---------------------------------------------------------------------------
  // Divisibility and primes

  /** `d` is a positive divisor of `n`. */
  predicate Divides(d: int, n: int) {
    d > 0 && n % d == 0
  }

  /** What the loop of `is_prime` decides: no divisor `d >= 2` with `d * d <= n`. */
  ghost predicate NoSmallDivisor(n: int) {
    forall d :: 2 <= d && d * d <= n ==> !Divides(d, n)
  }

  /** The textbook notion: at least 2 and no divisor strictly between 1 and itself. */
  ghost predicate IsPrimeNumber(p: int) {
    p >= 2 && forall d :: 2 <= d < p ==> !Divides(d, p)
  }

  lemma MulDivides(d: int, k: int)
    requires d > 0
    ensures Divides(d, d * k)
  {
    ModUnique(d * k, d, k, 0);
  }

  lemma DividesTransitive(e: int, d: int, n: int)
    requires Divides(e, d) && Divides(d, n)
    ensures Divides(e, n)
  {
    var a, b := d / e, n / d;
    ModUnique(d, e, a, 0);
    assert d == e * a;
    assert n == d * b;
    assert n == e * (a * b);
    MulDivides(e, a * b);
  }

  lemma DividesMultiple(d: int, x: int, k: int)
    requires Divides(d, x)
    ensures Divides(d, k * x)
  {
    var q := x / d;
    assert x == d * q;
    assert k * x == d * (k * q);
    MulDivides(d, k * q);
  }

  lemma MulMonotone(a: int, b: int)
    requires 0 <= a <= b
    ensures a * a <= a * b <= b * b
  {
  }

  /** A divisor `d` of `n` with `d * d > n` has a co-divisor `e` with `e * e < n`. */
  lemma CoDivisor(n: int, d: int) returns (e: int)
    requires 2 <= d < n && Divides(d, n) && d * d > n
    ensures 2 <= e && e * e <= n && Divides(e, n)
  {
    e := n / d;
    ModUnique(n, d, e, 0);
    assert n == d * e;
    MulSign(d, e - 1);
    assert d * (e - 1) == n - d;
    if e >= d {
      MulMonotone(d, e);
    }
    MulMonotone(e, d);
    MulDivides(e, d);
    assert e * d == n;
  }

  /** For `n >= 2`, the square-root bounded test of `is_prime` decides primality. */
  lemma SmallDivisorSuffices(n: int)
    requires n >= 2
    ensures NoSmallDivisor(n) <==> IsPrimeNumber(n)
  {
    if IsPrimeNumber(n) {
      forall d | 2 <= d && d * d <= n
        ensures !Divides(d, n)
      {
        MulMonotone(2, d);
      }
    }
    if NoSmallDivisor(n) && !IsPrimeNumber(n) {
      var d :| 2 <= d < n && Divides(d, n);
      if d * d > n {
        var e := CoDivisor(n, d);
      }
    }
  }

  /** `is_prime`: trial division while `i * i <= n`; true for every `n < 4`. */
  method IsPrime(n: int) returns (r: bool)
    ensures r <==> NoSmallDivisor(n)
    ensures n >= 2 ==> (r <==> IsPrimeNumber(n))
    ensures n < 4 ==> r
  {
    var i := 2;
    while i * i <= n
      invariant 2 <= i
      invariant forall d :: 2 <= d < i ==> !Divides(d, n)
      decreases n - i
    {
      assert i < i * i;
      if n % i == 0 {
        assert Divides(i, n);
        if n >= 2 { SmallDivisorSuffices(n); }
        return false;
      }
      i := i + 1;
    }
    forall d | 2 <= d && d * d <= n
      ensures !Divides(d, n)
    {
      if d >= i {
        MulMonotone(i, d);
      }
    }
    if n >= 2 { SmallDivisorSuffices(n); }
    return true;
  }

  // ---------------------------------------------------------------------------
  // Euclid: there is always a larger prime (this is why nth_prime terminates)

  function Fact(m: nat): (f: nat)
    ensures f >= 1
  {
    if m == 0 then 1 else m * Fact(m - 1)
  }

  lemma {:induction false} FactDivisible(m: nat, d: int)
    requires 1 <= d <= m
    ensures Divides(d, Fact(m))
  {
    if d == m {
      MulDivides(m, Fact(m - 1));
    } else {
      FactDivisible(m - 1, d);
      DividesMultiple(d, Fact(m - 1), m);
    }
  }

  /** The least divisor of `n` that is at least `k`. */
  function LeastDivisorFrom(n: int, k: int): (d: int)
    requires 2 <= k <= n
    ensures k <= d <= n && Divides(d, n)
    ensures forall e :: k <= e < d ==> !Divides(e, n)
    decreases n - k
  {
    assert n == n * 1;
    MulDivides(n, 1);
    if Divides(k, n) then k else LeastDivisorFrom(n, k + 1)
  }

  lemma LeastDivisorIsPrime(n: int)
    requires n >= 2
    ensures IsPrimeNumber(LeastDivisorFrom(n, 2))
  {
    var p := LeastDivisorFrom(n, 2);
    forall e | 2 <= e < p
      ensures !Divides(e, p)
    {
      if Divides(e, p) {
        DividesTransitive(e, p, n);
      }
    }
  }

  /** For every bound there is a prime beyond it (Euclid's argument on `m! + 1`). */
  lemma PrimeAbove(m: nat) returns (p: int)
    ensures IsPrimeNumber(p) && p > m
  {
    var f := Fact(m) + 1;
    p := LeastDivisorFrom(f, 2);
    LeastDivisorIsPrime(f);
    if p <= m {
      FactDivisible(m, p);
      var q := Fact(m) / p;
      assert Fact(m) == p * q;
      ModUnique(f, p, q, 1);
      assert false;
    }
  }

  // ---------------------------------------------------------------------------
  // nth_prime

  /** Number of primes below `m`. */
  ghost function PrimeCount(m: nat): nat
  {
    if m <= 2 then 0 else PrimeCount(m - 1) + (if IsPrimeNumber(m - 1) then 1 else 0)
  }

  lemma {:induction false} PrimeCountMonotone(a: nat, b: nat)
    requires a <= b
    ensures PrimeCount(a) <= PrimeCount(b)
    decreases b - a
  {
    if a < b {
      PrimeCountMonotone(a, b - 1);
    }
  }

  /** Passing a prime increases the count of smaller primes. */
  lemma PrimeCountStrict(p: nat, q: nat)
    requires IsPrimeNumber(p) && p < q
    ensures PrimeCount(p) < PrimeCount(q)
  {
    PrimeCountMonotone(p + 1, q);
  }

  /**
   * The n-th prime is determined by its index: two primes with the same
   * number of smaller primes are equal.
   */
  lemma PrimeCountInjective(p: int, q: int)
    requires IsPrimeNumber(p) && IsPrimeNumber(q)
    requires PrimeCount(p) == PrimeCount(q)
    ensures p == q
  {
    var lo, hi := if p < q then p else q, if p < q then q else p;
    if lo < hi {
      PrimeCountStrict(lo, hi);
    }
  }

  /** Primes are 0-indexed: the prime with no smaller prime is 2. */
  lemma FirstPrimeIsTwo(p: int)
    requires IsPrimeNumber(p) && PrimeCount(p) == 0
    ensures p == 2
  {
    PrimeCountInjective(p, 2);
  }

  /**
   * `nth_prime`: walks `i = 2, 3, ...`, counting down `n` at each prime;
   * the result is the prime with exactly `n` smaller primes.
   */
  method NthPrime(n: nat) returns (p: int)
    ensures IsPrimeNumber(p)
    ensures PrimeCount(p) == n
  {
    var i := 2;
    var k: nat := n;
    ghost var bound := 2;
    while true
      invariant 2 <= i <= bound && IsPrimeNumber(bound)
      invariant k <= n && PrimeCount(i) == n - k
      decreases k, bound - i
    {
      var isPrime := IsPrime(i);
      if isPrime {
        if k == 0 {
          return i;
        }
        k := k - 1;
        bound := PrimeAbove(i + 1);
      }
      i := i + 1;
    }
  }

  // ---------------------------------------------------------------------------
  // lower_bound

  ghost predicate Sorted(s: seq<int>) {
    forall j, k :: 0 <= j < k < |s| ==> s[j] <= s[k]
  }

  /**
   * `lower_bound`: the index of the first element `>= value`, or `N` if there
   * is none. The window `[i, i + len)` always holds the answer.
   */
  method LowerBound(value: i32, numbers: array<i32>) returns (r: nat)
    requires numbers.Length == N
    ensures r <= N
    ensures Sorted(numbers[..]) ==> forall k :: 0 <= k < r ==> numbers[k] < value
    ensures Sorted(numbers[..]) ==> forall k :: r <= k < N ==> value <= numbers[k]
  {
    var i: nat, len: nat := 0, N;
    while len > 0
      invariant i + len <= N
      invariant Sorted(numbers[..]) ==> forall k :: 0 <= k < i ==> numbers[k] < value
      invariant Sorted(numbers[..]) ==> forall k :: i + len <= k < N ==> value <= numbers[k]
      decreases len
    {
      var step := len / 2;
      var mid := i + step;
      if numbers[mid] < value {
        i := mid + 1;
        len := len - (step + 1);
      } else {
        len := step;
      }
    }
    r := i;
  }
}
