/** `primes(n)` of modular.py: a sieve over the odd numbers below n, with 2
    prepended to the result. */
module Sieve {
  import opened PyInt

  predicate IsPrime(x: int)
  {
    x >= 2 && forall d :: 2 <= d < x ==> !Divides(d, x)
  }

  /** j has an odd factor d with 3 <= d < bound and d * d <= j: the sieve has
      crossed j out once its loop index has passed such a factor. */
  predicate CrossedOut(j: int, bound: int)
  {
    exists d :: 3 <= d < bound && d % 2 == 1 && d * d <= j && Divides(d, j)
  }

  /** `len(range(start, stop, step))` for a positive step. */
  function RangeLength(start: int, stop: int, step: int): nat
    requires step >= 1
    decreases stop - start
  {
    if start >= stop then 0 else 1 + RangeLength(start + step, stop, step)
  }

  /** `[False] * k`, whose length is k, or 0 when k is negative. */
  function RepeatLength(k: int): nat
  {
    if k < 0 then 0 else k
  }

  /** The list `[False] * ((n - start - 1) // step + 1)` assigned to the extended
      slice `sieve[start::step]` of a list of length n has exactly as many
      elements as the slice, so the assignment never raises. */
  lemma {:induction false} SliceAssignmentFits(start: int, n: int, step: int)
    requires step >= 1
    ensures RangeLength(start, n, step) == RepeatLength(FloorDiv(n - start - 1, step) + 1)
    decreases n - start
  {
    var x := n - start - 1;
    FloorModPositive(x, step);
    DivSign(x, step);
    if start < n {
      SliceAssignmentFits(start + step, n, step);
      FloorModPositive(x - step, step);
      DivShift(x, step);
    }
  }

  /** Euclidean division by a positive number keeps the sign. */
  lemma DivSign(x: int, step: int)
    requires step >= 1
    ensures x >= 0 ==> x / step >= 0
    ensures x < 0 ==> x / step < 0
  {
    var q := x / step;
    assert x == step * q + x % step;
    MulSign(step, q);
  }

  lemma MulSign(a: int, b: int)
    ensures a >= 0 && b >= 0 ==> a * b >= 0
    ensures a >= 1 && b <= -1 ==> a * b <= -a
  {
    if a >= 1 && b <= -1 {
      MulAtLeast(a, -b);
      assert a * b == -(a * (-b));
    }
  }

  /** Taking one step off the dividend takes one off the quotient. */
  lemma DivShift(x: int, step: int)
    requires step >= 1
    ensures (x - step) / step == x / step - 1
  {
    assert x == step * (x / step) + x % step;
    DivModUnique(x - step, step, x / step - 1, x % step);
  }

  /** An odd number's square is odd, and the number divides it. */
  lemma OddSquare(i: int)
    requires i >= 1 && i % 2 == 1
    ensures (i * i) % 2 == 1 && Divides(i, i * i)
  {
    var h := i / 2;
    assert i == 2 * h + 1;
    assert i * i == 2 * (2 * h * h + 2 * h) + 1;
    DivModUnique(i * i, 2, 2 * h * h + 2 * h, 1);
    DividesMultiple(i, i, i * i);
  }

  /** Between an odd multiple k of the odd number i and k + 2i the only
      multiple of i is k + i, which is even: no odd multiple is skipped. */
  lemma OddMultipleGap(i: int, k: int)
    requires i >= 1 && i % 2 == 1 && k % 2 == 1 && Divides(i, k)
    ensures (k + i) % 2 == 0
    ensures forall j :: k < j < k + 2 * i && Divides(i, j) ==> j == k + i
  {
    var b := k / i;
    assert k == i * b;
    DivModUnique(k + i, 2, k / 2 + i / 2 + 1, 0);
    forall j | k < j < k + 2 * i
      ensures Divides(i, j) ==> j == k + i
    {
      var t := j - k;
      assert j == i * b + t;
      ModShift(t, b, i);
      if t < i {
        DivModUnique(t, i, 0, t);
      } else if t > i {
        DivModUnique(t, i, 1, t - i);
      }
    }
  }

  /** One more odd loop index i adds the multiples of i from i * i on. */
  lemma CrossedOutStep(j: int, i: int)
    requires i >= 3 && i % 2 == 1
    ensures CrossedOut(j, i + 2) <==> CrossedOut(j, i) || (i * i <= j && Divides(i, j))
  {
    if CrossedOut(j, i + 2) && !CrossedOut(j, i) {
      var d :| 3 <= d < i + 2 && d % 2 == 1 && d * d <= j && Divides(d, j);
      assert d == i;
    }
    if i * i <= j && Divides(i, j) {
      assert 3 <= i < i + 2 && i % 2 == 1;
    }
  }

  /** Divisibility is transitive. */
  lemma DividesTransitive(d: int, i: int, j: int)
    requires d > 0 && Divides(d, i) && Divides(i, j)
    ensures Divides(d, j)
  {
    var a, b := i / d, j / i;
    assert i == d * a && j == i * b;
    assert j == d * (a * b);
    DividesMultiple(d, a * b, j);
  }

  /** A crossed-out index adds nothing new: its own factor already crossed out
      every multiple of it. */
  lemma CompositeIndex(i: int, j: int)
    requires i >= 3 && CrossedOut(i, i) && i * i <= j && Divides(i, j)
    ensures CrossedOut(j, i)
  {
    var d :| 3 <= d < i && d % 2 == 1 && d * d <= i && Divides(d, i);
    DividesTransitive(d, i, j);
    MulAtLeast(i, i);
    assert d * d <= j;
    assert 3 <= d < i && d % 2 == 1 && Divides(d, j);
  }

  /** Every possible factor lies below the last loop index. */
  lemma FactorsBelowStop(j: int, n: int, i: int)
    requires 3 <= j < n && i >= FloorDiv(n, 2) + 1
    ensures CrossedOut(j, i) <==> CrossedOut(j, j + 1)
  {
    FloorModPositive(n, 2);
    if CrossedOut(j, j + 1) {
      var d :| 3 <= d < j + 1 && d % 2 == 1 && d * d <= j && Divides(d, j);
      MulMonotone(d, 3, d);
      assert 2 * d < n;
      assert d < i;
    }
    if CrossedOut(j, i) {
      var d :| 3 <= d < i && d % 2 == 1 && d * d <= j && Divides(d, j);
      MulMonotone(d, 1, d);
      assert d < j + 1;
    }
  }

  /** An odd number of at least 3 is prime exactly when it has no odd factor d
      >= 3 with d * d <= j. */
  lemma PrimeIffNotCrossedOut(j: int)
    requires j >= 3 && j % 2 == 1
    ensures IsPrime(j) <==> !CrossedOut(j, j + 1)
  {
    if CrossedOut(j, j + 1) {
      var d :| 3 <= d < j + 1 && d % 2 == 1 && d * d <= j && Divides(d, j);
      assert d < d * d;
      assert 2 <= d < j && Divides(d, j);
    }
    if !IsPrime(j) {
      var d :| 2 <= d < j && Divides(d, j);
      SmallOddFactor(j, d);
    }
  }

  /** A proper factor d of the odd number j yields a factor m of j with
      m * m <= j, which is odd and at least 3. */
  lemma SmallOddFactor(j: int, d: int)
    requires j >= 3 && j % 2 == 1 && 2 <= d < j && Divides(d, j)
    ensures CrossedOut(j, j + 1)
  {
    var c := j / d;
    assert j == d * c;
    MulSign(d, c);
    MulAtMost(d, c);
    assert c >= 2;
    var m := if d <= c then d else c;
    var o := if d <= c then c else d;
    assert j == m * o;
    MulMonotone(m, m, o);
    DividesMultiple(m, o, j);
    EvenFactor(m, o);
    assert 3 <= m < j + 1 && m % 2 == 1 && m * m <= j && Divides(m, j);
  }

  lemma MulAtMost(d: int, c: int)
    ensures d >= 0 && c <= 1 ==> d * c <= d
  {
    if d >= 0 && c <= 1 {
      assert d * c == d - d * (1 - c);
      MulSign(d, 1 - c);
    }
  }

  lemma MulMonotone(m: int, a: int, b: int)
    requires m >= 0 && a <= b
    ensures m * a <= m * b
  {
    assert m * b == m * a + m * (b - a);
    MulSign(m, b - a);
  }

  /** A product with an even factor is even. */
  lemma EvenFactor(m: int, o: int)
    ensures m % 2 == 0 ==> (m * o) % 2 == 0
  {
    if m % 2 == 0 {
      var h := m / 2;
      assert m * o == 2 * (h * o);
      DivModUnique(m * o, 2, h * o, 0);
    }
  }

  /** Even numbers above 2 are not prime. */
  lemma EvenNotPrime(x: int)
    requires x >= 4 && x % 2 == 0
    ensures !IsPrime(x)
  {
    assert Divides(2, x);
  }

  /** `primes(n)`: the primes below n in ascending order, behind a leading 2
      that is there even when n <= 2. */
  method Primes(n: int) returns (r: seq<int>)
    ensures forall x :: x in r <==> x == 2 || (x < n && IsPrime(x))
    ensures forall a, b :: 0 <= a < b < |r| ==> r[a] < r[b]
  {
    var size := if n > 0 then n else 0;
    var sieve := new bool[size](_ => true);
    var stop := FloorDiv(n, 2) + 1;
    FloorModPositive(n, 2);
    var i := 3;
    while i < stop
      invariant i >= 3 && i % 2 == 1
      invariant forall j :: 3 <= j < size && j % 2 == 1 ==> (!sieve[j] <==> CrossedOut(j, i))
    {
      assert i < size;
      if sieve[i] {
        CrossOutMultiples(sieve, i);
      } else {
        forall j | 3 <= j < size && j % 2 == 1
          ensures !sieve[j] <==> CrossedOut(j, i + 2)
        {
          CrossedOutStep(j, i);
          if i * i <= j && Divides(i, j) {
            CompositeIndex(i, j);
          }
        }
      }
      i := i + 2;
    }
    forall j | 3 <= j < size && j % 2 == 1
      ensures sieve[j] <==> IsPrime(j)
    {
      FactorsBelowStop(j, n, i);
      PrimeIffNotCrossedOut(j);
    }
    r := [2];
    var j := 3;
    while j < n
      invariant j >= 3 && j % 2 == 1
      invariant forall x :: x in r <==> x == 2 || (3 <= x < j && x < n && x % 2 == 1 && IsPrime(x))
      invariant forall a, b :: 0 <= a < b < |r| ==> r[a] < r[b]
      invariant forall a :: 0 <= a < |r| ==> r[a] < j
    {
      if sieve[j] {
        r := r + [j];
      }
      j := j + 2;
    }
    forall x | x < n && IsPrime(x) && x != 2
      ensures 3 <= x && x % 2 == 1
    {
      if x % 2 == 0 {
        EvenNotPrime(x);
      }
    }
  }

  /** The slice assignment `sieve[i*i::2*i] = [False] * ...` for a loop index
      i that is still marked: every odd multiple of i from i * i on is crossed
      out, and nothing else changes. */
  method CrossOutMultiples(sieve: array<bool>, i: int)
    requires i >= 3 && i % 2 == 1 && i < sieve.Length
    requires forall j :: 3 <= j < sieve.Length && j % 2 == 1 ==> (!sieve[j] <==> CrossedOut(j, i))
    modifies sieve
    ensures forall j :: 3 <= j < sieve.Length && j % 2 == 1 ==> (!sieve[j] <==> CrossedOut(j, i + 2))
  {
    OddSquare(i);
    var k := i * i;
    while k < sieve.Length
      invariant i * i <= k && k % 2 == 1 && Divides(i, k)
      invariant forall j :: 3 <= j < sieve.Length && j % 2 == 1 ==> (!sieve[j] <==> Marked(j, i, k))
      decreases sieve.Length - k
    {
      MarkedStep(i, k);
      sieve[k] := false;
      k := k + 2 * i;
    }
    forall j | 3 <= j < sieve.Length && j % 2 == 1
      ensures !sieve[j] <==> CrossedOut(j, i + 2)
    {
      CrossedOutStep(j, i);
    }
  }

  /** Crossed out before index i, or an odd multiple of i in [i * i, k). */
  predicate Marked(j: int, i: int, k: int)
  {
    CrossedOut(j, i) || (i * i <= j < k && Divides(i, j))
  }

  /** Crossing out k and moving on to the next odd multiple k + 2i. */
  lemma MarkedStep(i: int, k: int)
    requires i >= 3 && i % 2 == 1 && i * i <= k && k % 2 == 1 && Divides(i, k)
    ensures (k + 2 * i) % 2 == 1 && Divides(i, k + 2 * i)
    ensures forall j :: j % 2 == 1 ==> (Marked(j, i, k + 2 * i) <==> Marked(j, i, k) || j == k)
  {
    OddMultipleGap(i, k);
    DividesMultiple(i, k / i + 2, k + 2 * i);
    DivModUnique(k + 2 * i, 2, k / 2 + i, 1);
    forall j | j % 2 == 1
      ensures Marked(j, i, k + 2 * i) <==> Marked(j, i, k) || j == k
    {
      // the one multiple of i strictly between k and k + 2i is k + i, which is even
      assert k < j < k + 2 * i && Divides(i, j) ==> j == k + i;
      assert j != k + i;
    }
  }
}
