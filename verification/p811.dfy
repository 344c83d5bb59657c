/** The recurrences of Project Euler 811: the 2-adic part `b`, `A` and `H`. */
module Problem811 {
  import opened Results
  import opened PyInt

  // b: the largest power of two dividing n

  lemma TwoAdicDouble(n: int, h: int, s: int, q: int)
    requires n == 2 * h && s >= 1 && IsPowerOfTwo(s) && h == s * q && q % 2 == 1
    ensures IsPowerOfTwo(2 * s) && Divides(2 * s, n) && (n / (2 * s)) % 2 == 1
  {
    assert n == (2 * s) * q by {
      DoubleProduct(s, q);
    }
    DivModUnique(n, 2 * s, q, 0);
    assert IsPowerOfTwo(2 * s) by {
      assert (2 * s) / 2 == s;
    }
  }

  lemma MoveFactorTwo(a: int, b: int)
    ensures a * (2 * b) == (a * 2) * b
  {
  }

  lemma ExactQuotient(h: int, s: int)
    requires s >= 1 && Divides(s, h)
    ensures h == s * (h / s)
  {
  }

  lemma DoubleProduct(s: int, q: int)
    ensures 2 * (s * q) == (2 * s) * q
  {
  }

  /**
   * The power of two `b(n)` returns. Python's `%` and `//` by 2 agree with
   * Dafny's, also for negative n. For n == 0 the program's loop never ends,
   * so 0 is excluded.
   */
  function TwoAdic(n: int): (r: int)
    requires n != 0
    ensures 1 <= r <= Abs(n)
    decreases Abs(n)
  {
    if n % 2 != 0 then 1 else 2 * TwoAdic(n / 2)
  }

  /** `b(n)` is a power of two that divides n, and n divided by it is odd. */
  lemma {:induction false} TwoAdicIsTwoAdic(n: int)
    requires n != 0
    ensures IsPowerOfTwo(TwoAdic(n)) && Divides(TwoAdic(n), n) && (n / TwoAdic(n)) % 2 == 1
    decreases Abs(n)
  {
    if n % 2 == 0 {
      var h := n / 2;
      var s := TwoAdic(h);
      TwoAdicIsTwoAdic(h);
      ExactQuotient(h, s);
      TwoAdicDouble(n, h, s, h / s);
    }
  }

  /** `b(n)`: halve n and double the divisor while n is even. */
  method B(n: int) returns (divisor: int)
    requires n != 0
    ensures divisor == TwoAdic(n)
    ensures IsPowerOfTwo(divisor) && Divides(divisor, n) && (n / divisor) % 2 == 1
  {
    var m := n;
    divisor := 1;
    while m % 2 == 0
      invariant m != 0 && divisor >= 1
      invariant TwoAdic(n) == divisor * TwoAdic(m)
      decreases Abs(m)
    {
      TwoAdicHalving(m, divisor);
      m := m / 2;
      divisor := divisor * 2;
    }
    TwoAdicHalving(m, divisor);
    TwoAdicIsTwoAdic(n);
  }

  /** One turn of the loop in `b`: halving an even m moves a factor 2 into the divisor. */
  lemma TwoAdicHalving(m: int, divisor: int)
    requires m != 0
    ensures m % 2 == 0 ==> divisor * TwoAdic(m) == (divisor * 2) * TwoAdic(m / 2)
    ensures m % 2 != 0 ==> divisor * TwoAdic(m) == divisor
  {
    if m % 2 == 0 {
      var t := TwoAdic(m / 2);
      assert TwoAdic(m) == 2 * t;
      MoveFactorTwo(divisor, t);
    }
  }

  lemma EvenDivisor(r: int, n: int)
    ensures r % 2 == 0 && Divides(r, n) ==> n % 2 == 0
  {
    if r % 2 == 0 && Divides(r, n) {
      var k := r / 2;
      var q := n / r;
      assert n == r * q;
      assert n == 2 * (k * q);
      DivModUnique(n, 2, k * q, 0);
    }
  }

  /** `b(n)` is the only power of two that divides n with an odd quotient. */
  lemma {:induction false} TwoAdicUnique(n: int, r: int)
    requires n != 0 && IsPowerOfTwo(r) && Divides(r, n) && (n / r) % 2 == 1
    ensures r == TwoAdic(n)
    decreases Abs(n)
  {
    EvenDivisor(r, n);
    if n % 2 == 0 {
      assert r != 1;
      var s, h, q := r / 2, n / 2, n / r;
      assert n == r * q;
      assert r == 2 * s;
      assert h == s * q;
      DivModUnique(h, s, q, 0);
      TwoAdicUnique(h, s);
    }
  }

  /** The powers of two are their own 2-adic part. */
  lemma {:induction false} TwoAdicOfPower(k: nat)
    ensures Pow(2, k) >= 1
    ensures TwoAdic(Pow(2, k)) == Pow(2, k)
  {
    PowPositive(2, k);
    if k > 0 {
      PowPositive(2, k - 1);
      TwoAdicOfPower(k - 1);
      assert Pow(2, k) / 2 == Pow(2, k - 1);
    }
  }

  // A and H

  /**
   * `A(n, mod)`. For even n the program reduces `3*A(q) + 5*A(n - b(q))` with
   * Python's `%`, which raises for a zero modulus; A(0) is 1, not reduced.
   * Negative n recurses forever in the program and is excluded.
   */
  function A(n: nat, m: int): (r: Result<int>)
    ensures r.Err? ==> m == 0 && r.error == DivisionByZero
    decreases n
  {
    if n == 0 then Ok(1)
    else if n % 2 == 0 then
      var q := n / 2;
      var b := TwoAdic(q);
      var x :- A(q, m);
      var y :- A(n - b, m);
      if m == 0 then Err(DivisionByZero) else Ok(FloorMod(3 * x + 5 * y, m))
    else A(n / 2, m)
  }

  /** Both recursive arguments of an even n = 2q are smaller than n: q <= 2q - b(q) < 2q. */
  lemma ArgumentsShrink(q: int)
    requires q >= 1
    ensures q <= 2 * q - TwoAdic(q) < 2 * q
  {
  }

  /** The recurrences of A, as the program states them. */
  lemma ARecurrence(q: nat, m: int)
    ensures A(0, m) == Ok(1)
    ensures A(2 * q + 1, m) == A(q, m)
    ensures q >= 1 && m != 0 ==>
      A(2 * q, m) == Ok(FloorMod(3 * A(q, m).value + 5 * A(2 * q - TwoAdic(q), m).value, m))
  {
    AOddStep(q, m);
    if q >= 1 && m != 0 {
      AEvenStep(q, m);
    }
  }

  lemma AOddStep(q: nat, m: int)
    ensures A(2 * q + 1, m) == A(q, m)
  {
    var n := 2 * q + 1;
    assert n % 2 == 1 && n / 2 == q;
  }

  lemma AEvenStep(q: nat, m: int)
    requires q >= 1 && m != 0
    ensures 2 * q - TwoAdic(q) >= 0
    ensures A(2 * q, m) == Ok(FloorMod(3 * A(q, m).value + 5 * A(2 * q - TwoAdic(q), m).value, m))
  {
    var n := 2 * q;
    assert n % 2 == 0 && n / 2 == q && n != 0;
    var x, y := A(q, m), A(n - TwoAdic(q), m);
    assert x.Ok? && y.Ok?;
    assert A(n, m) == Ok(FloorMod(3 * x.value + 5 * y.value, m));
  }

  /** For a modulus above 1, every value is reduced. */
  lemma {:induction false} ARange(n: nat, m: int)
    ensures m > 1 ==> A(n, m).Ok? && 0 <= A(n, m).value < m
    decreases n
  {
    if m > 1 && n > 0 && n % 2 == 1 {
      ARange(n / 2, m);
    }
  }

  /** With modulus 0 the program fails exactly when it meets an even n >= 2, i.e. unless n + 1 is a power of two. */
  lemma {:induction false} AWithoutModulus(n: nat)
    ensures A(n, 0).Ok? <==> IsPowerOfTwo(n + 1)
    ensures A(n, 0).Ok? ==> A(n, 0).value == 1
    decreases n
  {
    if n > 0 && n % 2 == 1 {
      AWithoutModulus(n / 2);
      assert (n + 1) / 2 == n / 2 + 1;
    }
  }

  /** A is 1 on every number whose binary digits are all ones. */
  lemma {:induction false} AAllOnes(k: nat, m: int)
    ensures Pow(2, k) >= 1
    ensures A(Pow(2, k) - 1, m) == Ok(1)
  {
    PowPositive(2, k);
    if k > 0 {
      PowPositive(2, k - 1);
      AAllOnes(k - 1, m);
      assert (Pow(2, k) - 1) / 2 == Pow(2, k - 1) - 1;
    }
  }

  /** On powers of two, A is a power of 8: A(2^t) = 8^t mod m. */
  lemma {:induction false} APowerOfTwo(t: nat, m: int)
    requires t >= 1 && m >= 1
    ensures Pow(2, t) >= 2
    ensures A(Pow(2, t), m) == Ok(Pow(8, t) % m)
  {
    if t == 1 {
      AOfTwo(m);
    } else {
      APowerOfTwo(t - 1, m);
      APowerStep(t, m);
    }
  }

  lemma AOfTwo(m: int)
    requires m >= 1
    ensures Pow(2, 1) == 2
    ensures A(Pow(2, 1), m) == Ok(Pow(8, 1) % m)
  {
    assert A(1, m) == A(0, m);
    assert TwoAdic(1) == 1;
    AEvenSameHalves(1, m, 1);
    EightTimes(m, 1);
  }

  lemma APowerStep(t: nat, m: int)
    requires t >= 2 && m >= 1
    requires Pow(2, t - 1) >= 1 && A(Pow(2, t - 1), m) == Ok(Pow(8, t - 1) % m)
    ensures Pow(2, t) >= 2
    ensures A(Pow(2, t), m) == Ok(Pow(8, t) % m)
  {
    var q, v := Pow(2, t - 1), Pow(8, t - 1);
    assert Pow(2, t) == 2 * q;
    assert Pow(8, t) == v * 8;
    TwoAdicOfPower(t - 1);
    AEvenSameHalves(q, m, v % m);
    EightTimes(m, v % m);
    MulModLeft(v, 8, m);
  }

  /** When both recursive calls of A(2q) give x, A(2q) is 3x + 5x reduced. */
  lemma AEvenSameHalves(q: nat, m: int, x: int)
    requires q >= 1 && m >= 1 && A(q, m) == Ok(x) && A(2 * q - TwoAdic(q), m) == Ok(x)
    ensures A(2 * q, m) == Ok(FloorMod(3 * x + 5 * x, m))
  {
    AEvenStep(q, m);
  }

  lemma EightTimes(m: int, x: int)
    requires m >= 1
    ensures FloorMod(3 * x + 5 * x, m) == (x * 8) % m
  {
    FloorModPositive(3 * x + 5 * x, m);
  }

  /** `H(r, t, mod) = A((2^r + 1)^t, mod)`; negative r or t give floats in the program. */
  function H(r: nat, t: nat, m: int): (h: Result<int>)
    ensures h.Err? ==> m == 0
    ensures m > 1 ==> h.Ok? && 0 <= h.value < m
  {
    PowPositive(2, r);
    PowPositive(Pow(2, r) + 1, t);
    var n := Pow(Pow(2, r) + 1, t);
    ARange(n, m);
    A(n, m)
  }

  /** H at t = 0 is A(1) = 1, and at r = 0 it is A(2^t) = 8^t mod m. */
  lemma HExamples(r: nat, t: nat, m: int)
    ensures H(r, 0, m) == Ok(1)
    ensures t >= 1 && m >= 1 ==> H(0, t, m) == Ok(Pow(8, t) % m)
  {
    assert A(1, m) == A(0, m);
    if t >= 1 && m >= 1 {
      APowerOfTwo(t, m);
    }
  }
}
