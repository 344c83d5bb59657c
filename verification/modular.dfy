/** The residue classes of modular.py: `Modular(n)` builds a subclass of `int`
    whose instances always hold a value reduced into [0, n), and whose
    arithmetic reduces every result again. Also `powmod` and `_phi`. */
module Modular {
  import opened Results
  import opened PyInt

  /** An instance of the class `Modular(modulus)`, holding the int `value`. */
  datatype Residue = Residue(modulus: int, value: int)

  /** What every constructed instance satisfies. */
  predicate Canonical(x: Residue)
  {
    x.modulus >= 1 && 0 <= x.value < x.modulus
  }

  predicate Congruent(a: int, b: int, n: int)
    requires n >= 1
  {
    a % n == b % n
  }

  /** The argument of a constructor call: a plain int, or an instance of some
      `Modular` class (which is also an int). */
  datatype Arg = Plain(n: int) | Instance(r: Residue)

  function IntValue(a: Arg): int
  {
    match a
    case Plain(v) => v
    case Instance(x) => x.value
  }

  /** `Modular(n)(a)`: an instance of the same class is returned unchanged;
      anything else, including an instance of another modulus, is reduced. */
  function New(n: int, a: Arg): (r: Residue)
    requires n >= 1
    requires a.Instance? ==> Canonical(a.r)
    ensures Canonical(r) && r.modulus == n
    ensures Congruent(r.value, IntValue(a), n)
    ensures a.Instance? && a.r.modulus == n ==> r == a.r
  {
    if a.Instance? && a.r.modulus == n then a.r else Residue(n, IntValue(a) % n)
  }

  /** Two ints give the same instance exactly when they are congruent. */
  lemma NewCongruent(n: int, v: int, w: int)
    requires n >= 1
    ensures New(n, Plain(v)) == New(n, Plain(w)) <==> Congruent(v, w, n)
  {
  }

  /** Wrapping an instance again changes nothing. */
  lemma NewIdempotent(n: int, a: Arg)
    requires n >= 1
    requires a.Instance? ==> Canonical(a.r)
    ensures New(n, Instance(New(n, a))) == New(n, a)
  {
  }

  /** `type(self)(v)`: the instance of x's class for the int v. */
  function Reduce(x: Residue, v: int): (r: Residue)
    requires x.modulus >= 1
    ensures Canonical(r) && r.modulus == x.modulus
    ensures Congruent(r.value, v, x.modulus)
  {
    New(x.modulus, Plain(v))
  }

  /** `self + other` and `other + self`; `other` is any int, including the
      value of an instance of another modulus. */
  function Add(x: Residue, other: int): (r: Residue)
    requires x.modulus >= 1
    ensures Canonical(r) && r.modulus == x.modulus
    ensures Congruent(r.value, x.value + other, x.modulus)
  {
    Reduce(x, x.value + other)
  }

  /** `self * other` and `other * self`. */
  function Mul(x: Residue, other: int): (r: Residue)
    requires x.modulus >= 1
    ensures Canonical(r) && r.modulus == x.modulus
    ensures Congruent(r.value, x.value * other, x.modulus)
  {
    Reduce(x, x.value * other)
  }

  /** `-self`. */
  function Neg(x: Residue): (r: Residue)
    requires x.modulus >= 1
    ensures Canonical(r) && r.modulus == x.modulus
    ensures Congruent(r.value, -x.value, x.modulus)
  {
    Reduce(x, -x.value)
  }

  /** `self - other`. */
  function Sub(x: Residue, other: int): (r: Residue)
    requires x.modulus >= 1
    ensures Canonical(r) && r.modulus == x.modulus
    ensures Congruent(r.value, x.value - other, x.modulus)
  {
    Reduce(x, x.value - other)
  }

  /** `other - self`. */
  function RSub(x: Residue, other: int): (r: Residue)
    requires x.modulus >= 1
    ensures Canonical(r) && r.modulus == x.modulus
    ensures Congruent(r.value, other - x.value, x.modulus)
  {
    Reduce(x, other - x.value)
  }

  /** `self ** exp`, through three-argument `pow(self, exp, n)`, whose result
      is already in [0, n) before it is wrapped. A negative exponent takes the
      inverse, and raises when the value has none. */
  function Power(x: Residue, exp: int): (r: Result<Residue>)
    requires Canonical(x)
    ensures r.Ok? ==> Canonical(r.value) && r.value.modulus == x.modulus
    ensures exp >= 0 ==> r.Ok? && Congruent(r.value.value, Pow(x.value, exp), x.modulus)
    ensures exp < 0 && x.modulus > 1 ==> (r.Ok? <==> Invertible(x.value, x.modulus))
    ensures exp < 0 && x.modulus > 1 && r.Ok? ==>
      (Pow(x.value, -exp) * r.value.value) % x.modulus == 1
    ensures r.Err? ==> r.error == NotInvertible
  {
    var p :- PowModulo(x.value, exp, x.modulus);
    DivModUnique(p, x.modulus, 0, p);
    var y := Reduce(x, p);
    assert y.value == p;
    Ok(y)
  }

  lemma ModOfMod(a: int, n: int)
    requires n >= 1
    ensures (a % n) % n == a % n
  {
  }

  /** `least_positive`: a congruent instance; since a constructed instance
      never holds a negative value, the shift is never taken and the instance
      itself comes back. */
  function LeastPositive(x: Residue): (r: Residue)
    requires x.modulus >= 1
    ensures Canonical(r) || r == x
    ensures r.modulus == x.modulus && Congruent(r.value, x.value, x.modulus)
    ensures Canonical(x) ==> r == x
  {
    ShiftedInstance(x);
    if x.value < 0 then Add(x, x.modulus) else x
  }

  /** Shifting by the modulus and reducing gives the canonical residue, which
      is the instance itself when it is canonical. */
  lemma ShiftedInstance(x: Residue)
    requires x.modulus >= 1
    ensures Add(x, x.modulus) == Residue(x.modulus, x.value % x.modulus)
    ensures Sub(x, x.modulus) == Residue(x.modulus, x.value % x.modulus)
    ensures Canonical(x) ==> x == Residue(x.modulus, x.value % x.modulus)
  {
    ShiftByModulus(x.value, x.modulus);
    if Canonical(x) {
      DivModUnique(x.value, x.modulus, 0, x.value);
    }
  }

  /** Adding or subtracting the modulus keeps the residue. */
  lemma ShiftByModulus(a: int, n: int)
    requires n >= 1
    ensures (a + n) % n == a % n && (a - n) % n == a % n
  {
    ModShift(a, 1, n);
    ModShift(a, -1, n);
  }

  /** `least_magnitude`: a congruent instance; the shifted value `self - n`
      goes back through the reducing subtraction, so a constructed instance
      comes back unchanged. */
  function LeastMagnitude(x: Residue): (r: Residue)
    requires x.modulus >= 1
    ensures r.modulus == x.modulus && Congruent(r.value, x.value, x.modulus)
    ensures Canonical(x) ==> r == x
  {
    var critical := FloorDiv(x.modulus, 2);
    FloorModPositive(x.modulus, 2);
    ShiftedInstance(x);
    if x.value > critical then Sub(x, x.modulus)
    else if x.value < -critical then Add(x, x.modulus)
    else x
  }

  /** `abs(self)`: the least-magnitude instance, negated when negative; for a
      constructed instance this is the instance itself. */
  function AbsValue(x: Residue): (r: Residue)
    requires x.modulus >= 1
    ensures r.modulus == x.modulus
    ensures Canonical(x) ==> r == x
  {
    var a := LeastMagnitude(x);
    if a.value < 0 then Neg(a) else a
  }

  /** The representative of least magnitude that the comment promises is not
      what comes back: 4 mod 5 stays 4 rather than -1. */
  lemma LeastMagnitudeKeepsLargeValue()
    ensures LeastMagnitude(Residue(5, 4)) == Residue(5, 4)
    ensures Congruent(-1, 4, 5) && Abs(-1) <= FloorDiv(5, 2) < 4
  {
  }

  /** `self == other`: `other` is wrapped into x's class, and the difference
      compared with 0. */
  function Eq(x: Residue, other: Arg): (r: bool)
    requires Canonical(x)
    requires other.Instance? ==> Canonical(other.r)
    ensures r <==> Congruent(x.value, IntValue(other), x.modulus)
  {
    var o := New(x.modulus, other);
    var d := Sub(x, o.value);
    DifferenceZero(x.value, o.value, x.modulus);
    d.value == 0
  }

  /** `self != other`. */
  function Ne(x: Residue, other: Arg): (r: bool)
    requires Canonical(x)
    requires other.Instance? ==> Canonical(other.r)
    ensures r <==> !Congruent(x.value, IntValue(other), x.modulus)
  {
    var o := New(x.modulus, other);
    var d := Sub(x, o.value);
    DifferenceZero(x.value, o.value, x.modulus);
    d.value != 0
  }

  /** A difference is a multiple of n exactly when the residues agree. */
  lemma DifferenceZero(a: int, b: int, n: int)
    requires n >= 1
    ensures (a - b) % n == 0 <==> a % n == b % n
  {
    var p, q := a / n, b / n;
    assert a == n * p + a % n && b == n * q + b % n;
    assert a - b == n * (p - q) + (a % n - b % n);
    if a % n == b % n {
      DivModUnique(a - b, n, p - q, 0);
    } else if a % n > b % n {
      DivModUnique(a - b, n, p - q, a % n - b % n);
    } else {
      DivModUnique(a - b, n, p - q - 1, n + a % n - b % n);
    }
  }

  /** `Modular(2)(3) == 1`. */
  lemma EqExample()
    ensures Eq(New(2, Plain(3)), Plain(1))
    ensures !Ne(New(2, Plain(3)), Plain(1))
  {
  }

  /** `powmod(base, exp, mod)`: `int(Modular(mod)(base) ** exp)`. Building
      the class raises for a modulus below 1 (a non-int modulus cannot arise
      here); modulo 1 everything is 0; otherwise a non-negative exponent gives
      the canonical residue of base^exp, and a negative one the residue that
      base^-exp inverts, or a ValueError when base has no inverse. */
  function PowMod(base: int, exp: int, mod: int): (r: Result<int>)
    ensures mod < 1 ==> r == Err(InvalidModulus)
    ensures r.Ok? ==> 0 <= r.value < mod
    ensures mod == 1 ==> r == Ok(0)
    ensures mod >= 1 && exp >= 0 ==> r.Ok? && Congruent(r.value, Pow(base, exp), mod)
    ensures mod > 1 && exp < 0 ==> (r.Ok? <==> Invertible(base, mod))
    ensures mod > 1 && exp < 0 && r.Ok? ==> (Pow(base, -exp) * r.value) % mod == 1
  {
    if mod < 1 then Err(InvalidModulus)
    else
      var x := New(mod, Plain(base));
      InverseOfReduced(base, mod);
      var p :- Power(x, exp);
      if exp >= 0 then
        PowCongruent(x.value, base, exp, mod);
        Ok(p.value)
      else if mod == 1 then
        Ok(p.value)
      else
        PowCongruent(x.value, base, -exp, mod);
        MulModLeft(Pow(x.value, -exp), p.value, mod);
        MulModLeft(Pow(base, -exp), p.value, mod);
        Ok(p.value)
  }

  /** `powmod(2, -1, 3)` is the inverse 2; modulo 4 the base 2 has no
      inverse; modulo 1 the answer is 0 whatever the exponent. */
  lemma PowModNegativeExample()
    ensures PowMod(2, -1, 3) == Ok(2)
    ensures PowMod(2, -1, 4) == Err(NotInvertible)
    ensures PowMod(2, -1, 1) == Ok(0)
    ensures PowMod(2, 3, 0) == Err(InvalidModulus)
  {
  }

  /** Invertibility modulo n depends only on the residue. */
  lemma InverseOfReduced(a: int, n: int)
    requires n >= 1
    ensures Invertible(a % n, n) <==> Invertible(a, n)
  {
    forall y | 0 <= y < n
      ensures IsInverse(a % n, y, n) <==> IsInverse(a, y, n)
    {
      MulModLeft(a, y, n);
    }
  }

  /** `_phi(p, exp)`: the totient of a prime power, `p^(exp-1) * (p-1)`,
      which is `p^exp - p^(exp-1)`. */
  function Phi(p: int, exp: int): (r: int)
    requires exp >= 1
    ensures r == Pow(p, exp) - Pow(p, exp - 1)
  {
    assert Pow(p, exp) == p * Pow(p, exp - 1);
    Pow(p, exp - 1) * (p - 1)
  }

  /** How many of 1..m are not multiples of p. */
  function NonMultiples(p: int, m: nat): (c: nat)
    requires p >= 1
    ensures c <= m
  {
    if m == 0 then 0 else NonMultiples(p, m - 1) + (if m % p != 0 then 1 else 0)
  }

  /** `_phi(p, k)` counts the integers in 1..p^k that p does not divide, which
      for a prime p are those coprime to p^k. */
  lemma PhiCountsNonMultiples(p: int, k: int)
    requires p >= 1 && k >= 1
    ensures Pow(p, k) >= 0
    ensures Phi(p, k) == NonMultiples(p, Pow(p, k))
  {
    PowPositive(p, k - 1);
    var m := Pow(p, k - 1);
    assert Pow(p, k) == p * m == m * p;
    NonMultiplesBlocks(p, m);
    assert Phi(p, k) == m * (p - 1);
  }

  /** Each block of p consecutive integers holds p - 1 non-multiples. */
  lemma {:induction false} NonMultiplesBlocks(p: int, m: nat)
    requires p >= 1
    ensures m * p >= 0
    ensures NonMultiples(p, m * p) == m * (p - 1)
  {
    if m > 0 {
      NonMultiplesBlocks(p, m - 1);
      var b := (m - 1) * p;
      assert m * p == b + p;
      assert m * (p - 1) == (m - 1) * (p - 1) + (p - 1);
      NonMultiplesInBlock(p, m - 1, p - 1);
      assert NonMultiples(p, b + p - 1) == (m - 1) * (p - 1) + (p - 1);
      assert (b + p) % p == 0 by {
        DivModUnique(b + p, p, m, 0);
      }
      assert NonMultiples(p, b + p) == NonMultiples(p, b + p - 1);
    }
  }

  /** Within one block, every position before the multiple is a non-multiple. */
  lemma {:induction false} NonMultiplesInBlock(p: int, m: nat, j: nat)
    requires p >= 1 && j < p
    requires NonMultiples(p, m * p) == m * (p - 1)
    ensures m * p + j >= 0
    ensures NonMultiples(p, m * p + j) == m * (p - 1) + j
  {
    if j > 0 {
      NonMultiplesInBlock(p, m, j - 1);
      assert (m * p + j) % p == j by {
        DivModUnique(m * p + j, p, m, j);
      }
    }
  }
}
