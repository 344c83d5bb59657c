/** Python's integer operators that differ from Dafny's, written out explicitly:
    floor division and modulo (Dafny's `/` and `%` are Euclidean), `math.gcd`,
    `**` with a non-negative exponent, and three-argument `pow`. */
module PyInt {
  import opened Results

  /** `a // d`: the quotient rounded toward negative infinity. */
  function FloorDiv(a: int, d: int): (q: int)
    requires d != 0
    ensures d > 0 ==> d * q <= a < d * q + d
    ensures d < 0 ==> d * q + d < a <= d * q
  {
    if d > 0 then a / d else (-a) / (-d)
  }

  /** `a % d`: the remainder that takes the sign of the divisor. */
  function FloorMod(a: int, d: int): (r: int)
    requires d != 0
    ensures a == d * FloorDiv(a, d) + r
    ensures d > 0 ==> 0 <= r < d
    ensures d < 0 ==> d < r <= 0
  {
    a - d * FloorDiv(a, d)
  }

  lemma FloorModPositive(a: int, d: int)
    requires d > 0
    ensures FloorMod(a, d) == a % d
    ensures FloorDiv(a, d) == a / d
  {
  }

  lemma FloorDivExample()
    ensures FloorDiv(-7, 2) == -4
    ensures FloorDiv(7, -2) == -4
    ensures FloorDiv(-2, -3) == 0
    ensures FloorMod(-7, 2) == 1
  {
  }

  function Abs(a: int): (r: nat)
    ensures r == a || r == -a
  {
    if a < 0 then -a else a
  }

  /** `b ** e` for a non-negative exponent. */
  function Pow(b: int, e: nat): int
  {
    if e == 0 then 1 else b * Pow(b, e - 1)
  }

  /** Positive bases have positive powers. */
  lemma {:induction false} PowPositive(p: int, k: nat)
    requires p >= 1
    ensures Pow(p, k) >= 1
  {
    if k > 0 {
      PowPositive(p, k - 1);
      MulAtLeast(p, Pow(p, k - 1));
    }
  }

  /** `d` divides `a` (for d != 0). */
  predicate Divides(d: int, a: int)
  {
    d != 0 && a % d == 0
  }

  /** Euclid's algorithm on non-negative numbers; gcd(0, 0) == 0 as in Python. */
  function GcdNat(a: nat, b: nat): (g: nat)
    ensures g == 0 <==> a == 0 && b == 0
    ensures g > 0 ==> Divides(g, a) && Divides(g, b)
    ensures forall c :: c > 0 && Divides(c, a) && Divides(c, b) ==> Divides(c, g)
    decreases b
  {
    if b == 0 then a
    else
      var g := GcdNat(b, a % b);
      EuclidStep(a, b, g);
      g
  }

  lemma EuclidStep(a: nat, b: nat, g: nat)
    requires b > 0
    requires g > 0 ==> Divides(g, b) && Divides(g, a % b)
    requires forall c :: c > 0 && Divides(c, b) && Divides(c, a % b) ==> Divides(c, g)
    ensures g > 0 ==> Divides(g, a)
    ensures forall c :: c > 0 && Divides(c, a) && Divides(c, b) ==> Divides(c, g)
  {
    if g > 0 {
      var k := b / g;
      var m := (a % b) / g;
      assert b == g * k;
      assert a % b == g * m;
      assert a == b * (a / b) + a % b;
      assert a == g * (k * (a / b) + m);
      DividesMultiple(g, k * (a / b) + m, a);
    }
    forall c | c > 0 && Divides(c, a) && Divides(c, b)
      ensures Divides(c, g)
    {
      var x := a / c;
      var y := b / c;
      assert a == c * x;
      assert b == c * y;
      assert a % b == a - b * (a / b);
      assert a % b == c * (x - y * (a / b));
      DividesMultiple(c, x - y * (a / b), a % b);
    }
  }

  lemma DividesMultiple(d: int, k: int, a: int)
    requires d > 0
    requires a == d * k
    ensures Divides(d, a)
  {
    DivModUnique(a, d, k, 0);
  }

  /** Euclidean quotient and remainder are unique. */
  lemma DivModUnique(a: int, n: int, q: int, r: int)
    requires n >= 1 && 0 <= r < n
    requires a == n * q + r
    ensures a / n == q && a % n == r
  {
    var q', r' := a / n, a % n;
    assert a == n * q' + r';
    assert n * (q - q') == r' - r;
    if q > q' {
      MulAtLeast(n, q - q');
      assert false;
    } else if q < q' {
      MulAtLeast(n, q' - q);
      assert false;
    }
  }

  lemma MulAtLeast(n: int, k: int)
    requires n >= 1 && k >= 1
    ensures n * k >= n
  {
    assert n * k == n * (k - 1) + n;
    assert n * (k - 1) >= 0;
  }

  /** `math.gcd(a, b)`: always non-negative. */
  function Gcd(a: int, b: int): (g: nat)
    ensures g == 0 <==> a == 0 && b == 0
    ensures g > 0 ==> Divides(g, a) && Divides(g, b)
    ensures forall c :: c > 0 && Divides(c, a) && Divides(c, b) ==> Divides(c, g)
  {
    var g := GcdNat(Abs(a), Abs(b));
    DividesNegation(g, a);
    DividesNegation(g, b);
    DividesAbs(a);
    DividesAbs(b);
    g
  }

  /** A divisor of a divides |a|. */
  lemma DividesAbs(a: int)
    ensures forall c :: c > 0 && Divides(c, a) ==> Divides(c, Abs(a))
  {
    forall c | c > 0 && Divides(c, a)
      ensures Divides(c, Abs(a))
    {
      if a < 0 {
        var k := a / c;
        assert a == c * k;
        DividesMultiple(c, -k, -a);
      }
    }
  }

  lemma DividesNegation(d: int, a: int)
    requires d > 0 ==> Divides(d, Abs(a))
    ensures d > 0 ==> Divides(d, a)
  {
    if d > 0 && a < 0 {
      var k := (-a) / d;
      assert -a == d * k;
      DividesMultiple(d, -k, a);
    }
  }

  predicate IsInverse(a: int, x: int, n: int)
    requires n >= 1
  {
    (a * x) % n == 1
  }

  /** a has an inverse modulo n. */
  ghost predicate Invertible(a: int, n: int)
    requires n >= 1
  {
    exists y :: 0 <= y < n && IsInverse(a, y, n)
  }

  /** The least x in [from, n) with a * x congruent to 1 modulo n, or the
      ValueError `pow` raises when there is none. */
  function Inverse(a: int, n: int, from: nat): (r: Result<int>)
    requires n >= 1 && from <= n
    ensures r.Ok? ==> from <= r.value < n && IsInverse(a, r.value, n)
    ensures r.Ok? ==> forall y :: from <= y < r.value ==> !IsInverse(a, y, n)
    ensures r.Err? <==> forall y :: from <= y < n ==> !IsInverse(a, y, n)
    ensures r.Err? ==> r.error == NotInvertible
    decreases n - from
  {
    if from == n then Err(NotInvertible)
    else if IsInverse(a, from, n) then Ok(from)
    else Inverse(a, n, from + 1)
  }

  /** Three-argument `pow(a, k, n)` for a modulus n >= 1 (Python 3.8 and
      later). Modulo 1 the result is 0. A non-negative k gives a^k reduced
      into [0, n). A negative k gives the residue that a^-k inverts, which
      exists exactly when a is invertible modulo n; otherwise it raises. */
  function PowModulo(a: int, k: int, n: int): (r: Result<int>)
    requires n >= 1
    ensures r.Ok? ==> 0 <= r.value < n
    ensures n == 1 ==> r == Ok(0)
    ensures k >= 0 ==> r.Ok? && r.value % n == Pow(a, k) % n
    ensures k < 0 && n > 1 ==> (r.Ok? <==> Invertible(a, n))
    ensures k < 0 && n > 1 && r.Ok? ==> (Pow(a, -k) * r.value) % n == 1
    ensures r.Err? ==> r.error == NotInvertible
  {
    if k >= 0 then
      ModOfMod(Pow(a, k), n);
      Ok(Pow(a, k) % n)
    else if n == 1 then Ok(0)
    else InversePowModulo(a, -k, n)
  }

  /** `pow(a, -m, n)` for n > 1: the m-th power of the least inverse. */
  function InversePowModulo(a: int, m: nat, n: int): (r: Result<int>)
    requires n > 1
    ensures r.Ok? ==> 0 <= r.value < n
    ensures r.Ok? <==> Invertible(a, n)
    ensures r.Ok? ==> (Pow(a, m) * r.value) % n == 1
    ensures r.Err? ==> r.error == NotInvertible
  {
    InverseFound(a, n);
    var inv :- Inverse(a, n, 0);
    InversePower(a, inv, m, n);
    Ok(Pow(inv, m) % n)
  }

  lemma ModOfMod(x: int, n: int)
    requires n >= 1
    ensures 0 <= x % n < n && (x % n) % n == x % n
  {
    DivModUnique(x % n, n, 0, x % n);
  }

  /** The search from 0 finds an inverse exactly when one exists. */
  lemma InverseFound(a: int, n: int)
    requires n >= 1
    ensures Inverse(a, n, 0).Ok? <==> Invertible(a, n)
  {
    if Invertible(a, n) {
      var y :| 0 <= y < n && IsInverse(a, y, n);
      assert !(forall z :: 0 <= z < n ==> !IsInverse(a, z, n));
    }
  }

  /** The power of an inverse, reduced, inverts the same power of a. */
  lemma InversePower(a: int, inv: int, m: nat, n: int)
    requires n > 1 && IsInverse(a, inv, n)
    ensures (Pow(a, m) * (Pow(inv, m) % n)) % n == 1
  {
    PowInverse(a, inv, m, n);
    MulModRight(Pow(a, m), Pow(inv, m), n);
  }

  /** A non-zero factor of a divides a, whatever the signs. */
  lemma FactorDivides(q: int, k: int, a: int)
    requires q != 0 && a == q * k
    ensures Divides(q, a)
  {
    var d, r := a / q, a % q;
    assert a == q * d + r;
    var t := k - d;
    assert q * t == r by {
      assert q * k - q * d == q * (k - d);
    }
    var m := if q > 0 then q else -q;
    var u := if q > 0 then t else -t;
    assert m * u == r;
    if u > 0 {
      MulAtLeast(m, u);
      assert false;
    } else if u < 0 {
      MulAtLeast(m, -u);
      assert false;
    }
  }

  /** Divisibility is transitive, whatever the signs. */
  lemma DividesChain(x: int, y: int, z: int)
    requires Divides(x, y) && Divides(y, z)
    ensures Divides(x, z)
  {
    var a, b := y / x, z / y;
    assert y == x * a && z == y * b;
    assert z == x * (a * b);
    FactorDivides(x, a * b, z);
  }

  /** Exact division by a positive divisor: `(a // d) * d == a`. */
  lemma ExactFloorDiv(a: int, d: int)
    requires d > 0 && Divides(d, a)
    ensures FloorDiv(a, d) * d == a
  {
  }

  /** Congruent bases have congruent powers. */
  lemma {:induction false} PowCongruent(a: int, b: int, e: nat, n: int)
    requires n >= 1
    requires a % n == b % n
    ensures Pow(a, e) % n == Pow(b, e) % n
  {
    if e > 0 {
      PowCongruent(a, b, e - 1, n);
      MulCongruent(a, Pow(a, e - 1), b, Pow(b, e - 1), n);
    }
  }

  lemma {:induction false} PowOfOne(k: nat)
    ensures Pow(1, k) == 1
  {
    if k > 0 {
      PowOfOne(k - 1);
    }
  }

  /** Powers distribute over a product. */
  lemma {:induction false} PowMul(a: int, b: int, k: nat)
    ensures Pow(a, k) * Pow(b, k) == Pow(a * b, k)
  {
    if k > 0 {
      PowMul(a, b, k - 1);
      MulRearrange(a, Pow(a, k - 1), b, Pow(b, k - 1));
    }
  }

  lemma MulRearrange(a: int, p: int, b: int, q: int)
    ensures (a * p) * (b * q) == (a * b) * (p * q)
  {
  }

  /** Reducing the second factor first does not change the product's residue. */
  lemma MulModRight(x: int, y: int, n: int)
    requires n >= 1
    ensures (x * (y % n)) % n == (x * y) % n
  {
    MulModLeft(y, x, n);
    assert x * y == y * x && x * (y % n) == (y % n) * x;
  }

  /** Powers of mutually inverse residues are mutually inverse. */
  lemma PowInverse(a: int, x: int, k: nat, n: int)
    requires n > 1 && (a * x) % n == 1
    ensures (Pow(a, k) * Pow(x, k)) % n == 1
  {
    PowMul(a, x, k);
    PowCongruent(a * x, 1, k, n);
    PowOfOne(k);
  }

  lemma MulCongruent(a: int, x: int, b: int, y: int, n: int)
    requires n >= 1
    requires a % n == b % n && x % n == y % n
    ensures (a * x) % n == (b * y) % n
  {
    MulModLeft(a, x, n);
    MulModLeft(x, a % n, n);
    MulModLeft(b, y, n);
    MulModLeft(y, b % n, n);
    assert a * x == x * a && (a % n) * x == x * (a % n);
    assert b * y == y * b && (b % n) * y == y * (b % n);
  }

  /** Reducing one factor first does not change the product's residue. */
  lemma MulModLeft(a: int, x: int, n: int)
    requires n >= 1
    ensures (a * x) % n == ((a % n) * x) % n
  {
    var p, u := a / n, a % n;
    assert a == n * p + u;
    assert a * x == n * (p * x) + u * x by {
      assert (n * p + u) * x == n * p * x + u * x;
    }
    ModShift(u * x, p * x, n);
  }

  /** Adding a multiple of n does not change the residue. */
  lemma ModShift(a: int, k: int, n: int)
    requires n >= 1
    ensures (n * k + a) % n == a % n
  {
    var q := a / n;
    assert a == n * q + a % n;
    assert n * k + a == n * (k + q) + a % n;
    DivModUnique(n * k + a, n, k + q, a % n);
  }

  predicate IsPowerOfTwo(x: int)
    decreases if x > 0 then x else 0
  {
    x == 1 || (x >= 2 && x % 2 == 0 && IsPowerOfTwo(x / 2))
  }

  /** A non-zero multiple of d is at least d in magnitude. */
  lemma DividesBound(d: int, a: int)
    requires d > 0 && a != 0 && Divides(d, a)
    ensures d <= Abs(a)
  {
    var k := a / d;
    assert a == d * k;
    if k > 0 {
      MulAtLeast(d, k);
    } else {
      MulAtLeast(d, -k);
      assert d * (-k) == -a;
    }
  }
}
