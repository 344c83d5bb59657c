/** Properties of evaluation, modular reduction and flattening of expression trees. */
module ExpressionFacts {
  import opened Results
  import opened PyInt
  import opened Expressions

  /** `a // b` evaluates exactly when both sides evaluate and the denominator is
      non-zero, and then it rounds toward negative infinity. */
  lemma EvalFloorDivision(l: Expr, r: Expr)
    ensures Eval(FloorDivision(l, r)).Ok?
        <==> Eval(l).Ok? && Eval(r).Ok? && Eval(r).value != 0
    ensures Eval(FloorDivision(l, r)).Ok? && Eval(r).value > 0 ==>
        var q, a, d := Eval(FloorDivision(l, r)).value, Eval(l).value, Eval(r).value;
        d * q <= a < d * q + d
    ensures Eval(FloorDivision(l, r)).Ok? && Eval(r).value < 0 ==>
        var q, a, d := Eval(FloorDivision(l, r)).value, Eval(l).value, Eval(r).value;
        d * q + d < a <= d * q
    ensures Eval(l).Ok? && Eval(r) == Ok(0) ==> Eval(FloorDivision(l, r)) == Err(DivisionByZero)
  {
  }

  lemma FloorDivisionExample()
    ensures Eval(FloorDivision(Literal(-7), Literal(2))) == Ok(-4)
    ensures Eval(FloorDivision(Literal(-7), Literal(0))) == Err(DivisionByZero)
  {
  }

  /** `a ** k` is an integer exactly when the exponent is non-negative. */
  lemma EvalPower(l: Expr, r: Expr)
    ensures Eval(Power(l, r)).Ok? <==> Eval(l).Ok? && Eval(r).Ok? && Eval(r).value >= 0
  {
  }

  /** `x % n` succeeds whenever `x.eval()` does, and on trees whose exponents
      are non-negative exactly when it does. A negative exponent is where the
      two part: `eval` leaves the integers, while `pow(a, -k, n)` takes a
      modular inverse. */
  lemma {:induction false} ModDefinedIffEvalDefined(e: Expr, n: int)
    requires n >= 1
    ensures Eval(e).Ok? ==> Mod(e, n).Ok?
    ensures IntegerPowers(e) ==> (Mod(e, n).Ok? <==> Eval(e).Ok?)
  {
    match e
    case Literal(_) =>
    case Negation(x) => ModDefinedIffEvalDefined(x, n);
    case Absolute(_) =>
    case Sum(l, r) =>
      ModDefinedIffEvalDefined(l, n);
      ModDefinedIffEvalDefined(r, n);
    case Product(l, r) =>
      ModDefinedIffEvalDefined(l, n);
      ModDefinedIffEvalDefined(r, n);
    case Power(l, r) =>
      ModDefinedIffEvalDefined(l, n);
    case FloorDivision(_, _) =>
  }

  /** 2 ** -1 has no integer value, yet `% 3` gives the inverse 2 of 2 modulo 3;
      modulo 4 there is no inverse and `pow` raises; modulo 1 every `pow` is 0,
      even where `eval` divides by zero. */
  lemma NegativeExponentMod()
    ensures Eval(Power(Literal(2), Literal(-1))) == Err(NegativeExponent)
    ensures Mod(Power(Literal(2), Literal(-1)), 3) == Ok(2)
    ensures Mod(Power(Literal(2), Literal(-1)), 4) == Err(NotInvertible)
    ensures Eval(Power(Literal(0), Literal(-1))) == Err(DivisionByZero)
    ensures Mod(Power(Literal(0), Literal(-1)), 1) == Ok(0)
  {
  }

  /** On a tree without Absolute nodes, `x % n` is congruent to `x.eval()` modulo n. */
  lemma {:induction false} ModCongruentToEval(e: Expr, n: int)
    requires n >= 1
    requires NoAbsolute(e) && Eval(e).Ok?
    ensures Mod(e, n).Ok?
    ensures Mod(e, n).value % n == Eval(e).value % n
  {
    match e
    case Literal(_) =>
    case Negation(x) =>
      ModCongruentToEval(x, n);
      NegCongruent(Mod(x, n).value, Eval(x).value, n);
    case Sum(l, r) =>
      ModCongruentToEval(l, n);
      ModCongruentToEval(r, n);
      AddCongruent(Mod(l, n).value, Eval(l).value, Mod(r, n).value, Eval(r).value, n);
      ModIdempotent(Mod(l, n).value + Mod(r, n).value, n);
    case Product(l, r) =>
      ModCongruentToEval(l, n);
      ModCongruentToEval(r, n);
      MulCongruent(Mod(l, n).value, Mod(r, n).value, Eval(l).value, Eval(r).value, n);
      ModIdempotent(Mod(l, n).value * Mod(r, n).value, n);
    case Power(l, r) =>
      ModCongruentToEval(l, n);
      PowCongruent(Mod(l, n).value, Eval(l).value, Eval(r).value, n);
      ModIdempotent(Pow(Mod(l, n).value, Eval(r).value), n);
    case FloorDivision(_, _) =>
      ModIdempotent(Eval(e).value, n);
  }

  lemma ModIdempotent(t: int, n: int)
    requires n >= 1
    ensures t % n % n == t % n
  {
    DivModUnique(t % n, n, 0, t % n);
  }

  lemma NegCongruent(a: int, b: int, n: int)
    requires n >= 1 && a % n == b % n
    ensures (-a) % n == (-b) % n
  {
    var p, q := a / n, b / n;
    assert a == n * p + a % n;
    assert b == n * q + b % n;
    ModShift(-(a % n), -p, n);
    ModShift(-(b % n), -q, n);
    assert -a == n * (-p) + -(a % n);
    assert -b == n * (-q) + -(b % n);
  }

  lemma AddCongruent(a: int, b: int, x: int, y: int, n: int)
    requires n >= 1 && a % n == b % n && x % n == y % n
    ensures (a + x) % n == (b + y) % n
  {
    AddMod(a, x, n);
    AddMod(b, y, n);
  }

  lemma AddMod(a: int, x: int, n: int)
    requires n >= 1
    ensures (a + x) % n == (a % n + x % n) % n
  {
    var p, r := a / n, x / n;
    assert a == n * p + a % n;
    assert x == n * r + x % n;
    assert a + x == n * (p + r) + (a % n + x % n);
    ModShift(a % n + x % n, p + r, n);
  }

  /** Absolute's `%` reduces the child's value, not its absolute value. */
  lemma AbsoluteModExample()
    ensures Mod(Absolute(Literal(-1)), 5) == Ok(4)
    ensures Eval(Absolute(Literal(-1))) == Ok(1)
  {
  }

  /** Evaluating a concatenation is evaluating each part, failing at the first failure. */
  lemma {:induction false} EvalAllAppend(xs: seq<Expr>, ys: seq<Expr>)
    ensures EvalAll(xs + ys).Ok? <==> EvalAll(xs).Ok? && EvalAll(ys).Ok?
    ensures EvalAll(xs + ys).Ok? ==> EvalAll(xs + ys).value == EvalAll(xs).value + EvalAll(ys).value
    ensures EvalAll(xs).Err? ==> EvalAll(xs + ys) == Err(EvalAll(xs).error)
    ensures EvalAll(xs).Ok? && EvalAll(ys).Err? ==> EvalAll(xs + ys) == Err(EvalAll(ys).error)
  {
    if |xs| > 0 {
      assert (xs + ys)[0] == xs[0];
      assert (xs + ys)[1..] == xs[1..] + ys;
      EvalAllAppend(xs[1..], ys);
    } else {
      assert xs + ys == ys;
    }
  }

  lemma {:induction false} SumIntsAppend(a: seq<int>, b: seq<int>)
    ensures SumInts(a + b) == SumInts(a) + SumInts(b)
  {
    if |a| > 0 {
      assert (a + b)[1..] == a[1..] + b;
      SumIntsAppend(a[1..], b);
    } else {
      assert a + b == b;
    }
  }

  lemma {:induction false} ProductIntsAppend(a: seq<int>, b: seq<int>)
    ensures ProductInts(a + b) == ProductInts(a) * ProductInts(b)
  {
    if |a| > 0 {
      assert (a + b)[1..] == a[1..] + b;
      ProductIntsAppend(a[1..], b);
      assert ProductInts(a + b) == a[0] * (ProductInts(a[1..]) * ProductInts(b));
    } else {
      assert a + b == b;
    }
  }

  /** Sum of the values for a Sum node, product for a Product node. */
  function Combine(e: Expr, vs: seq<int>): int
    requires e.Sum? || e.Product?
  {
    if e.Sum? then SumInts(vs) else ProductInts(vs)
  }

  /** The flattened operands of a Sum (Product) evaluate exactly when the node
      does, to values that add (multiply) up to its value, and fail with the
      same exception otherwise. */
  lemma {:induction false} OperandsPreserveValue(e: Expr)
    requires e.Sum? || e.Product?
    ensures EvalAll(Operands(e)).Ok? <==> Eval(e).Ok?
    ensures Eval(e).Ok? ==> Combine(e, EvalAll(Operands(e)).value) == Eval(e).value
    ensures Eval(e).Err? ==> EvalAll(Operands(e)).error == Eval(e).error
  {
    var L := if SameKind(e.left, e) then Operands(e.left) else [e.left];
    var R := if SameKind(e.right, e) then Operands(e.right) else [e.right];
    assert Operands(e) == L + R;
    FrontierValue(e, e.left);
    FrontierValue(e, e.right);
    EvalAllAppend(L, R);
    if EvalAll(L + R).Ok? {
      SumIntsAppend(EvalAll(L).value, EvalAll(R).value);
      ProductIntsAppend(EvalAll(L).value, EvalAll(R).value);
    }
  }

  /** One side of a node: flattened when of the same kind, a singleton otherwise. */
  lemma {:induction false} FrontierValue(e: Expr, c: Expr)
    requires e.Sum? || e.Product?
    requires c < e
    ensures var F := if SameKind(c, e) then Operands(c) else [c];
      && (EvalAll(F).Ok? <==> Eval(c).Ok?)
      && (Eval(c).Ok? ==> Combine(e, EvalAll(F).value) == Eval(c).value)
      && (Eval(c).Err? ==> EvalAll(F).error == Eval(c).error)
    decreases e, 0
  {
    if SameKind(c, e) {
      OperandsPreserveValue(c);
    } else {
      assert [c][1..] == [];
      assert EvalAll([c][1..]) == Ok([]);
      if Eval(c).Ok? {
        assert [c][0] == c;
        assert [Eval(c).value] + [] == [Eval(c).value];
        assert EvalAll([c]) == Ok([Eval(c).value]);
        assert SumInts([Eval(c).value]) == Eval(c).value + SumInts([]);
        assert ProductInts([Eval(c).value]) == Eval(c).value * ProductInts([]);
      }
    }
  }

  /** 2^k, the divisor of `b` after k doublings. */
  function TwoTo(k: nat): (d: int)
    ensures d >= 1 && IsPowerOfTwo(d)
  {
    if k == 0 then 1
    else
      var h := TwoTo(k - 1);
      assert (2 * h) % 2 == 0 && (2 * h) / 2 == h;
      2 * h
  }

  /** The loop of `b` stops at the divisor d: `e % d` raises or is non-zero. */
  predicate StopsAt(e: Expr, d: int)
    requires d >= 1
  {
    Mod(e, d).Err? || Mod(e, d).value != 0
  }

  /** `b` of expression.py: the divisor doubles from 1 while `e % divisor` is
      zero. The result is the first power of two whose `%` is non-zero, or the
      exception the first failing `%` raises. The ghost `bound` names a
      doubling at which the loop stops; without one the program never returns. */
  method B(e: Expr, ghost bound: nat) returns (r: Result<int>, ghost k: nat)
    requires StopsAt(e, TwoTo(bound))
    ensures k <= bound
    ensures forall j: nat :: j < k ==> Mod(e, TwoTo(j)) == Ok(0)
    ensures r.Ok? ==> k >= 1 && r.value == TwoTo(k) && Mod(e, r.value).Ok? && Mod(e, r.value).value != 0
    ensures r.Err? ==> Mod(e, TwoTo(k)) == Err(r.error)
    ensures r.Ok? ==> IsPowerOfTwo(r.value) && r.value >= 2 && Mod(e, r.value / 2) == Ok(0)
  {
    var divisor := 1;
    k := 0;
    while true
      invariant divisor == TwoTo(k) && k <= bound
      invariant forall j: nat :: j < k ==> Mod(e, TwoTo(j)) == Ok(0)
      decreases bound - k
    {
      var m := Mod(e, divisor);
      if m.Err? {
        return Err(m.error), k;
      }
      if m.value != 0 {
        assert k != 0;
        assert divisor / 2 == TwoTo(k - 1) && divisor >= 2;
        return Ok(divisor), k;
      }
      divisor := divisor * 2;
      k := k + 1;
    }
  }

  /** 2^k exceeds k, so 2^|v| cannot divide a non-zero v. */
  lemma {:induction false} TwoToExceeds(k: nat)
    ensures TwoTo(k) > k
  {
    if k > 0 {
      TwoToExceeds(k - 1);
    }
  }

  /** On an Absolute-free tree with a non-zero value the loop of `b` stops
      by the doubling |value|. */
  lemma BStopsOnValue(e: Expr)
    requires NoAbsolute(e) && Eval(e).Ok? && Eval(e).value != 0
    ensures StopsAt(e, TwoTo(Abs(Eval(e).value)))
  {
    var v := Eval(e).value;
    TwoToExceeds(Abs(v));
    ModZeroIffDivides(e, TwoTo(Abs(v)));
    if Divides(TwoTo(Abs(v)), v) {
      DividesBound(TwoTo(Abs(v)), v);
    }
  }

  /** `b` on an Absolute-free tree with a non-zero value: a power of two, at
      least 2, that does not divide the value while its half does. */
  method BOfValue(e: Expr) returns (divisor: int)
    requires NoAbsolute(e) && Eval(e).Ok? && Eval(e).value != 0
    ensures IsPowerOfTwo(divisor) && divisor >= 2
    ensures !Divides(divisor, Eval(e).value)
    ensures Divides(divisor / 2, Eval(e).value)
  {
    var v := Eval(e).value;
    BStopsOnValue(e);
    var r, k := B(e, Abs(v));
    ModZeroIffDivides(e, TwoTo(k));
    assert r.Ok?;
    assert Mod(e, TwoTo(k - 1)) == Ok(0);
    assert TwoTo(k) / 2 == TwoTo(k - 1);
    ModZeroIffDivides(e, TwoTo(k - 1));
    divisor := r.value;
  }

  /** With an Absolute node `b` still stops: `%` of `|-4|` is 0 modulo 1, 2 and
      4 and non-zero modulo 8. */
  lemma AbsoluteStopsAtEight()
    ensures forall j: nat :: j < 3 ==> Mod(Absolute(Literal(-4)), TwoTo(j)) == Ok(0)
    ensures Mod(Absolute(Literal(-4)), TwoTo(3)) == Ok(4)
  {
    assert TwoTo(3) == 8 by {
      assert TwoTo(1) == 2 && TwoTo(2) == 4;
    }
    forall j: nat | j < 3
      ensures Mod(Absolute(Literal(-4)), TwoTo(j)) == Ok(0)
    {
      assert TwoTo(1) == 2 && TwoTo(2) == 4;
    }
  }

  /** On an Absolute-free tree, `e % d` is zero exactly when d divides the value. */
  lemma ModZeroIffDivides(e: Expr, d: int)
    requires d >= 1 && NoAbsolute(e) && Eval(e).Ok?
    ensures Mod(e, d).Ok?
    ensures Mod(e, d).value == 0 <==> Divides(d, Eval(e).value)
  {
    ModCongruentToEval(e, d);
    var m := Mod(e, d).value;
    if m < 0 {
      DivModUnique(m, d, -1, m + d);
    } else {
      DivModUnique(m, d, 0, m);
    }
  }

  /** With an Absolute node the loop of `b` can run forever: `|-1| + 1` has
      value 2, yet its `%` is zero for every modulus. */
  lemma AbsoluteSumAlwaysDivisible(d: int)
    requires d >= 1
    ensures Eval(Sum(Absolute(Literal(-1)), Literal(1))) == Ok(2)
    ensures Mod(Sum(Absolute(Literal(-1)), Literal(1)), d) == Ok(0)
  {
    if d == 1 {
    } else {
      DivModUnique(-1, d, -1, d - 1);
      DivModUnique(1, d, 0, 1);
      DivModUnique(d, d, 1, 0);
    }
  }
}
