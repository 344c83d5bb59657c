/** Concrete rewrites that pin down the rules of expression.py that do not
    preserve the value, next to the evaluation of the original tree. */
module SimplifierExamples {
  import opened Results
  import opened PyInt
  import opened Expressions
  import opened Simplifier

  lemma SingleLiteral(a: int)
    ensures LiteralValues([Literal(a)]) == [a]
    ensures NonLiterals([Literal(a)]) == []
    ensures Literals([a]) + [] == [Literal(a)]
    ensures ProductOf([Literal(a)]) == Literal(a)
  {
  }

  /** A quotient of two coprime literals is kept as it is. */
  lemma CoprimeQuotient(a: int, b: int, fuel: nat)
    requires fuel >= 2 && a != 0 && b != 1 && Gcd(a, b) == 1
    ensures Simplify(FloorDivision(Literal(a), Literal(b)), fuel) == Ok(FloorDivision(Literal(a), Literal(b)))
  {
    assert FloorDiv(a, 1) == a && FloorDiv(b, 1) == b;
    assert CancelRow(a, [b][1..]) == Ok((a, []));
    assert [b][0] == b && [FloorDiv(b, 1)] + [] == [b];
    assert CancelRow(a, [b]) == Ok((a, [b]));
    assert CancelRows([a][1..], [b]) == Ok(([], [b]));
    assert [a][0] == a && [a] + [] == [a];
    assert CancelRows([a], [b]) == Ok(([a], [b]));
    SingleLiteral(a);
    SingleLiteral(b);
    assert Cancel(Literal(a), Literal(b), fuel - 1) == Ok(FloorDivision(Literal(a), Literal(b)));
  }

  /** Two literal factors other than 0 and 1 are not folded. */
  lemma LiteralProductKept(a: int, b: int, fuel: nat)
    requires fuel >= 2 && a != 0 && a != 1 && b != 0 && b != 1
    ensures Simplify(Product(Literal(a), Literal(b)), fuel) == Ok(Product(Literal(a), Literal(b)))
  {
  }

  lemma DemoNumerator(fuel: nat)
    requires fuel >= 4
    ensures Simplify(Absolute(FloorDivision(Literal(-2), Literal(-3))), fuel)
         == Ok(FloorDivision(Literal(2), Literal(3)))
  {
    var f := fuel - 1;
    var split := FloorDivision(Absolute(Literal(-2)), Absolute(Literal(-3)));
    assert Gcd(-2, -3) == 1;
    SplitQuotientStep(-2, -3, fuel);
    SplitQuotient(-2, -3, f);
    assert Simplify(split, f) == Ok(FloorDivision(Literal(2), Literal(3)));
  }

  lemma CancelRowSingle(num: int, b: int)
    requires Gcd(num, b) > 0
    ensures CancelRow(num, [b]) == Ok((FloorDiv(num, Gcd(num, b)), [FloorDiv(b, Gcd(num, b))]))
  {
    assert [b][0] == b && [b][1..] == [];
    assert CancelRow(num, []) == Ok((num, []));
    assert [FloorDiv(b, Gcd(num, b))] + [] == [FloorDiv(b, Gcd(num, b))];
  }

  lemma CancelRowCons(num: int, b: int, rest: seq<int>, last: int, ds: seq<int>)
    requires Gcd(num, b) > 0 && |rest| >= 1
    requires CancelRow(num, rest) == Ok((last, ds))
    ensures CancelRow(num, [b] + rest) == Ok((last, [FloorDiv(b, Gcd(num, b))] + ds))
  {
    assert ([b] + rest)[0] == b && ([b] + rest)[1..] == rest;
  }

  lemma CancelRowsCons(n: int, ns: seq<int>, dens: seq<int>, row: (int, seq<int>), rest: (seq<int>, seq<int>))
    requires CancelRow(n, dens) == Ok(row)
    requires CancelRows(ns, row.1) == Ok(rest)
    ensures CancelRows([n] + ns, dens) == Ok(([row.0] + rest.0, rest.1))
  {
    assert ([n] + ns)[0] == n && ([n] + ns)[1..] == ns;
  }

  lemma CancelRowsDemo()
    ensures CancelRows([2, 3], [3, 2]) == Ok(([1, 3], [1, 1]))
  {
    assert Gcd(2, 3) == 1 && Gcd(2, 2) == 2 && Gcd(3, 3) == 3 && Gcd(3, 1) == 1;
    CancelRowSingle(2, 2);
    CancelRowCons(2, 3, [2], 1, [1]);
    assert [3] + [2] == [3, 2] && [3] + [1] == [3, 1];
    CancelRowSingle(3, 1);
    CancelRowCons(3, 3, [1], 3, [1]);
    assert [3] + [1] == [3, 1] && [1] + [1] == [1, 1];
    assert CancelRows([], [1, 1]) == Ok(([], [1, 1]));
    CancelRowsCons(3, [], [3, 1], (3, [1, 1]), ([], [1, 1]));
    assert [3] + [] == [3];
    CancelRowsCons(2, [3], [3, 2], (1, [3, 1]), ([3], [1, 1]));
    assert [2] + [3] == [2, 3] && [1] + [3] == [1, 3];
  }

  lemma DemoFactorLists()
    ensures Operands(Product(Literal(2), Literal(3))) == [Literal(2), Literal(3)]
    ensures Operands(Product(Literal(3), Literal(2))) == [Literal(3), Literal(2)]
    ensures LiteralValues([Literal(2), Literal(3)]) == [2, 3]
    ensures LiteralValues([Literal(3), Literal(2)]) == [3, 2]
    ensures NonLiterals([Literal(2), Literal(3)]) == []
    ensures NonLiterals([Literal(3), Literal(2)]) == []
    ensures ProductOf(Literals([1, 3]) + []) == Product(Literal(1), Literal(3))
    ensures ProductOf(Literals([1, 1]) + []) == Product(Literal(1), Literal(1))
  {
    assert Literals([1, 3]) + [] == [Literal(1), Literal(3)];
    assert Literals([1, 1]) + [] == [Literal(1), Literal(1)];
    assert [Literal(1), Literal(3)][..1] == [Literal(1)];
    assert [Literal(1), Literal(1)][..1] == [Literal(1)];
  }

  lemma FallsToCancel(num: Expr, den: Expr, fuel: nat)
    requires !IsLit(den, 1) && !IsLit(num, 0) && !den.FloorDivision? && !num.FloorDivision?
    ensures FloorDivisionRule(num, den, fuel) == Cancel(num, den, fuel)
  {
  }

  lemma DemoCancellation(fuel: nat)
    requires fuel >= 3
    ensures Simplify(FloorDivision(Product(Literal(2), Literal(3)), Product(Literal(3), Literal(2))), fuel)
         == Ok(Literal(3))
  {
    var f := fuel - 1;
    var n23, n32 := Product(Literal(2), Literal(3)), Product(Literal(3), Literal(2));
    DemoCancellationStep(fuel);
    FallsToCancel(n23, n32, f);
    DemoCancel(f);
    assert FloorDivisionRule(n23, n32, f) == Ok(Literal(3));
    assert Simplify(FloorDivision(n23, n32), fuel) == FloorDivisionRule(n23, n32, f);
  }

  lemma DemoCancellationStep(fuel: nat)
    requires fuel >= 3
    ensures Simplify(FloorDivision(Product(Literal(2), Literal(3)), Product(Literal(3), Literal(2))), fuel)
         == FloorDivisionRule(Product(Literal(2), Literal(3)), Product(Literal(3), Literal(2)), fuel - 1)
  {
    var n23, n32 := Product(Literal(2), Literal(3)), Product(Literal(3), Literal(2));
    LiteralProductKept(2, 3, fuel - 1);
    LiteralProductKept(3, 2, fuel - 1);
    FloorDivisionStep(n23, n32, fuel, n23, n32);
  }

  lemma DemoCancel(fuel: nat)
    requires fuel >= 2
    ensures Cancel(Product(Literal(2), Literal(3)), Product(Literal(3), Literal(2)), fuel) == Ok(Literal(3))
  {
    var n23, n32 := Product(Literal(2), Literal(3)), Product(Literal(3), Literal(2));
    DemoFactorLists();
    CancelRowsDemo();
    DemoReducedProducts(fuel);
    CancelStep(n23, n32, fuel, [Literal(2), Literal(3)], [Literal(3), Literal(2)], ([1, 3], [1, 1]),
               Literal(3), Literal(1));
  }

  lemma DemoReducedProducts(fuel: nat)
    requires fuel >= 2
    ensures Simplify(Product(Literal(1), Literal(3)), fuel) == Ok(Literal(3))
    ensures Simplify(Product(Literal(1), Literal(1)), fuel) == Ok(Literal(1))
  {
    assert Simplify(Literal(1), fuel - 1) == Ok(Literal(1));
    assert Simplify(Literal(3), fuel - 1) == Ok(Literal(3));
    ProductStep(Literal(1), Literal(3), fuel, Literal(1), Literal(3));
    ProductStep(Literal(1), Literal(1), fuel, Literal(1), Literal(1));
  }

  /** The module demo as written, `abs(Literal(-2) // -3) // (Literal(2) // 3)`:
      the integer operands -3 and 3 are boxed by `_wrap`. */
  lemma DemoTreeBuilt()
    ensures FloorDivision(Absolute(FloorDivision(Literal(-2), Wrap(Int(-3)))),
                          FloorDivision(Literal(2), Wrap(Int(3))))
         == FloorDivision(Absolute(FloorDivision(Literal(-2), Literal(-3))),
                          FloorDivision(Literal(2), Literal(3)))
  {
  }

  /** The module demo `|-2 // -3| // (2 // 3)`: the original divides by zero,
      the simplified tree is the literal 3. */
  lemma DemoExpression(fuel: nat)
    requires fuel >= 6
    ensures Eval(FloorDivision(Absolute(FloorDivision(Literal(-2), Literal(-3))),
                               FloorDivision(Literal(2), Literal(3)))) == Err(DivisionByZero)
    ensures Simplify(FloorDivision(Absolute(FloorDivision(Literal(-2), Literal(-3))),
                                   FloorDivision(Literal(2), Literal(3))), fuel) == Ok(Literal(3))
    ensures ToInt(FloorDivision(Absolute(FloorDivision(Literal(-2), Literal(-3))),
                                FloorDivision(Literal(2), Literal(3))), fuel) == Ok(3)
  {
    var q23, q32 := FloorDivision(Literal(2), Literal(3)), FloorDivision(Literal(3), Literal(2));
    var num := Absolute(FloorDivision(Literal(-2), Literal(-3)));
    DemoNumerator(fuel - 1);
    assert Gcd(2, 3) == 1 && Gcd(3, 2) == 1;
    CoprimeQuotient(2, 3, fuel - 1);
    CoprimeQuotient(2, 3, fuel - 2);
    CoprimeQuotient(3, 2, fuel - 2);
    DemoCancellation(fuel - 2);
    ProductStep(q23, q32, fuel - 1, q23, q32);
    FloorDivisionStep(num, q23, fuel, q23, q23);
    assert FloorDivisionRule(q23, q23, fuel - 1) == Simplify(Product(q23, q32), fuel - 1);
  }

  lemma SixOverSixRows()
    ensures CancelRows([6], [2, 3]) == Ok(([2], [1, 1]))
  {
    assert Gcd(6, 2) == 2 && Gcd(6, 3) == 3;
    CancelRowSingle(6, 3);
    CancelRowCons(6, 2, [3], 2, [1]);
    assert [2] + [3] == [2, 3] && [1] + [1] == [1, 1];
    assert CancelRows([], [1, 1]) == Ok(([], [1, 1]));
    CancelRowsCons(6, [], [2, 3], (2, [1, 1]), ([], [1, 1]));
    assert [6] + [] == [6] && [2] + [] == [2];
  }

  lemma SixOverSixLists()
    ensures Operands(Product(Literal(2), Literal(3))) == [Literal(2), Literal(3)]
    ensures LiteralValues([Literal(2), Literal(3)]) == [2, 3]
    ensures NonLiterals([Literal(2), Literal(3)]) == []
    ensures LiteralValues([Literal(6)]) == [6] && NonLiterals([Literal(6)]) == []
    ensures ProductOf(Literals([2]) + []) == Literal(2)
    ensures ProductOf(Literals([1, 1]) + []) == Product(Literal(1), Literal(1))
  {
    SingleLiteral(6);
    SingleLiteral(2);
    assert Literals([1, 1]) + [] == [Literal(1), Literal(1)];
    assert [Literal(1), Literal(1)][..1] == [Literal(1)];
  }

  /** Cancellation divides the numerator literal only by its gcd with the last
      denominator literal: `6 // (2*3)` becomes 2, although its value is 1. */
  lemma CancellationKeepsLastGcdOnly(fuel: nat)
    requires fuel >= 3
    ensures Eval(FloorDivision(Literal(6), Product(Literal(2), Literal(3)))) == Ok(1)
    ensures Simplify(FloorDivision(Literal(6), Product(Literal(2), Literal(3))), fuel) == Ok(Literal(2))
  {
    SixOverSixValue();
    SixOverSixSimplified(fuel);
  }

  lemma SixOverSixValue()
    ensures Eval(FloorDivision(Literal(6), Product(Literal(2), Literal(3)))) == Ok(1)
  {
  }

  lemma SixOverSixSimplified(fuel: nat)
    requires fuel >= 3
    ensures Simplify(FloorDivision(Literal(6), Product(Literal(2), Literal(3))), fuel) == Ok(Literal(2))
  {
    var f := fuel - 1;
    var p := Product(Literal(2), Literal(3));
    assert Simplify(Literal(6), f) == Ok(Literal(6));
    LiteralProductKept(2, 3, f);
    FloorDivisionStep(Literal(6), p, fuel, Literal(6), p);
    FallsToCancel(Literal(6), p, f);
    SixOverSixCancel(f);
  }

  lemma SixOverSixCancel(fuel: nat)
    requires fuel >= 2
    ensures Cancel(Literal(6), Product(Literal(2), Literal(3)), fuel) == Ok(Literal(2))
  {
    var p := Product(Literal(2), Literal(3));
    SixOverSixLists();
    SixOverSixRows();
    assert Simplify(Literal(2), fuel) == Ok(Literal(2));
    assert Simplify(Literal(1), fuel - 1) == Ok(Literal(1));
    ProductStep(Literal(1), Literal(1), fuel, Literal(1), Literal(1));
    assert Simplify(Product(Literal(1), Literal(1)), fuel) == Ok(Literal(1));
    CancelStep(Literal(6), p, fuel, [Literal(6)], [Literal(2), Literal(3)], ([2], [1, 1]), Literal(2), Literal(1));
  }

  /** Sum keeps only the total of its literal summands: `1 + 2^2` becomes 1. */
  lemma SumDropsNonLiterals(fuel: nat)
    requires fuel >= 3
    ensures Eval(Sum(Literal(1), Power(Literal(2), Literal(2)))) == Ok(5)
    ensures Simplify(Sum(Literal(1), Power(Literal(2), Literal(2))), fuel) == Ok(Literal(1))
  {
    var f := fuel - 1;
    var p := Power(Literal(2), Literal(2));
    var e := Sum(Literal(1), p);
    PowerStep(Literal(2), Literal(2), f, Literal(2), Literal(2));
    assert Operands(e) == [Literal(1), p];
    SimplifyAllPair(Literal(1), p, f, Literal(1), p);
    SumStep(e, fuel, [Literal(1), p]);
    assert [Literal(1), p][1..] == [p] && [p][1..] == [];
    assert LiteralValues([Literal(1), p]) == [1];
    assert [1][1..] == [] && SumInts([1]) == 1;
  }

  /** A zero literal total leaves `reduce` an empty iterable, so `2 + -2` raises,
      and so does `2^2 + 0`, whose non-literal summand is dropped. */
  lemma SumZeroTotalRaises(fuel: nat)
    requires fuel >= 3
    ensures Eval(Sum(Literal(2), Literal(-2))) == Ok(0)
    ensures Simplify(Sum(Literal(2), Literal(-2)), fuel) == Err(EmptyReduction)
    ensures Simplify(Power(Literal(2), Literal(2)), fuel - 1) == Ok(Power(Literal(2), Literal(2)))
    ensures Simplify(Sum(Power(Literal(2), Literal(2)), Literal(0)), fuel) == Err(EmptyReduction)
  {
    SumOfOppositesRaises(fuel);
    PowerKept(fuel - 1);
    SumWithZeroRaises(fuel);
  }

  lemma SumOfOppositesRaises(fuel: nat)
    requires fuel >= 3
    ensures Simplify(Sum(Literal(2), Literal(-2)), fuel) == Err(EmptyReduction)
  {
    assert Operands(Sum(Literal(2), Literal(-2))) == [Literal(2), Literal(-2)];
    SimplifyAllPair(Literal(2), Literal(-2), fuel - 1, Literal(2), Literal(-2));
    SumStep(Sum(Literal(2), Literal(-2)), fuel, [Literal(2), Literal(-2)]);
    assert LiteralValues([Literal(2), Literal(-2)]) == [2, -2];
  }

  lemma PowerKept(fuel: nat)
    requires fuel >= 2
    ensures Simplify(Power(Literal(2), Literal(2)), fuel) == Ok(Power(Literal(2), Literal(2)))
  {
    PowerStep(Literal(2), Literal(2), fuel, Literal(2), Literal(2));
  }

  lemma SumWithZeroRaises(fuel: nat)
    requires fuel >= 3
    ensures Simplify(Sum(Power(Literal(2), Literal(2)), Literal(0)), fuel) == Err(EmptyReduction)
  {
    var f := fuel - 1;
    var p := Power(Literal(2), Literal(2));
    PowerKept(f);
    assert Simplify(p, f) == Ok(p);
    assert Operands(Sum(p, Literal(0))) == [p, Literal(0)];
    SimplifyAllPair(p, Literal(0), f, p, Literal(0));
    SumStep(Sum(p, Literal(0)), fuel, [p, Literal(0)]);
    assert [p, Literal(0)][1..] == [Literal(0)] && [Literal(0)][1..] == [];
    assert LiteralValues([p, Literal(0)]) == [0];
    assert [0][1..] == [] && SumInts([0]) == 0;
  }

  /** The parity test on base -1 is backwards: `(-1)^3` becomes 1 and
      `(-1)^2` and `(-1)^0` become -1. */
  lemma MinusOneParityBackwards(fuel: nat)
    requires fuel >= 2
    ensures Eval(Power(Literal(-1), Literal(3))) == Ok(-1)
    ensures Simplify(Power(Literal(-1), Literal(3)), fuel) == Ok(Literal(1))
    ensures Eval(Power(Literal(-1), Literal(2))) == Ok(1)
    ensures Simplify(Power(Literal(-1), Literal(2)), fuel) == Ok(Literal(-1))
    ensures Eval(Power(Literal(-1), Literal(0))) == Ok(1)
    ensures Simplify(Power(Literal(-1), Literal(0)), fuel) == Ok(Literal(-1))
  {
    PowerStep(Literal(-1), Literal(3), fuel, Literal(-1), Literal(3));
    PowerStep(Literal(-1), Literal(2), fuel, Literal(-1), Literal(2));
    PowerStep(Literal(-1), Literal(0), fuel, Literal(-1), Literal(0));
  }

  /** A negative exponent has no integer value, yet its parity is taken by
      `pow`: modulo 2 the exponent `3 ** -1` is 1 (3 is its own inverse), so
      `(-1) ** (3 ** -1)` simplifies to 1. */
  lemma NegativeExponentParity(fuel: nat)
    requires fuel >= 3
    ensures Eval(Power(Literal(-1), Power(Literal(3), Literal(-1)))) == Err(NegativeExponent)
    ensures Simplify(Power(Literal(-1), Power(Literal(3), Literal(-1))), fuel) == Ok(Literal(1))
  {
    var inner := Power(Literal(3), Literal(-1));
    PowerStep(Literal(3), Literal(-1), fuel - 1, Literal(3), Literal(-1));
    assert Mod(inner, 2) == Ok(1);
    PowerStep(Literal(-1), inner, fuel, Literal(-1), inner);
  }

  /** `|-x|` becomes `x`, whatever the sign of x: `|-((-2)^3)|` has value 8 and
      simplifies to `(-2)^3`, whose value is -8. */
  lemma AbsoluteOfNegationDropsBoth(fuel: nat)
    requires fuel >= 4
    ensures Eval(Absolute(Negation(Power(Literal(-2), Literal(3))))) == Ok(8)
    ensures Simplify(Absolute(Negation(Power(Literal(-2), Literal(3)))), fuel)
         == Ok(Power(Literal(-2), Literal(3)))
    ensures Eval(Power(Literal(-2), Literal(3))) == Ok(-8)
  {
    var p := Power(Literal(-2), Literal(3));
    PowerStep(Literal(-2), Literal(3), fuel - 2, Literal(-2), Literal(3));
    NegationStep(p, fuel - 1, p);
    AbsoluteStep(Negation(p), fuel, Negation(p));
  }

  /** `|a // b|` becomes `|a| // |b|`: `|-7 // 2|` has value 4, the result
      `7 // 2` has value 3. */
  lemma AbsoluteOfQuotientSplits(fuel: nat)
    requires fuel >= 4
    ensures Eval(Absolute(FloorDivision(Literal(-7), Literal(2)))) == Ok(4)
    ensures Simplify(Absolute(FloorDivision(Literal(-7), Literal(2))), fuel)
         == Ok(FloorDivision(Literal(7), Literal(2)))
    ensures Eval(FloorDivision(Literal(7), Literal(2))) == Ok(3)
  {
    var f := fuel - 1;
    var q := FloorDivision(Literal(-7), Literal(2));
    var split := FloorDivision(Absolute(Literal(-7)), Absolute(Literal(2)));
    assert FloorDiv(-7, 2) == -4 && FloorDiv(7, 2) == 3;
    assert Gcd(-7, 2) == 1 && Gcd(7, 2) == 1;
    SplitQuotientStep(-7, 2, fuel);
    SplitQuotient(-7, 2, f);
    assert Simplify(split, f) == Ok(FloorDivision(Literal(7), Literal(2)));
    assert Simplify(Absolute(q), fuel) == Simplify(split, f);
  }

  /** The absolute value of a coprime literal quotient is split into a quotient
      of absolute values. */
  lemma SplitQuotientStep(a: int, b: int, fuel: nat)
    requires fuel >= 3 && a != 0 && b != 1 && Gcd(a, b) == 1
    ensures Simplify(Absolute(FloorDivision(Literal(a), Literal(b))), fuel)
         == Simplify(FloorDivision(Absolute(Literal(a)), Absolute(Literal(b))), fuel - 1)
  {
    var q := FloorDivision(Literal(a), Literal(b));
    CoprimeQuotient(a, b, fuel - 1);
    AbsoluteStep(q, fuel, q);
  }

  /** `|a| // |b|` on coprime literals becomes the quotient of their absolute values. */
  lemma SplitQuotient(a: int, b: int, fuel: nat)
    requires fuel >= 3 && a != 0 && Abs(b) != 1 && Gcd(a, b) == 1
    ensures Simplify(FloorDivision(Absolute(Literal(a)), Absolute(Literal(b))), fuel)
         == Ok(FloorDivision(Literal(Abs(a)), Literal(Abs(b))))
  {
    var f := fuel - 1;
    var a', b' := Literal(Abs(a)), Literal(Abs(b));
    assert Gcd(Abs(a), Abs(b)) == Gcd(a, b);
    AbsoluteStep(Literal(a), f, Literal(a));
    AbsoluteStep(Literal(b), f, Literal(b));
    FloorDivisionStep(Absolute(Literal(a)), Absolute(Literal(b)), fuel, a', b');
    FloorDivisionStep(a', b', fuel, a', b');
    CoprimeQuotient(Abs(a), Abs(b), fuel);
  }

  /** When no rule applies Absolute returns the original node, not one over its
      simplified operand: the `3^1` inside stays. */
  lemma AbsoluteKeepsUnsimplifiedSelf(fuel: nat)
    requires fuel >= 4
    ensures Simplify(Power(Literal(2), Power(Literal(3), Literal(1))), fuel - 1)
         == Ok(Power(Literal(2), Literal(3)))
    ensures Simplify(Absolute(Power(Literal(2), Power(Literal(3), Literal(1)))), fuel)
         == Ok(Absolute(Power(Literal(2), Power(Literal(3), Literal(1)))))
  {
    var e := Power(Literal(2), Power(Literal(3), Literal(1)));
    PowerStep(Literal(3), Literal(1), fuel - 2, Literal(3), Literal(1));
    PowerStep(Literal(2), Power(Literal(3), Literal(1)), fuel - 1, Literal(2), Literal(3));
    AbsoluteStep(e, fuel, Power(Literal(2), Literal(3)));
  }

  /** Product merges a quotient factor as if `//` were exact: `(1 // 2) * 2`
      has value 0 and simplifies to 1. */
  lemma ProductMergeTreatsDivisionAsExact(fuel: nat)
    requires fuel >= 4
    ensures Eval(Product(FloorDivision(Literal(1), Literal(2)), Literal(2))) == Ok(0)
    ensures Simplify(Product(FloorDivision(Literal(1), Literal(2)), Literal(2)), fuel) == Ok(Literal(1))
  {
    var f := fuel - 1;
    var q := FloorDivision(Literal(1), Literal(2));
    var merged := FloorDivision(Product(Literal(1), Literal(2)), Literal(2));
    assert Eval(q) == Ok(0);
    HalfTimesTwoStep(fuel);
    TwoOverTwo(f);
    assert Simplify(merged, f) == Ok(Literal(1));
    assert Simplify(Product(q, Literal(2)), fuel) == Simplify(merged, f);
  }

  lemma HalfTimesTwoStep(fuel: nat)
    requires fuel >= 4
    ensures Simplify(Product(FloorDivision(Literal(1), Literal(2)), Literal(2)), fuel)
         == Simplify(FloorDivision(Product(Literal(1), Literal(2)), Literal(2)), fuel - 1)
  {
    var q := FloorDivision(Literal(1), Literal(2));
    assert Gcd(1, 2) == 1;
    CoprimeQuotient(1, 2, fuel - 1);
    ProductStep(q, Literal(2), fuel, q, Literal(2));
  }

  /** `(1*2) // 2` becomes 1. */
  lemma TwoOverTwo(fuel: nat)
    requires fuel >= 3
    ensures Simplify(FloorDivision(Product(Literal(1), Literal(2)), Literal(2)), fuel) == Ok(Literal(1))
  {
    var g := fuel - 1;
    ProductStep(Literal(1), Literal(2), g, Literal(1), Literal(2));
    FloorDivisionStep(Product(Literal(1), Literal(2)), Literal(2), fuel, Literal(2), Literal(2));
    FallsToCancel(Literal(2), Literal(2), g);
    TwoOverTwoCancel(g);
    assert Cancel(Literal(2), Literal(2), g) == Ok(Literal(1));
  }

  lemma TwoOverTwoCancel(fuel: nat)
    requires fuel >= 1
    ensures Cancel(Literal(2), Literal(2), fuel) == Ok(Literal(1))
  {
    SingleLiteral(2);
    SingleLiteral(1);
    assert Gcd(2, 2) == 2;
    CancelRowSingle(2, 2);
    assert CancelRows([], [1]) == Ok(([], [1]));
    CancelRowsCons(2, [], [2], (1, [1]), ([], [1]));
    assert [1] + [] == [1];
    CancelStep(Literal(2), Literal(2), fuel, [Literal(2)], [Literal(2)], ([1], [1]), Literal(1), Literal(1));
  }

  /** A quotient in the denominator is inverted as if `//` were exact:
      `1 // (1 // 2)` divides by zero, its simplification is 2. */
  lemma QuotientDenominatorInverted(fuel: nat)
    requires fuel >= 4
    ensures Eval(FloorDivision(Literal(1), FloorDivision(Literal(1), Literal(2)))) == Err(DivisionByZero)
    ensures Simplify(FloorDivision(Literal(1), FloorDivision(Literal(1), Literal(2))), fuel) == Ok(Literal(2))
  {
    var f := fuel - 1;
    var q := FloorDivision(Literal(1), Literal(2));
    assert Gcd(1, 2) == 1;
    CoprimeQuotient(1, 2, f);
    FloorDivisionStep(Literal(1), q, fuel, Literal(1), q);
    var g := f - 1;
    FloorDivisionStep(Literal(2), Literal(1), g, Literal(2), Literal(1));
    ProductStep(Literal(1), FloorDivision(Literal(2), Literal(1)), f, Literal(1), Literal(2));
  }

  /** Simplification can raise: the base -1 rule takes the exponent's `% 2`,
      which evaluates a quotient by zero. */
  lemma SimplifyCanRaise(fuel: nat)
    requires fuel >= 3
    ensures Simplify(Power(Literal(-1), FloorDivision(Literal(1), Literal(0))), fuel) == Err(DivisionByZero)
  {
    var f := fuel - 1;
    assert Gcd(1, 0) == 1;
    CoprimeQuotient(1, 0, f);
    PowerStep(Literal(-1), FloorDivision(Literal(1), Literal(0)), fuel, Literal(-1), FloorDivision(Literal(1), Literal(0)));
  }
}
