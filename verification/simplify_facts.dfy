/** Value preservation for the rewrite rules of expression.py that are sound,
    and the structure of the Sum rule. */
module SimplifierFacts {
  import opened Results
  import opened PyInt
  import opened Expressions
  import opened Simplifier

  /** Negation cancels a double negation and folds a literal without changing the value. */
  lemma {:induction false} NegationRulePreservesValue(v: Expr)
    ensures Eval(NegationRule(v)) == Eval(Negation(v))
    ensures v.Negation? ==> NegationRule(v) == v.arg
    ensures v.Literal? ==> NegationRule(v) == Literal(-v.value)
  {
    if v.Negation? {
      DoubleNegation(v.arg);
      assert v == Negation(v.arg);
    } else if v.Literal? {
      assert v == Literal(v.value);
    } else {
      NegationKept(v);
    }
  }

  lemma {:induction false} DoubleNegation(w: Expr)
    ensures Eval(NegationRule(Negation(w))) == Eval(Negation(Negation(w)))
  {
  }

  lemma {:induction false} NegationKept(v: Expr)
    requires !v.Negation? && !v.Literal?
    ensures Eval(NegationRule(v)) == Eval(Negation(v))
  {
  }

  /** `|literal|` folds to the literal's absolute value; `||x||` becomes `|x|`. */
  lemma AbsoluteRuleSoundCases(e: Expr, v: Expr, fuel: nat)
    ensures v.Literal? ==>
      AbsoluteRule(e, v, fuel) == Ok(Literal(Abs(v.value))) && Eval(Literal(Abs(v.value))) == Eval(Absolute(v))
    ensures v.Absolute? ==> AbsoluteRule(e, v, fuel) == Ok(v) && Eval(v) == Eval(Absolute(v))
  {
  }

  /** Product's identity and zero rules on simplified operands. */
  lemma ProductRuleIdentities(a: Expr, b: Expr, fuel: nat)
    ensures IsLit(a, 1) ==> ProductRule(a, b, fuel) == Ok(b) && Eval(Product(a, b)) == Eval(b)
    ensures !IsLit(a, 1) && IsLit(b, 1) ==>
      ProductRule(a, b, fuel) == Ok(a) && Eval(Product(a, b)) == Eval(a)
    ensures !IsLit(a, 1) && !IsLit(b, 1) && (IsLit(a, 0) || IsLit(b, 0)) ==>
      ProductRule(a, b, fuel) == Ok(Literal(0))
      && (Eval(Product(a, b)).Ok? ==> Eval(Product(a, b)) == Ok(0))
    ensures (!IsLit(a, 0) && !IsLit(a, 1) && !IsLit(b, 0) && !IsLit(b, 1)
             && !a.FloorDivision? && !b.FloorDivision?) ==>
      ProductRule(a, b, fuel) == Ok(Product(a, b))
  {
  }

  /** Power's rules preserve the value, except the one for base -1. */
  lemma PowerRulePreservesValue(base: Expr, exp: Expr)
    requires !IsLit(base, -1)
    requires Eval(Power(base, exp)).Ok?
    ensures PowerRule(base, exp).Ok?
    ensures Eval(PowerRule(base, exp).value) == Eval(Power(base, exp))
    ensures IsLit(base, 1) || IsLit(exp, 1) ==> PowerRule(base, exp) == Ok(base)
    ensures !IsLit(base, 1) && IsLit(exp, 0) ==> PowerRule(base, exp) == Ok(Literal(1))
  {
    var b, k := Eval(base).value, Eval(exp).value;
    assert Eval(Power(base, exp)) == Ok(Pow(b, k));
    if IsLit(base, 1) {
      PowOfOne(k);
    } else if IsLit(exp, 1) {
      assert Pow(b, 1) == b * Pow(b, 0);
    } else if IsLit(exp, 0) {
    } else {
      assert PowerRule(base, exp) == Ok(Power(base, exp));
    }
  }

  /** FloorDivision's rules for a denominator 1 and a numerator 0 preserve the value. */
  lemma FloorDivisionRuleIdentities(num: Expr, den: Expr, fuel: nat)
    ensures IsLit(den, 1) ==>
      FloorDivisionRule(num, den, fuel) == Ok(num) && Eval(FloorDivision(num, den)) == Eval(num)
    ensures !IsLit(den, 1) && IsLit(num, 0) ==>
      FloorDivisionRule(num, den, fuel) == Ok(Literal(0))
      && (Eval(FloorDivision(num, den)).Ok? ==> Eval(FloorDivision(num, den)) == Ok(0))
  {
  }

  lemma {:induction false} LiteralValuesAppend(a: seq<Expr>, b: seq<Expr>)
    ensures LiteralValues(a + b) == LiteralValues(a) + LiteralValues(b)
  {
    if |a| == 0 {
      assert a + b == b;
    } else {
      var x, rest := a[0], a[1..];
      assert a == [x] + rest && a + b == [x] + (rest + b);
      LiteralValuesCons(x, rest);
      LiteralValuesCons(x, rest + b);
      LiteralValuesAppend(rest, b);
      AppendAssoc(if x.Literal? then [x.value] else [], LiteralValues(rest), LiteralValues(b));
    }
  }

  lemma {:induction false} NonLiteralsAppend(a: seq<Expr>, b: seq<Expr>)
    ensures NonLiterals(a + b) == NonLiterals(a) + NonLiterals(b)
  {
    if |a| == 0 {
      assert a + b == b;
    } else {
      var x, rest := a[0], a[1..];
      assert a == [x] + rest && a + b == [x] + (rest + b);
      NonLiteralsCons(x, rest);
      NonLiteralsCons(x, rest + b);
      NonLiteralsAppend(rest, b);
      AppendAssoc(if x.Literal? then [] else [x], NonLiterals(rest), NonLiterals(b));
    }
  }

  lemma LiteralValuesCons(x: Expr, xs: seq<Expr>)
    ensures LiteralValues([x] + xs) == (if x.Literal? then [x.value] else []) + LiteralValues(xs)
  {
    assert ([x] + xs)[0] == x && ([x] + xs)[1..] == xs;
  }

  lemma NonLiteralsCons(x: Expr, xs: seq<Expr>)
    ensures NonLiterals([x] + xs) == (if x.Literal? then [] else [x]) + NonLiterals(xs)
  {
    assert ([x] + xs)[0] == x && ([x] + xs)[1..] == xs;
  }

  lemma AppendAssoc<T>(a: seq<T>, b: seq<T>, c: seq<T>)
    ensures a + (b + c) == (a + b) + c
  {
  }

  /** `extract_literals` on one element: a Literal goes to the first half as
      its value, anything else to the second. With the two append lemmas this
      fixes both halves completely, order and repetitions included. */
  lemma ExtractLiteralsSingle(x: Expr)
    ensures LiteralValues([x]) == (if x.Literal? then [x.value] else [])
    ensures NonLiterals([x]) == (if x.Literal? then [] else [x])
  {
    assert [x][1..] == [];
  }

  /** The two halves are a partition of the input as a multiset: every
      occurrence lands in exactly one half. */
  lemma {:induction false} ExtractLiteralsPartition(xs: seq<Expr>)
    ensures multiset(Literals(LiteralValues(xs))) + multiset(NonLiterals(xs)) == multiset(xs)
  {
    if |xs| > 0 {
      var x, t := xs[0], xs[1..];
      ExtractLiteralsPartition(t);
      PartitionStep(xs, x, t);
    }
  }

  lemma PartitionStep(xs: seq<Expr>, x: Expr, t: seq<Expr>)
    requires |xs| > 0 && x == xs[0] && t == xs[1..]
    requires multiset(Literals(LiteralValues(t))) + multiset(NonLiterals(t)) == multiset(t)
    ensures multiset(Literals(LiteralValues(xs))) + multiset(NonLiterals(xs)) == multiset(xs)
  {
    var lits, others := Literals(LiteralValues(t)), NonLiterals(t);
    assert xs == [x] + t;
    if x.Literal? {
      assert Literals(LiteralValues(xs)) == [x] + lits by {
        LiteralsAppend([x.value], LiteralValues(t));
        assert Literals([x.value]) == [x];
      }
      assert NonLiterals(xs) == others;
    } else {
      assert Literals(LiteralValues(xs)) == lits by {
        assert [] + LiteralValues(t) == LiteralValues(t);
      }
      assert NonLiterals(xs) == [x] + others;
    }
    MultisetCons(x, lits, others, t);
  }

  lemma MultisetCons<T>(x: T, a: seq<T>, b: seq<T>, t: seq<T>)
    requires multiset(a) + multiset(b) == multiset(t)
    ensures multiset([x] + a) + multiset(b) == multiset([x] + t)
    ensures multiset(a) + multiset([x] + b) == multiset([x] + t)
  {
  }

  lemma LiteralsAppend(a: seq<int>, b: seq<int>)
    ensures Literals(a + b) == Literals(a) + Literals(b)
  {
  }

  /** Appending a non-literal summand never changes Sum's result: non-literal
      summands are lost. */
  lemma SumRuleIgnoresNonLiterals(ss: seq<Expr>, x: Expr)
    requires !x.Literal?
    ensures SumRule(ss + [x]) == SumRule(ss)
    ensures SumRule([x] + ss) == SumRule(ss)
  {
    LiteralValuesAppend(ss, [x]);
    LiteralValuesAppend([x], ss);
    assert [x][1..] == [];
    assert LiteralValues([x]) == [];
    assert LiteralValues(ss) + [] == LiteralValues(ss);
    assert [] + LiteralValues(ss) == LiteralValues(ss);
  }

  /** When every summand is a literal, Sum's result is the literal of their
      total, unless the total is zero, which raises. */
  lemma {:induction false} SumRuleOnLiterals(ss: seq<Expr>)
    requires forall i :: 0 <= i < |ss| ==> ss[i].Literal?
    ensures EvalAll(ss).Ok?
    ensures SumInts(EvalAll(ss).value) == 0 ==> SumRule(ss) == Err(EmptyReduction)
    ensures SumInts(EvalAll(ss).value) != 0 ==>
      SumRule(ss) == Ok(Literal(SumInts(EvalAll(ss).value)))
  {
    AllLiteralValues(ss);
  }

  lemma {:induction false} AllLiteralValues(ss: seq<Expr>)
    requires forall i :: 0 <= i < |ss| ==> ss[i].Literal?
    ensures EvalAll(ss).Ok? && EvalAll(ss).value == LiteralValues(ss)
  {
    if |ss| > 0 {
      AllLiteralValues(ss[1..]);
    }
  }

  /** Trees of literals, negations and products. */
  predicate RingTerm(e: Expr)
  {
    match e
    case Literal(_) => true
    case Negation(x) => RingTerm(x)
    case Product(l, r) => RingTerm(l) && RingTerm(r)
    case _ => false
  }

  function Depth(e: Expr): nat
  {
    match e
    case Literal(_) => 0
    case Negation(x) => 1 + Depth(x)
    case Absolute(x) => 1 + Depth(x)
    case Sum(l, r) => 1 + Max(Depth(l), Depth(r))
    case Product(l, r) => 1 + Max(Depth(l), Depth(r))
    case Power(l, r) => 1 + Max(Depth(l), Depth(r))
    case FloorDivision(l, r) => 1 + Max(Depth(l), Depth(r))
  }

  function Max(a: nat, b: nat): nat
  {
    if a < b then b else a
  }

  /** Simplifying the ring term `e` with `fuel` fails only for lack of fuel,
      succeeds when the fuel exceeds the depth, and keeps the value and the
      fragment. */
  predicate KeepsValue(e: Expr, fuel: nat)
  {
    && Eval(e).Ok?
    && (fuel > Depth(e) ==> Simplify(e, fuel).Ok?)
    && (Simplify(e, fuel).Err? ==> Simplify(e, fuel).error == OutOfFuel)
    && (Simplify(e, fuel).Ok? ==>
          RingTerm(Simplify(e, fuel).value) && Eval(Simplify(e, fuel).value) == Eval(e))
  }

  /** On trees of literals, negations and products, simplification always
      succeeds given more fuel than the tree's depth, stays in that fragment and
      preserves the value. */
  lemma {:induction false} RingTermsKeepValue(e: Expr, fuel: nat)
    requires RingTerm(e)
    ensures Eval(e).Ok?
    ensures fuel > Depth(e) ==> Simplify(e, fuel).Ok?
    ensures Simplify(e, fuel).Err? ==> Simplify(e, fuel).error == OutOfFuel
    ensures Simplify(e, fuel).Ok? ==>
      RingTerm(Simplify(e, fuel).value) && Eval(Simplify(e, fuel).value) == Eval(e)
  {
    KeepsValueInduction(e, fuel);
  }

  lemma {:induction false} KeepsValueInduction(e: Expr, fuel: nat)
    requires RingTerm(e)
    ensures KeepsValue(e, fuel)
  {
    match e
    case Literal(_) =>
      if fuel > 0 {
        assert Simplify(e, fuel) == Ok(e);
      }
    case Negation(x) =>
      if fuel == 0 {
        KeepsValueInduction(x, 0);
      } else {
        KeepsValueInduction(x, fuel - 1);
        NegationKeepsValue(x, fuel);
      }
    case Product(l, r) =>
      if fuel == 0 {
        KeepsValueInduction(l, 0);
        KeepsValueInduction(r, 0);
      } else {
        KeepsValueInduction(l, fuel - 1);
        KeepsValueInduction(r, fuel - 1);
        ProductKeepsValue(l, r, fuel);
      }
  }

  lemma NegationKeepsValue(x: Expr, fuel: nat)
    requires fuel >= 1 && RingTerm(x) && KeepsValue(x, fuel - 1)
    ensures KeepsValue(Negation(x), fuel)
  {
    if Simplify(x, fuel - 1).Err? {
      assert Simplify(Negation(x), fuel) == Err(Simplify(x, fuel - 1).error);
    } else {
      var v := Simplify(x, fuel - 1).value;
      NegationStep(x, fuel, v);
      NegationRuleOnRingTerm(v, x);
    }
  }

  /** Negation's rule on a simplified ring term keeps the value of the original negation. */
  lemma NegationRuleOnRingTerm(v: Expr, x: Expr)
    requires RingTerm(v) && Eval(x).Ok? && Eval(v) == Eval(x)
    ensures RingTerm(NegationRule(v))
    ensures Eval(NegationRule(v)) == Eval(Negation(x))
  {
    NegationRulePreservesValue(v);
  }

  lemma ProductKeepsValue(l: Expr, r: Expr, fuel: nat)
    requires fuel >= 1 && RingTerm(l) && RingTerm(r) && KeepsValue(l, fuel - 1) && KeepsValue(r, fuel - 1)
    ensures KeepsValue(Product(l, r), fuel)
  {
    if Simplify(l, fuel - 1).Err? {
      assert Simplify(Product(l, r), fuel) == Err(Simplify(l, fuel - 1).error);
    } else if Simplify(r, fuel - 1).Err? {
      assert Simplify(Product(l, r), fuel) == Err(Simplify(r, fuel - 1).error);
    } else {
      var a, b := Simplify(l, fuel - 1).value, Simplify(r, fuel - 1).value;
      ProductStep(l, r, fuel, a, b);
      ProductRuleOnRingTerms(a, b, l, r, fuel - 1);
    }
  }

  /** Product's rule on simplified ring terms keeps the value of the original product. */
  lemma ProductRuleOnRingTerms(a: Expr, b: Expr, l: Expr, r: Expr, fuel: nat)
    requires RingTerm(a) && RingTerm(b)
    requires Eval(l).Ok? && Eval(a) == Eval(l) && Eval(r).Ok? && Eval(b) == Eval(r)
    ensures ProductRule(a, b, fuel).Ok?
    ensures RingTerm(ProductRule(a, b, fuel).value)
    ensures Eval(ProductRule(a, b, fuel).value) == Eval(Product(l, r))
  {
    ProductRuleIdentities(a, b, fuel);
    assert Eval(Product(a, b)) == Eval(Product(l, r));
  }

  /** `int(x)` agrees with `x.eval()` on trees of literals, negations and products. */
  lemma RingTermsToInt(e: Expr, fuel: nat)
    requires RingTerm(e) && fuel > Depth(e)
    ensures ToInt(e, fuel) == Eval(e)
    ensures ToInt(e, fuel).Ok?
  {
    RingTermsKeepValue(e, fuel);
  }
}
