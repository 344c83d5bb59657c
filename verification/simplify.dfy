/** The rewrite rules of expression.py's `simplify` methods, exactly as written,
    including the ones that do not preserve the value. */
module Simplifier {
  import opened Results
  import opened PyInt
  import opened Expressions

  /** Values of the Literal elements, in order (first half of `extract_literals`). */
  function LiteralValues(xs: seq<Expr>): (vs: seq<int>)
    ensures |vs| <= |xs|
    ensures forall v :: v in vs <==> Literal(v) in xs
  {
    if |xs| == 0 then []
    else
      assert forall v :: Literal(v) in xs <==> xs[0] == Literal(v) || Literal(v) in xs[1..];
      (if xs[0].Literal? then [xs[0].value] else []) + LiteralValues(xs[1..])
  }

  /** The non-Literal elements, in order (second half of `extract_literals`). */
  function NonLiterals(xs: seq<Expr>): (ys: seq<Expr>)
    ensures |LiteralValues(xs)| + |ys| == |xs|
    ensures forall y :: y in ys <==> y in xs && !y.Literal?
  {
    if |xs| == 0 then []
    else
      assert forall y :: y in xs <==> y == xs[0] || y in xs[1..];
      (if xs[0].Literal? then [] else [xs[0]]) + NonLiterals(xs[1..])
  }

  function Literals(vs: seq<int>): (es: seq<Expr>)
    ensures |es| == |vs|
    ensures forall i :: 0 <= i < |vs| ==> es[i] == Literal(vs[i])
  {
    seq(|vs|, i requires 0 <= i < |vs| => Literal(vs[i]))
  }

  /** `reduce(operator.mul, xs)`: the left-nested product of the elements; a
      single element is returned as it is. */
  function ProductOf(xs: seq<Expr>): (e: Expr)
    requires |xs| >= 1
    ensures |xs| == 1 ==> e == xs[0]
    ensures |xs| >= 2 ==> e == Product(ProductOf(xs[..|xs| - 1]), xs[|xs| - 1])
  {
    if |xs| == 1 then xs[0] else Product(ProductOf(xs[..|xs| - 1]), xs[|xs| - 1])
  }

  /** One pass of the outer cancellation loop for the numerator literal `num`:
      every denominator literal is divided by its gcd with `num`, and the
      numerator slot is overwritten on each step, so it ends divided only by its
      gcd with the last denominator literal. `gcd(0, 0)` is a zero divisor. */
  function CancelRow(num: int, dens: seq<int>): (r: Result<(int, seq<int>)>)
    ensures r.Ok? <==> !(num == 0 && 0 in dens)
    ensures r.Ok? ==> |r.value.1| == |dens|
    ensures r.Ok? ==> forall j :: 0 <= j < |dens| ==>
      r.value.1[j] * Gcd(num, dens[j]) == dens[j] && (r.value.1[j] == 0 <==> dens[j] == 0)
    ensures r.Ok? && |dens| == 0 ==> r.value.0 == num
    ensures r.Ok? && |dens| > 0 ==> r.value.0 * Gcd(num, dens[|dens| - 1]) == num
  {
    if |dens| == 0 then Ok((num, []))
    else
      assert 0 in dens <==> dens[0] == 0 || 0 in dens[1..] by {
        assert dens == [dens[0]] + dens[1..];
      }
      var d := Gcd(num, dens[0]);
      if d == 0 then Err(DivisionByZero)
      else
        var rest :- CancelRow(num, dens[1..]);
        var q := FloorDiv(dens[0], d);
        var last := if |dens| == 1 then FloorDiv(num, d) else rest.0;
        CancelRowStep(num, dens, d, q, last, rest.0, rest.1);
        Ok((last, [q] + rest.1))
  }

  lemma CancelRowStep(num: int, dens: seq<int>, d: nat, q: int, last: int, n1: int, ds: seq<int>)
    requires |dens| > 0 && d == Gcd(num, dens[0]) && d > 0
    requires q == FloorDiv(dens[0], d)
    requires last == if |dens| == 1 then FloorDiv(num, d) else n1
    requires |ds| == |dens| - 1
    requires forall j :: 0 <= j < |ds| ==>
      ds[j] * Gcd(num, dens[1..][j]) == dens[1..][j] && (ds[j] == 0 <==> dens[1..][j] == 0)
    requires |dens| > 1 ==> n1 * Gcd(num, dens[1..][|dens[1..]| - 1]) == num
    ensures forall j :: 0 <= j < |dens| ==>
      ([q] + ds)[j] * Gcd(num, dens[j]) == dens[j] && (([q] + ds)[j] == 0 <==> dens[j] == 0)
    ensures last * Gcd(num, dens[|dens| - 1]) == num
  {
    if |dens| > 1 {
      assert dens[1..][|dens[1..]| - 1] == dens[|dens| - 1];
    }
    ExactFloorDiv(num, d);
    ExactFloorDiv(dens[0], d);
    forall j | 0 <= j < |dens|
      ensures ([q] + ds)[j] * Gcd(num, dens[j]) == dens[j] && (([q] + ds)[j] == 0 <==> dens[j] == 0)
    {
      if j > 0 {
        assert ([q] + ds)[j] == ds[j - 1] && dens[1..][j - 1] == dens[j];
      }
    }
  }

  /** One row only ever divides: the new numerator is a divisor of the old one
      (and zero exactly when it was), and so is each new denominator. */
  lemma CancelRowDivides(num: int, dens: seq<int>)
    requires CancelRow(num, dens).Ok?
    ensures var row := CancelRow(num, dens).value;
      && (row.0 == 0 <==> num == 0) && (num != 0 ==> Divides(row.0, num))
      && forall j :: 0 <= j < |dens| && dens[j] != 0 ==> Divides(row.1[j], dens[j])
  {
    var row := CancelRow(num, dens).value;
    if |dens| > 0 {
      var g := Gcd(num, dens[|dens| - 1]);
      assert row.0 * g == num;
      if num != 0 {
        FactorDivides(row.0, g, num);
      } else {
        assert dens[|dens| - 1] in dens;
        assert g > 0;
      }
    }
    forall j | 0 <= j < |dens| && dens[j] != 0
      ensures Divides(row.1[j], dens[j])
    {
      FactorDivides(row.1[j], Gcd(num, dens[j]), dens[j]);
    }
  }

  /** The whole cancellation loop: rows in order, each row seeing the
      denominators as the previous rows left them. */
  function CancelRows(nums: seq<int>, dens: seq<int>): (r: Result<(seq<int>, seq<int>)>)
    ensures r.Ok? <==> !(0 in nums && 0 in dens)
    ensures r.Ok? ==> |r.value.0| == |nums| && |r.value.1| == |dens|
    ensures r.Ok? ==> forall j :: 0 <= j < |dens| ==> (r.value.1[j] == 0 <==> dens[j] == 0)
    ensures r.Ok? ==> forall i :: 0 <= i < |nums| ==>
      (r.value.0[i] == 0 <==> nums[i] == 0) && (nums[i] != 0 ==> Divides(r.value.0[i], nums[i]))
    ensures r.Ok? ==> forall j :: 0 <= j < |dens| && dens[j] != 0 ==> Divides(r.value.1[j], dens[j])
    ensures r.Ok? && |nums| > 0 ==> CancelRow(nums[0], dens).Ok? && r.value.0[0] == CancelRow(nums[0], dens).value.0
  {
    if |nums| == 0 then Ok(([], dens))
    else
      var row :- CancelRow(nums[0], dens);
      assert 0 in dens <==> 0 in row.1 by {
        assert forall j :: 0 <= j < |dens| ==> (row.1[j] == 0 <==> dens[j] == 0);
      }
      var rest :- CancelRows(nums[1..], row.1);
      assert 0 in nums <==> nums[0] == 0 || 0 in nums[1..];
      CancelRowDivides(nums[0], dens);
      CancelRowsStep(nums, dens, row, rest);
      Ok(([row.0] + rest.0, rest.1))
  }

  lemma CancelRowsStep(nums: seq<int>, dens: seq<int>, row: (int, seq<int>), rest: (seq<int>, seq<int>))
    requires |nums| > 0 && |row.1| == |dens| && |rest.0| == |nums| - 1 && |rest.1| == |dens|
    requires (row.0 == 0 <==> nums[0] == 0) && (nums[0] != 0 ==> Divides(row.0, nums[0]))
    requires forall j :: 0 <= j < |dens| ==> (row.1[j] == 0 <==> dens[j] == 0)
    requires forall j :: 0 <= j < |dens| && dens[j] != 0 ==> Divides(row.1[j], dens[j])
    requires forall i :: 0 <= i < |nums| - 1 ==>
      (rest.0[i] == 0 <==> nums[1..][i] == 0) && (nums[1..][i] != 0 ==> Divides(rest.0[i], nums[1..][i]))
    requires forall j :: 0 <= j < |dens| && row.1[j] != 0 ==> Divides(rest.1[j], row.1[j])
    ensures forall i :: 0 <= i < |nums| ==>
      (([row.0] + rest.0)[i] == 0 <==> nums[i] == 0)
      && (nums[i] != 0 ==> Divides(([row.0] + rest.0)[i], nums[i]))
    ensures forall j :: 0 <= j < |dens| && dens[j] != 0 ==> Divides(rest.1[j], dens[j])
  {
    forall i | 0 <= i < |nums|
      ensures (([row.0] + rest.0)[i] == 0 <==> nums[i] == 0)
        && (nums[i] != 0 ==> Divides(([row.0] + rest.0)[i], nums[i]))
    {
      if i > 0 {
        assert ([row.0] + rest.0)[i] == rest.0[i - 1] && nums[1..][i - 1] == nums[i];
      }
    }
    forall j | 0 <= j < |dens| && dens[j] != 0
      ensures Divides(rest.1[j], dens[j])
    {
      DividesChain(rest.1[j], row.1[j], dens[j]);
    }
  }

  /** Negation's rule on its simplified operand: a double negation cancels and
      a literal is negated in place, which never changes the value. */
  function NegationRule(v: Expr): (r: Expr)
    ensures Eval(r) == Eval(Negation(v))
  {
    if v.Negation? then v.arg
    else if v.Literal? then Literal(-v.value)
    else Negation(v)
  }

  /** `simplify`, with a recursion bound: the rules re-simplify trees they have
      just built, so no structural measure decreases. Running out of fuel is
      reported as `OutOfFuel`; every other error is the exception Python raises.
      Children are simplified first, left to right, then the node's rule runs. */
  function Simplify(e: Expr, fuel: nat): (r: Result<Expr>)
    ensures fuel == 0 ==> r == Err(OutOfFuel)
    ensures e.Literal? && fuel > 0 ==> r == Ok(e)
    ensures e.Sum? && r.Ok? ==> r.value.Literal? && r.value.value != 0
    decreases fuel, 0
  {
    if fuel == 0 then Err(OutOfFuel)
    else
      var f := fuel - 1;
      match e
      case Literal(_) => Ok(e)
      case Negation(x) =>
        var v :- Simplify(x, f);
        Ok(NegationRule(v))
      case Absolute(x) =>
        var v :- Simplify(x, f);
        AbsoluteRule(e, v, f)
      case Sum(_, _) =>
        var summands :- SimplifyAll(Operands(e), f);
        SumRule(summands)
      case Product(l, r) =>
        var a :- Simplify(l, f);
        var b :- Simplify(r, f);
        ProductRule(a, b, f)
      case Power(l, r) =>
        var base :- Simplify(l, f);
        var exp :- Simplify(r, f);
        PowerRule(base, exp)
      case FloorDivision(l, r) =>
        var num :- Simplify(l, f);
        var den :- Simplify(r, f);
        FloorDivisionRule(num, den, f)
  }

  /** Absolute's rule on its simplified operand `v`; `e` is the original node,
      returned unsimplified when no rule applies. */
  function AbsoluteRule(e: Expr, v: Expr, fuel: nat): (r: Result<Expr>)
    ensures (v.Absolute? || v.Literal?) ==> r.Ok? && Eval(r.value) == Eval(Absolute(v))
    ensures v.Negation? ==> r == Ok(v.arg)
    ensures !v.Absolute? && !v.Literal? && !v.Negation? && !v.FloorDivision? && !v.Product? ==> r == Ok(e)
    decreases fuel, 2
  {
    if v.Absolute? then Ok(v)
    else if v.Literal? then Ok(Literal(Abs(v.value)))
    else if v.Negation? then Ok(v.arg)
    else if v.FloorDivision? then Simplify(FloorDivision(Absolute(v.left), Absolute(v.right)), fuel)
    else if v.Product? then Simplify(Product(Absolute(v.left), Absolute(v.right)), fuel)
    else Ok(e)
  }

  /** Sum's rule on its simplified flattened summands. The literal and
      non-literal filters share one generator: summing the literals exhausts it,
      so no non-literal summand survives, and a zero total leaves `reduce`
      nothing to combine. */
  function SumRule(summands: seq<Expr>): (r: Result<Expr>)
    ensures r.Ok? ==> r.value.Literal? && r.value.value != 0
    ensures r.Ok? ==> r.value.value == SumInts(LiteralValues(summands))
    ensures r.Err? ==> r.error == EmptyReduction
    ensures r.Ok? <==> SumInts(LiteralValues(summands)) != 0
  {
    var total := SumInts(LiteralValues(summands));
    if total == 0 then Err(EmptyReduction) else Ok(Literal(total))
  }

  /** Product's rule on its simplified operands. */
  function ProductRule(a: Expr, b: Expr, fuel: nat): (r: Result<Expr>)
    ensures !a.FloorDivision? && !b.FloorDivision? && Eval(a).Ok? && Eval(b).Ok? ==>
      r.Ok? && Eval(r.value) == Eval(Product(a, b))
    decreases fuel, 2
  {
    if IsLit(a, 1) then Ok(b)
    else if IsLit(b, 1) then Ok(a)
    else if IsLit(a, 0) || IsLit(b, 0) then Ok(Literal(0))
    else if a.FloorDivision? && b.FloorDivision? then
      Simplify(FloorDivision(Product(a.left, b.left), Product(a.right, b.right)), fuel)
    else if a.FloorDivision? then Simplify(FloorDivision(Product(a.left, b), a.right), fuel)
    else if b.FloorDivision? then Simplify(FloorDivision(Product(a, b.left), b.right), fuel)
    else Ok(Product(a, b))
  }

  /** Power's rule on its simplified base and exponent. The parity test is
      `exp % 2` on the exponent tree, truthy when non-zero. */
  function PowerRule(base: Expr, exp: Expr): (r: Result<Expr>)
    ensures r.Ok? ==> r.value == base || r.value == Literal(1) || r.value == Power(base, exp)
    ensures r.Err? ==> IsLit(base, -1) && Mod(exp, 2).Err?
  {
    if IsLit(base, 1) then Ok(base)
    else if IsLit(base, -1) then
      var parity :- Mod(exp, 2);
      if parity != 0 then Ok(Literal(1)) else Ok(base)
    else if IsLit(exp, 1) then Ok(base)
    else if IsLit(exp, 0) then Ok(Literal(1))
    else Ok(Power(base, exp))
  }

  /** FloorDivision's rule on its simplified numerator and denominator. */
  function FloorDivisionRule(num: Expr, den: Expr, fuel: nat): (r: Result<Expr>)
    ensures IsLit(num, 0) ==> r == Ok(Literal(0))
    ensures IsLit(den, 1) ==> r == Ok(num) && Eval(num) == Eval(FloorDivision(num, den))
    decreases fuel, 2
  {
    if IsLit(den, 1) then
      assert Eval(FloorDivision(num, den)) == Eval(num) by {
        if Eval(num).Ok? {
          assert FloorDiv(Eval(num).value, 1) == Eval(num).value;
        }
      }
      Ok(num)
    else if IsLit(num, 0) then Ok(Literal(0))
    else if den.FloorDivision? then Simplify(Product(num, FloorDivision(den.right, den.left)), fuel)
    else if num.FloorDivision? then Simplify(FloorDivision(num.left, Product(num.right, den)), fuel)
    else Cancel(num, den, fuel)
  }

  /** Simplify each element in order, stopping at the first failure. */
  function SimplifyAll(xs: seq<Expr>, fuel: nat): Result<seq<Expr>>
    decreases fuel, 1 + |xs|
  {
    if |xs| == 0 then Ok([])
    else
      var h :- Simplify(xs[0], fuel);
      var t :- SimplifyAll(xs[1..], fuel);
      Ok([h] + t)
  }

  /** FloorDivision's factor cancellation on simplified numerator and denominator. */
  function Cancel(num: Expr, den: Expr, fuel: nat): (r: Result<Expr>)
    ensures !num.Product? && !num.Literal? ==> r == Ok(FloorDivision(num, den))
    decreases fuel, 1
  {
    var nums := if num.Product? then Operands(num) else if num.Literal? then [num] else [];
    var dens := if den.Product? then Operands(den) else [den];
    if |nums| == 0 then Ok(FloorDivision(num, den))
    else
      var rows :- CancelRows(LiteralValues(nums), LiteralValues(dens));
      var n2 :- Simplify(ProductOf(Literals(rows.0) + NonLiterals(nums)), fuel);
      var d2 :- Simplify(ProductOf(Literals(rows.1) + NonLiterals(dens)), fuel);
      if IsLit(d2, 1) then Ok(n2) else Ok(FloorDivision(n2, d2))
  }

  /** `int(x)`: simplify, then evaluate the simplified tree. */
  function ToInt(e: Expr, fuel: nat): (r: Result<int>)
    ensures r.Ok? ==> Simplify(e, fuel).Ok?
    ensures e.Sum? && r.Ok? ==> r.value != 0
  {
    var s :- Simplify(e, fuel);
    Eval(s)
  }

  // One unfolding of `Simplify` per node kind, once the children are simplified.

  lemma FloorDivisionStep(l: Expr, r: Expr, fuel: nat, a: Expr, b: Expr)
    requires fuel >= 1 && Simplify(l, fuel - 1) == Ok(a) && Simplify(r, fuel - 1) == Ok(b)
    ensures Simplify(FloorDivision(l, r), fuel) == FloorDivisionRule(a, b, fuel - 1)
  {
    var e := FloorDivision(l, r);
    assert e.FloorDivision? && e.left == l && e.right == r;
  }

  lemma ProductStep(l: Expr, r: Expr, fuel: nat, a: Expr, b: Expr)
    requires fuel >= 1 && Simplify(l, fuel - 1) == Ok(a) && Simplify(r, fuel - 1) == Ok(b)
    ensures Simplify(Product(l, r), fuel) == ProductRule(a, b, fuel - 1)
  {
  }

  lemma PowerStep(l: Expr, r: Expr, fuel: nat, a: Expr, b: Expr)
    requires fuel >= 1 && Simplify(l, fuel - 1) == Ok(a) && Simplify(r, fuel - 1) == Ok(b)
    ensures Simplify(Power(l, r), fuel) == PowerRule(a, b)
  {
  }

  lemma AbsoluteStep(x: Expr, fuel: nat, v: Expr)
    requires fuel >= 1 && Simplify(x, fuel - 1) == Ok(v)
    ensures Simplify(Absolute(x), fuel) == AbsoluteRule(Absolute(x), v, fuel - 1)
  {
  }

  lemma NegationStep(x: Expr, fuel: nat, v: Expr)
    requires fuel >= 1 && Simplify(x, fuel - 1) == Ok(v)
    ensures Simplify(Negation(x), fuel) == Ok(NegationRule(v))
  {
  }

  lemma SumStep(e: Expr, fuel: nat, summands: seq<Expr>)
    requires e.Sum? && fuel >= 1 && SimplifyAll(Operands(e), fuel - 1) == Ok(summands)
    ensures Simplify(e, fuel) == SumRule(summands)
  {
  }

  lemma SimplifyAllPair(a: Expr, b: Expr, fuel: nat, ha: Expr, hb: Expr)
    requires Simplify(a, fuel) == Ok(ha) && Simplify(b, fuel) == Ok(hb)
    ensures SimplifyAll([a, b], fuel) == Ok([ha, hb])
  {
    assert [b][0] == b && [b][1..] == [];
    assert SimplifyAll([b][1..], fuel) == Ok([]);
    assert [hb] + [] == [hb];
    assert SimplifyAll([b], fuel) == Ok([hb]);
    assert [a, b][0] == a && [a, b][1..] == [b];
    assert [ha] + [hb] == [ha, hb];
  }

  /** Cancellation once the factor lists, the reduced literals and the two
      re-simplified products are known. */
  lemma CancelStep(num: Expr, den: Expr, fuel: nat, nums: seq<Expr>, dens: seq<Expr>,
                   rows: (seq<int>, seq<int>), n2: Expr, d2: Expr)
    requires nums == (if num.Product? then Operands(num) else if num.Literal? then [num] else [])
    requires dens == (if den.Product? then Operands(den) else [den])
    requires |nums| > 0
    requires CancelRows(LiteralValues(nums), LiteralValues(dens)) == Ok(rows)
    requires Simplify(ProductOf(Literals(rows.0) + NonLiterals(nums)), fuel) == Ok(n2)
    requires Simplify(ProductOf(Literals(rows.1) + NonLiterals(dens)), fuel) == Ok(d2)
    ensures Cancel(num, den, fuel) == if IsLit(d2, 1) then Ok(n2) else Ok(FloorDivision(n2, d2))
  {
  }
}
