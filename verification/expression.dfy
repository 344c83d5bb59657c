/** The delayed-arithmetic expression tree of expression.py: the seven node
    kinds, auto-boxing of integers, evaluation, per-node modular reduction and
    the flattening of nested sums and products. */
module Expressions {
  import opened Results
  import opened PyInt

  /** One case per node class. Unary nodes hold `arg`, binary nodes `left`/`right`;
      for Power these are base and exponent, for FloorDivision numerator and denominator. */
  datatype Expr =
    | Literal(value: int)
    | Negation(arg: Expr)
    | Absolute(arg: Expr)
    | Sum(left: Expr, right: Expr)
    | Product(left: Expr, right: Expr)
    | Power(left: Expr, right: Expr)
    | FloorDivision(left: Expr, right: Expr)

  /** What a node constructor accepts: an expression or a plain integer. */
  datatype Operand = Int(n: int) | Node(e: Expr)

  /** The value an operand stands for: the integer itself, or the tree's `eval`. */
  function OperandValue(o: Operand): Result<int>
  {
    match o
    case Int(n) => Ok(n)
    case Node(x) => Eval(x)
  }

  /** `_wrap`: an integer becomes a Literal, an expression is kept as it is;
      either way the node evaluates to what the operand stood for. */
  function Wrap(o: Operand): (e: Expr)
    ensures Eval(e) == OperandValue(o)
    ensures o.Node? ==> e == o.e
  {
    match o
    case Int(n) => Literal(n)
    case Node(x) => x
  }

  /** `a - b` (`__sub__`, and `__rsub__` with the operands swapped): there is
      no difference node, so it builds `a + (-b)`, which evaluates to the
      difference of the operands' values or fails where one of them does. */
  function Minus(a: Operand, b: Operand): (e: Expr)
    ensures e.Sum? && e.right.Negation?
    ensures Eval(e).Ok? <==> OperandValue(a).Ok? && OperandValue(b).Ok?
    ensures Eval(e).Ok? ==> Eval(e).value == OperandValue(a).value - OperandValue(b).value
  {
    Sum(Wrap(a), Negation(Wrap(b)))
  }

  /** `x == Literal(v)`: true only for a Literal holding v. Comparing any other
      node kind with a Literal falls back to identity and is false. */
  predicate IsLit(e: Expr, v: int)
  {
    e.Literal? && e.value == v
  }

  /** Two nodes of the same binary kind (what `isinstance(x, type(self))` tests). */
  predicate SameKind(a: Expr, b: Expr)
  {
    || (a.Sum? && b.Sum?)
    || (a.Product? && b.Product?)
    || (a.Power? && b.Power?)
    || (a.FloorDivision? && b.FloorDivision?)
  }

  predicate IsBinary(e: Expr)
  {
    e.Sum? || e.Product? || e.Power? || e.FloorDivision?
  }

  /** `eval`: the exact integer value, or the exception Python raises. The
      only failures are a zero divisor and a negative exponent. */
  function Eval(e: Expr): (r: Result<int>)
    ensures r.Err? ==> r.error == DivisionByZero || r.error == NegativeExponent
  {
    match e
    case Literal(v) => Ok(v)
    case Negation(x) =>
      var a :- Eval(x);
      Ok(-a)
    case Absolute(x) =>
      var a :- Eval(x);
      Ok(Abs(a))
    case Sum(l, r) =>
      var a :- Eval(l);
      var b :- Eval(r);
      Ok(a + b)
    case Product(l, r) =>
      var a :- Eval(l);
      var b :- Eval(r);
      Ok(a * b)
    case Power(l, r) =>
      var a :- Eval(l);
      var k :- Eval(r);
      if k >= 0 then Ok(Pow(a, k))
      else if a == 0 then Err(DivisionByZero)
      else Err(NegativeExponent)
    case FloorDivision(l, r) =>
      var a :- Eval(l);
      var b :- Eval(r);
      if b == 0 then Err(DivisionByZero) else Ok(FloorDiv(a, b))
  }

  /** `x % n` for a modulus n >= 1, node by node. Negation returns the negated
      residue of its child unreduced; Absolute, Power's exponent and
      FloorDivision fall back to full evaluation. Power is `pow(base % n, k, n)`:
      0 when n == 1, and for a negative k the power of the base's inverse. */
  function Mod(e: Expr, n: int): (r: Result<int>)
    requires n >= 1
    ensures r.Ok? ==> -n < r.value < n
    ensures r.Ok? && !e.Negation? ==> 0 <= r.value
    ensures r.Ok? && e.Negation? && !e.arg.Negation? ==> r.value <= 0
  {
    match e
    case Literal(v) => Ok(v % n)
    case Negation(x) =>
      var a :- Mod(x, n);
      Ok(-a)
    case Absolute(x) =>
      var a :- Eval(x);
      Ok(Abs(a % n))
    case Sum(l, r) =>
      var a :- Mod(l, n);
      var b :- Mod(r, n);
      Ok((a + b) % n)
    case Product(l, r) =>
      var a :- Mod(l, n);
      var b :- Mod(r, n);
      Ok((a * b) % n)
    case Power(l, r) =>
      var a :- Mod(l, n);
      var k :- Eval(r);
      PowModulo(a, k, n)
    case FloorDivision(_, _) =>
      var v :- Eval(e);
      Ok(v % n)
  }

  /** `unwrap_parens`: the operands of the maximal same-kind subtree rooted at
      `e`, left to right. */
  function Operands(e: Expr): (xs: seq<Expr>)
    requires IsBinary(e)
    ensures |xs| >= 2
    ensures forall i :: 0 <= i < |xs| ==> !SameKind(xs[i], e) && xs[i] < e
  {
    (if SameKind(e.left, e) then Operands(e.left) else [e.left])
    + (if SameKind(e.right, e) then Operands(e.right) else [e.right])
  }

  /** Evaluate a list of expressions left to right, stopping at the first failure. */
  function EvalAll(xs: seq<Expr>): (r: Result<seq<int>>)
    ensures r.Ok? ==> |r.value| == |xs|
  {
    if |xs| == 0 then Ok([])
    else
      var a :- Eval(xs[0]);
      var rest :- EvalAll(xs[1..]);
      Ok([a] + rest)
  }

  function SumInts(vs: seq<int>): int
  {
    if |vs| == 0 then 0 else vs[0] + SumInts(vs[1..])
  }

  function ProductInts(vs: seq<int>): int
  {
    if |vs| == 0 then 1 else vs[0] * ProductInts(vs[1..])
  }

  /** Every exponent that evaluates is non-negative: the trees whose powers
      never leave the integers. */
  predicate IntegerPowers(e: Expr)
  {
    match e
    case Literal(_) => true
    case Negation(x) => IntegerPowers(x)
    case Absolute(x) => IntegerPowers(x)
    case Sum(l, r) => IntegerPowers(l) && IntegerPowers(r)
    case Product(l, r) => IntegerPowers(l) && IntegerPowers(r)
    case Power(l, r) => IntegerPowers(l) && IntegerPowers(r) && (Eval(r).Ok? ==> Eval(r).value >= 0)
    case FloorDivision(l, r) => IntegerPowers(l) && IntegerPowers(r)
  }

  /** The trees with no Absolute node, on which `%` agrees with `eval` modulo n. */
  predicate NoAbsolute(e: Expr)
  {
    match e
    case Literal(_) => true
    case Negation(x) => NoAbsolute(x)
    case Absolute(_) => false
    case Sum(l, r) => NoAbsolute(l) && NoAbsolute(r)
    case Product(l, r) => NoAbsolute(l) && NoAbsolute(r)
    case Power(l, r) => NoAbsolute(l) && NoAbsolute(r)
    case FloorDivision(l, r) => NoAbsolute(l) && NoAbsolute(r)
  }
}
