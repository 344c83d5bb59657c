# Project Euler helpers: a verified model

This project is a Dafny model of the integer core of a small Project Euler
repository. It covers four independent parts:

- **The delayed-arithmetic expression engine** (`expression.py`). Expression
  trees are built from seven node kinds: Literal, Negation, Absolute, Sum,
  Product, Power and FloorDivision. The model covers:
  - partial evaluation with Python's floor division and integer power;
  - the per-node modular reduction `%`;
  - the flattening of nested sums and products;
  - the per-node `simplify` rewrite rules, and `int(x)` = simplify-then-evaluate;
  - the helper `b`, which looks for the smallest power of two that does not divide a tree.
- **The residue class `Modular(n)`** (`modular.py`). This covers:
  - construction, the arithmetic operators, the "least" representatives and
    congruence equality;
  - the odd-only prime sieve `primes`;
  - `powmod`;
  - `_phi`.
- **Problem 61** (`61.py`):
  - the six figurate sequences;
  - the two-digit cyclic-pair test;
  - the four-digit window;
  - the recursive chain builder;
  - the search for a closed cycle of six numbers, one from each sequence;
  - `classify_number`.
- **Problem 811** (`811.py`):
  - the 2-adic part `b`;
  - the recurrence `A(n, mod)`;
  - `H(r, t, mod)`.

Python semantics are modelled explicitly.

- Python's `//` and `%` are floor operations. Dafny's `/` and `%` are
  Euclidean. `PyInt.FloorDiv` and `PyInt.FloorMod` give the Python meaning.
  `PyInt.FloorModPositive` proves that the two agree for a positive divisor.
- Three-argument `pow(a, k, n)` is `PyInt.PowModulo`. Modulo 1 it is 0. For
  k >= 0 it is a^k reduced into [0, n). For k < 0 it is the (-k)-th power of
  the inverse of a modulo n, and it raises a ValueError when a has no inverse.
- Every place where the program raises becomes an `Err` of
  `Results.Result`:
  - `DivisionByZero` for `x // 0`, `x % 0` and `0 ** -k`;
  - `NegativeExponent` for `a ** -k` with a != 0, which gives a float in Python;
  - `NotInvertible` for `pow(a, -k, n)` when a has no inverse modulo n;
  - `EmptyReduction` for `reduce` over an empty iterable;
  - `InvalidModulus` for `Modular(n)` with `n < 1`.
- The simplifier re-simplifies trees that it has just built, so no structural
  measure decreases. `Simplifier.Simplify` therefore takes a fuel bound and
  reports `OutOfFuel` when the bound runs out.
- Generators become functions of the index.

The rewrite rules are modelled as the code writes them. Several of them do not
preserve the value. Value preservation is proved for the sound rules, and each
unsound rule is pinned down with a concrete example lemma:

- Sum keeps only the literal total. `split` builds its literal and
  non-literal filters over one shared generator (`expression.py:21-22`,
  `181-182`). Summing the literals exhausts that generator, so the
  non-literal summands are lost. A zero total leaves `reduce` an empty
  iterable, and it raises.
- Cancellation rebuilds each product with the literals first and the
  non-literals after (`expression.py:301-302`).
- Within one numerator row, every denominator step re-reads the row's
  original numerator and overwrites its slot (`expression.py:294-300`). The
  numerator therefore ends divided by its gcd with the last denominator
  literal only. Each denominator literal is divided by its gcd with that
  numerator, and later rows see the reduced denominators.
- A numerator that is neither a Product nor a Literal takes no part in
  cancellation (`expression.py:281-284`).
- `(-1)^k` tests the parity of k backwards.
- `|-x|` becomes `x`, and `|a // b|` becomes `|a| // |b|`.
- The Product and FloorDivision merges treat `//` as exact division.

The modular reduction `x % n` is computed node by node:

- Negation's `%` is `-(child % n)`, which lies in (-n, n). It is at most 0
  when the child is not itself a Negation. A double negation gives back the
  child's residue: `Negation(Negation(Literal(1))) % 5` is 1. The result is
  congruent to the value but not always equal to `eval % n`. The model
  therefore proves congruence (`ExpressionFacts.ModCongruentToEval`), not
  equality.
- Power's `%` is `pow(base % n, exponent.eval(), n)`. A negative exponent
  has no integer value under `eval`, but `%` still succeeds through the
  modular inverse. So `%` can succeed where `eval` fails:
  `Power(2, -1) % 3` is 2. It can also fail differently: `% 4` raises a
  ValueError.

## Model

| member | source | states |
|---|---|---|
| Expressions.Wrap | expression.py:12-18 | the boxed operand evaluates to what it stood for: an integer becomes a node with that value, and an expression is passed through unchanged |
| Expressions.Minus | expression.py:56-64 | `a - b` is built as `a + (-b)`; it evaluates exactly when both operands do, to their difference |
| Expressions.Eval | expression.py:229-259 | `eval` fails only with a zero divisor (`//`, or `0 ** -k`) or a negative exponent |
| Expressions.Operands | expression.py:155-166 | flattening a Sum or Product gives at least two operands; none of them is of the node's own kind, and each is a proper part of the node |
| ExpressionFacts.OperandsPreserveValue | expression.py:155-166 | the flattened operands all evaluate exactly when the node does; their sum (product) is the node's value; on failure the error is the node's error |
| ExpressionFacts.FrontierValue | expression.py:158-165 | each side of a node, whether flattened or kept as a singleton, evaluates to the value of that child |
| Expressions.Mod | expression.py:123-124 | for n >= 1 every node's `%` lies in (-n, n); it is non-negative for every kind except Negation; a Negation of a non-Negation is non-positive (the rules of lines 177, 200, 237, 264, 316 and 335) |
| ExpressionFacts.ModDefinedIffEvalDefined | expression.py:235-237 | `%` succeeds wherever `eval` does; on trees whose exponents are never negative, it succeeds exactly where `eval` does |
| ExpressionFacts.NegativeExponentMod | expression.py:235-237 | `2 ** -1` has no integer value, yet `% 3` gives the inverse 2, `% 4` raises, and `0 ** -1 % 1` is 0 while its `eval` divides by zero |
| ExpressionFacts.ModCongruentToEval | expression.py:177-178 | on an evaluable tree with no Absolute node, `x % n` is congruent to `eval(x)` modulo n |
| ExpressionFacts.AbsoluteModExample | expression.py:334-335 | Absolute's `%` reduces the child's value before taking the absolute value: `abs(-1) % 5` gives 4 while the value is 1 |
| ExpressionFacts.EvalFloorDivision | expression.py:258-259 | the quotient is Python's floor quotient for either sign of the denominator; a zero denominator raises |
| ExpressionFacts.FloorDivisionExample | expression.py:258-259 | -7 // 2 is -4, and -7 // 0 raises |
| ExpressionFacts.EvalPower | expression.py:229-230 | a power has an integer value exactly when base and exponent evaluate and the exponent is non-negative |
| ExpressionFacts.B | expression.py:352-356 | given a doubling at which the loop stops, `b` returns the first power of two 2^k (k >= 1) whose `%` is non-zero, with `%` zero at every smaller power and in particular at its half, or the error of the first `%` that raises, again after zeros only |
| ExpressionFacts.BStopsOnValue | expression.py:352-356 | on an Absolute-free tree with a non-zero value the loop stops by the doubling |value| |
| ExpressionFacts.BOfValue | expression.py:352-356 | on such a tree `b` returns a power of two, at least 2, that does not divide the value, while half of it does |
| ExpressionFacts.AbsoluteStopsAtEight | expression.py:352-356 | with an Absolute node `b` still runs on `%`: for `abs(-4)` it is 0 modulo 1, 2 and 4 and 4 modulo 8, so `b` returns 8 |
| ExpressionFacts.ModZeroIffDivides | expression.py:354 | the loop test `not n % divisor` holds exactly when the divisor divides the tree's value |
| ExpressionFacts.AbsoluteSumAlwaysDivisible | expression.py:352-356 | `abs(-1) + 1` has value 2 but `%` gives 0 for every divisor, so `b` never stops on it |
| PyInt.FloorDiv | expression.py:259 | Python's `//`: the quotient rounds toward minus infinity for either sign of the divisor |
| PyInt.FloorMod | 61.py:41 | Python's `%`: `a == d * (a // d) + a % d`, and the remainder takes the divisor's sign |
| PyInt.FloorDivExample | expression.py:258-259 | concrete values of floor division and floor remainder with negative operands |
| PyInt.Gcd | expression.py:298 | `math.gcd`: a non-negative common divisor, zero exactly when both arguments are zero, and divisible by every positive common divisor |
| PyInt.Inverse | expression.py:237 | the search returns the least inverse of a modulo n, and fails with `NotInvertible` exactly when there is none |
| PyInt.PowModulo | expression.py:237 | three-argument `pow`: in [0, n); 0 modulo 1; congruent to a^k for k >= 0; for k < 0 defined exactly when a is invertible modulo n, and then inverse to a^-k |
| Simplifier.LiteralValues | expression.py:28-29 | the literal half of `extract_literals`: a value is in it exactly when a Literal of that value is in the input, and it is no longer than the input |
| SimplifierFacts.LiteralValuesAppend | expression.py:28-29 | the literal half of a concatenation is the concatenation of the literal halves |
| Simplifier.NonLiterals | expression.py:28-29 | the non-literal half: exactly the non-Literal members, and the two halves together are as long as the input |
| SimplifierFacts.NonLiteralsAppend | expression.py:28-29 | the non-literal half of a concatenation is the concatenation of the non-literal halves |
| SimplifierFacts.ExtractLiteralsSingle | expression.py:28-29 | one element goes to the literal half as its value if it is a Literal, and to the other half otherwise; with the two append lemmas this fixes both halves, order and repetitions included |
| SimplifierFacts.ExtractLiteralsPartition | expression.py:21-29 | the two halves are a permutation of the input: as multisets they add up to it |
| SimplifierFacts.SumRuleOnLiterals | expression.py:180-189 | on literal summands, Sum's rule gives the literal total, or raises when the total is 0 |
| SimplifierFacts.SumRuleIgnoresNonLiterals | expression.py:181-182 | a non-literal summand, first or last, does not change Sum's result |
| SimplifierExamples.SumDropsNonLiterals | expression.py:180-189 | `1 + 2^2` has value 5 but simplifies to `1` |
| SimplifierExamples.SumZeroTotalRaises | expression.py:185-189 | `2 + -2` and `2^2 + 0` both raise in `reduce` when simplified |
| SimplifierFacts.ProductRuleIdentities | expression.py:204-211 | Product returns the other operand for a literal 1, gives 0 for a literal 0 (both value-preserving), and keeps two operands that are neither 0, 1 nor quotients as an unfolded product |
| SimplifierExamples.LiteralProductKept | expression.py:224-225 | a product of two literals other than 0 and 1 is left as a product |
| SimplifierFacts.NegationRulePreservesValue | expression.py:318-324 | Negation removes a double negation and folds a literal to its negation, keeping the value |
| SimplifierFacts.AbsoluteRuleSoundCases | expression.py:339-342 | Absolute folds a literal to its absolute value and keeps an inner Absolute; both keep the value |
| SimplifierExamples.AbsoluteOfNegationDropsBoth | expression.py:343-344 | `abs(-((-2)^3))` has value 8 but simplifies to `(-2)^3`, whose value is -8 |
| SimplifierExamples.AbsoluteOfQuotientSplits | expression.py:345-346 | `abs(-7 // 2)` has value 4 but is rewritten to `abs(-7) // abs(2)` and simplifies to `7 // 2`, whose value is 3 |
| SimplifierExamples.AbsoluteKeepsUnsimplifiedSelf | expression.py:349 | when no rule applies, Absolute returns the original node, even though its child simplifies further |
| SimplifierFacts.PowerRulePreservesValue | expression.py:239-254 | for a base other than -1, Power returns the base for base 1 or exponent 1 and returns 1 for exponent 0, keeping the value |
| SimplifierExamples.MinusOneParityBackwards | expression.py:244-248 | `(-1)^3` simplifies to 1, and `(-1)^2` and `(-1)^0` to -1: the parity test is reversed |
| SimplifierExamples.SimplifyCanRaise | expression.py:245 | the parity test evaluates the exponent, so `(-1)^(1 // 0)` raises while being simplified |
| SimplifierFacts.FloorDivisionRuleIdentities | expression.py:270-273 | a literal-1 denominator returns the numerator; otherwise a literal-0 numerator gives 0 |
| SimplifierExamples.QuotientDenominatorInverted | expression.py:274-275 | `1 // (1 // 2)` raises when evaluated, but the merge rewrites it to `1 * (2 // 1)` and it simplifies to 2 |
| SimplifierExamples.ProductMergeTreatsDivisionAsExact | expression.py:212-219 | `(1 // 2) * 2` has value 0 but simplifies to 1 |
| Simplifier.CancelRow | expression.py:294-300 | one numerator row: each denominator literal is divided by its gcd with the numerator; the numerator ends divided by the gcd with the last denominator only; it raises exactly when the numerator and some denominator are both 0 |
| Simplifier.CancelRows | expression.py:294-300 | all rows in order: the lengths are kept; zero entries stay exactly where they were; every new numerator and denominator divides the one it replaces; the first numerator is exactly what one row of cancellation leaves (divided by its gcd with the last denominator only); it raises exactly when 0 is among both numerators and denominators |
| Simplifier.CancelRowDivides | expression.py:294-300 | one row only divides: the new numerator divides the old one and is zero exactly when it was, and so does each new denominator |
| SimplifierExamples.CancellationKeepsLastGcdOnly | expression.py:294-305 | `6 // (2 * 3)` has value 1 but simplifies to 2 |
| SimplifierExamples.CoprimeQuotient | expression.py:289-305 | a quotient of coprime literals whose denominator is not 1 simplifies to itself |
| SimplifierExamples.DemoCancel | expression.py:289-305 | cancelling `(2 * 3) // (3 * 2)` leaves 3 |
| SimplifierExamples.DemoExpression | expression.py:360-368 | the module demo `abs(-2 // -3) // (2 // 3)` fails to evaluate (0 // 0) but simplifies to 3, so `int` gives 3 |
| SimplifierFacts.RingTermsKeepValue | expression.py:203-225 | on trees of literals, negations and products, simplifying fails only for lack of fuel, succeeds once the fuel exceeds the depth, and keeps the value and the fragment |
| SimplifierFacts.RingTermsToInt | expression.py:104-105 | for such trees `int(x)` (simplify, then evaluate) equals `eval(x)` |
| Simplifier.Simplify | expression.py:107-108 | children are simplified first, then the node's rule runs; literals are kept; a simplified Sum is always a non-zero literal |
| Simplifier.NegationRule | expression.py:318-324 | Negation's rule never changes the value |
| Simplifier.AbsoluteRule | expression.py:337-349 | a literal or an inner Absolute keeps the value; a Negation is replaced by its operand; a node with no rule is returned as the original, unsimplified node |
| Simplifier.SumRule | expression.py:180-189 | the rule succeeds exactly when the total of the literal summands is non-zero, and then gives that total as a literal; otherwise `reduce` raises on an empty iterable |
| Simplifier.ProductRule | expression.py:203-225 | on operands that are not quotients and both evaluate, the rule succeeds and keeps the value |
| Simplifier.PowerRule | expression.py:239-254 | the result is the base, 1, or the unchanged power; the rule raises only in the parity test for base -1 |
| Simplifier.FloorDivisionRule | expression.py:267-273 | a zero numerator gives 0 whatever the denominator, even 0; a denominator 1 returns the numerator, which keeps the value |
| Simplifier.Cancel | expression.py:276-306 | a numerator that is neither a product nor a literal leaves the quotient as it is |
| Simplifier.ToInt | expression.py:104-105 | `int(x)` succeeds only when simplification does, and `int` of a Sum is never 0 |
| SimplifierExamples.NegativeExponentParity | expression.py:244-246 | `(-1) ** (3 ** -1)` has no integer value, but the parity test takes the exponent modulo 2 through the inverse and it simplifies to 1 |
| SimplifierExamples.DemoTreeBuilt | expression.py:360 | the demo's integer operands are boxed into the literals -3 and 3 |
| Modular.New | modular.py:17-21 | construction stores a canonical residue in [0, n) congruent to the argument; an instance of the same class is returned unchanged |
| Modular.NewCongruent | modular.py:21 | two integers give the same instance exactly when they are congruent modulo n |
| Modular.NewIdempotent | modular.py:18-19 | re-wrapping an instance changes nothing |
| Modular.Add | modular.py:23-31 | the sum is the canonical residue congruent to value + other |
| Modular.Mul | modular.py:33-40 | the product is the canonical residue congruent to value * other |
| Modular.Neg | modular.py:42-43 | the negation is the canonical residue congruent to -value |
| Modular.Sub | modular.py:50-53 | the difference is the canonical residue congruent to value - other |
| Modular.RSub | modular.py:55-57 | the reflected difference is the canonical residue congruent to other - value |
| Modular.Power | modular.py:45-48 | `**` gives a canonical residue: congruent to value^exp for exp >= 0; for exp < 0 defined exactly when the value is invertible, and then inverse to value^-exp; otherwise `NotInvertible` |
| Modular.LeastPositive | modular.py:65-69 | the result is congruent to the value; on an instance (always canonical) it is the instance itself |
| Modular.ShiftedInstance | modular.py:82-85 | shifting by n goes back through the reducing `+` and `-` and lands on the same canonical residue |
| Modular.LeastMagnitude | modular.py:81-87 | the result is congruent to the value and, on every instance, equals it: the shift is undone by reduction |
| Modular.LeastMagnitudeKeepsLargeValue | modular.py:81-87 | in `Modular(5)`, 4 stays 4 although -1 is congruent and smaller in magnitude |
| Modular.AbsValue | modular.py:71-79 | `abs` of an instance is the instance itself |
| Modular.Eq | modular.py:89-94 | `==` holds exactly when the two values are congruent modulo n |
| Modular.Ne | modular.py:96-101 | `!=` holds exactly when they are not congruent |
| Modular.EqExample | modular.py:89-101 | `Modular(2)(3) == 1` holds and `!=` does not |
| Modular.PowMod | modular.py:192-194 | a modulus below 1 raises; modulo 1 the result is 0; otherwise it lies in [0, mod), is congruent to base^exp for exp >= 0, and for exp < 0 exists exactly when base is invertible and is then inverse to base^-exp |
| Modular.PowModNegativeExample | modular.py:192-194 | `powmod(2, -1, 3)` is 2, `powmod(2, -1, 4)` raises, `powmod(2, -1, 1)` is 0, and modulus 0 raises |
| Modular.InverseOfReduced | modular.py:47 | whether a value is invertible modulo n depends only on its residue, so reducing the base first changes nothing |
| Modular.Phi | modular.py:179-181 | `_phi(p, k)` is p^k - p^(k-1) |
| Modular.PhiCountsNonMultiples | modular.py:179-181 | `_phi(p, k)` counts the numbers in [0, p^k) that p does not divide |
| Sieve.Primes | modular.py:108-114 | the result is 2 followed by exactly the primes below n, strictly ascending; 2 is there even when n <= 2 |
| Sieve.SliceAssignmentFits | modular.py:113 | the replacement list has exactly the length of the extended slice it is assigned to, so the assignment never raises |
| Sieve.PrimeIffNotCrossedOut | modular.py:111-114 | an odd number >= 3 is prime exactly when no odd i >= 3 with i * i <= j divides it, which is what the sieve leaves standing |
| Figurate.TriangularHalving | 61.py:6-8 | the triangular halving is exact: twice the k-th value is k(k+1) |
| Figurate.PentagonalHalving | 61.py:16-18 | the pentagonal halving is exact: twice the k-th value is k(3k-1) |
| Figurate.HeptagonalHalving | 61.py:26-28 | the heptagonal formula uses 5k-2, and the halving truncates for odd k |
| Figurate.FigurateAtLeastIndex | 61.py:6-33 | from index 1 each sequence's value is at least its index, so the `dropwhile` scan for a bound ends by that bound |
| Figurate.FirstValues | 61.py:6-33 | the first values of each sequence; the heptagonal ones are 8, 19, 36 rather than the usual 7, 18, 34 |
| Figurate.FigurateAtOne | 61.py:6-33 | every sequence starts at 1 |
| Figurate.FigurateIncreasing | 61.py:6-33 | from index 1 every sequence is strictly increasing |
| Figurate.DropBelow | 61.py:50 | `dropwhile` stops at the first index whose value is at least the bound; all earlier values are below it |
| Figurate.TakeUpTo | 61.py:49 | `takewhile` yields consecutive values up to the bound, and the next value exceeds it |
| Figurate.Window | 61.py:48-52 | the window is ascending and holds exactly the sequence's values within the bounds |
| Figurate.FilterFourDigit | 61.py:44-53 | `filter_four_digit` holds exactly the sequence's values in [1000, 9999], ascending |
| Figurate.IsCyclicPair | 61.py:36-41 | the pair test raises exactly for a zero divisor |
| Figurate.CyclicPairMeaning | 61.py:41 | for a positive divisor d the test holds exactly when b == d * (a mod d) + (b mod d): the last digits of a are the first digits of b |
| Figurate.Cyclic | 61.py:36 | with the default divisor 100 the test is total |
| Figurate.CyclicExample | 61.py:36-41 | 8128, 2882, 8281 form a cycle, and the test is not symmetric |
| Figurate.InSequence | 61.py:112-114 | the dropwhile/takewhile membership test holds exactly when n is in the sequence from index 1 |
| Figurate.ClassifyKinds | 61.py:103-116 | the kinds are listed in the fixed order, exactly those whose sequence contains n |
| Figurate.Classify | 61.py:99-116 | `classify_number` names exactly the sequences that contain n, at most six names |
| Figurate.ClassifyExamples | 61.py:99-116 | 1 is in every sequence, 36 is square and triangular but not pentagonal, 0 is in none |
| CyclicSearch.ExtendMembers | 61.py:65-70 | one level of the builder yields exactly the options cyclic to the seed, each followed by a chain of the remaining collections |
| CyclicSearch.ChainsExactly | 61.py:56-70 | `build_next_cyclic_numbers` yields exactly the sequences that take one element from each collection in order and in which each element is cyclic to the one before, starting from the seed |
| CyclicSearch.Chains | 61.py:56-70 | every chain `build_next_cyclic_numbers` yields has one element per collection |
| CyclicSearch.Extend | 61.py:65-70 | every chain of one level starts with an option from the current collection that is cyclic to the seed, and has one element per collection |
| CyclicSearch.PermutationsExactly | 61.py:86 | the orderings are exactly the sequences with the same multiset of elements |
| CyclicSearch.Permutations | 61.py:86 | every ordering has the length of the input |
| CyclicSearch.ElementsCount | 61.py:94 | `len(set(cycle)) == len(cycle)` holds exactly when the elements are pairwise distinct |
| CyclicSearch.SearchTails | 61.py:87-95 | scanning the chains returns the first accepted closed cycle, and returns nothing exactly when none is accepted |
| CyclicSearch.SearchOrders | 61.py:86-95 | the scan over orderings finds a cycle exactly when some ordering has an accepted chain |
| CyclicSearch.SearchFirsts | 61.py:84-96 | the scan over first numbers finds a cycle exactly when some first number has an accepted chain |
| CyclicSearch.AcceptedIsAnswer | 61.py:87-95 | every accepted chain is a solution: six distinct four-digit numbers, the first from the first sequence and one from each other sequence, each cyclic to the next and the last to the first |
| CyclicSearch.AnswerIsSearched | 61.py:84-96 | every solution is reached by the search |
| CyclicSearch.FindCycle | 61.py:73-96 | a non-empty result is a solution, and the result is empty exactly when no solution exists |
| CyclicSearch.FindAnswer | 61.py:73-96 | the same for the triangular numbers first and the five other sequences after |
| Problem811.TwoAdic | 811.py:77-83 | for n != 0, `b(n)` lies between 1 and abs(n) |
| Problem811.TwoAdicIsTwoAdic | 811.py:77-83 | `b(n)` is a power of two that divides n, and n / b(n) is odd |
| Problem811.TwoAdicUnique | 811.py:77-83 | it is the only power of two with that property |
| Problem811.TwoAdicOfPower | 811.py:77-83 | a power of two is its own 2-adic part |
| Problem811.TwoAdicHalving | 811.py:80-82 | one turn of the loop moves a factor 2 from n into the divisor and keeps divisor * b(n) |
| Problem811.B | 811.py:77-83 | the loop returns the 2-adic part: a power of two dividing n with an odd quotient |
| Problem811.A | 811.py:86-96 | `A` fails only for modulus 0, with division by zero |
| Problem811.ArgumentsShrink | 811.py:90-93 | for q >= 1 both recursive arguments of A(2q) are below 2q: q <= 2q - b(q) < 2q |
| Problem811.ARecurrence | 811.py:86-96 | A(0) = 1 unreduced; A(2q+1) = A(q); for q >= 1 and m != 0, A(2q) = (3 A(q) + 5 A(2q - b(q))) mod m |
| Problem811.ARange | 811.py:86-96 | for m > 1 every value lies in [0, m) |
| Problem811.AWithoutModulus | 811.py:93 | with modulus 0, A fails exactly when the recursion meets an even n >= 2, i.e. unless n + 1 is a power of two; otherwise it gives 1 |
| Problem811.AAllOnes | 811.py:88-96 | A is 1 on 2^k - 1 (only odd steps down to 0) for every modulus |
| Problem811.APowerOfTwo | 811.py:90-93 | A(2^t, m) = 8^t mod m for t >= 1 and m >= 1 |
| Problem811.H | 811.py:99-101 | `H` fails only for modulus 0 and lies in [0, m) for m > 1 |
| Problem811.HExamples | 811.py:99-101 | H(r, 0) = A(1) = 1, and H(0, t) = A(2^t) = 8^t mod m |

## Left out

- Python operator dispatch (`__add__`, `__radd__`, …, `NotImplemented`, and
  the `None` that `__rmul__`/`__rsub__` return for non-integers): the model
  uses plain constructors and functions; only the subtraction of
  `Expression.__sub__`, which builds a sum with a negation, is modelled, as
  `Expressions.Minus`.
- `__str__`/`__repr__` text rendering, in both files: Dafny datatype
  equality replaces the printed form.
- `_wrap`'s `TypeError` for a value that is neither an integer nor an
  expression, and `Modular(n)`'s `TypeError` for a non-integer modulus:
  these cannot be expressed with typed arguments.
- `is_prime`, `nth_prime`, `prime_factors2`, `prime_factors` and `phi`: they
  use floating-point square roots and debug printing.
- `Delayed` (811.py): a closure wrapper with string labels.
- `@cache` and the `__main__` blocks: caching does not change function
  values, and printing is I/O. The demo expression of `expression.py` is
  covered as a lemma.
- Negative exponents of `**` on expressions: Python gives a float, which is
  outside the integer model, so `eval` reports `NegativeExponent` (and
  `0 ** -k` raises `DivisionByZero`). The `%` of such a power, three-argument
  `pow`, `Modular`'s `**` and `powmod` are integer operations and are
  modelled in full, modular inverse included.
- Expressions.Mod: defined for n >= 1 only; the program's `%` by zero or by a
  negative modulus is not modelled.
- Simplifier.Simplify: has a fuel bound. The program has none, and a run that
  would not end in Python is reported as `OutOfFuel`.
- Problem811.B: `b(0)` loops forever in the program, so n != 0 is required.
- ExpressionFacts.B: takes a ghost bound, a doubling at which the loop is
  known to stop. Where no power of two stops it (a zero value, or
  `abs(-1) + 1`), the program never returns and there is nothing to model.
- Problem811.TwoAdic: its own contract only bounds the result. The promise
  that it is a power of two dividing n with an odd quotient is stated in
  `Problem811.TwoAdicIsTwoAdic`. This keeps nonlinear facts out of every
  caller's context.
- Problem811.A: for negative n the recursion never reaches its base case
  (A(-1) calls A(-1) again, and CPython raises RecursionError), so n is a
  natural number.
- Problem811.H: negative r or t make `2**r` or the outer power a float, so r
  and t are natural numbers.
- CyclicSearch.FindCycle: requires exactly five further sequences, because
  `itertools.permutations(rest, 5)` is modelled as the full permutations of
  `rest`. `find_the_answer` always has five.
- The infinite generators are modelled as functions of the index, starting
  at index 1 as every caller does. The optional start argument is not
  modelled.
