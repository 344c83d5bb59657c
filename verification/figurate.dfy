/** Figurate numbers and the two-digit cyclic-pair test of Project Euler 61. */
module Figurate {
  import opened Results
  import opened PyInt

  datatype Kind = Triangular | Square | Pentagonal | Hexagonal | Heptagonal | Octagonal

  /** The six kinds in the order the search and the classification use. */
  const AllKinds: seq<Kind> := [Triangular, Square, Pentagonal, Hexagonal, Heptagonal, Octagonal]

  function Rank(kind: Kind): nat
  {
    match kind
    case Triangular => 0
    case Square => 1
    case Pentagonal => 2
    case Hexagonal => 3
    case Heptagonal => 4
    case Octagonal => 5
  }

  function Name(kind: Kind): string
  {
    match kind
    case Triangular => "triangular"
    case Square => "square"
    case Pentagonal => "pentagonal"
    case Hexagonal => "hexagonal"
    case Heptagonal => "heptagonal"
    case Octagonal => "octagonal"
  }

  /**
   * The value each generator yields for index `k`, with Python's `//`.
   * The heptagonal formula is the one the program uses, k(5k-2)//2;
   * the usual heptagonal numbers are k(5k-3)/2.
   */
  function Figurate(kind: Kind, k: int): int
  {
    match kind
    case Triangular => FloorDiv(k * (k + 1), 2)
    case Square => k * k
    case Pentagonal => FloorDiv(k * (3 * k - 1), 2)
    case Hexagonal => k * (2 * k - 1)
    case Heptagonal => FloorDiv(k * (5 * k - 2), 2)
    case Octagonal => k * (3 * k - 2)
  }

  /** `x` is yielded by the kind's generator started at its default index 1. */
  ghost predicate IsFigurate(kind: Kind, x: int)
  {
    exists k :: 1 <= k && Figurate(kind, k) == x
  }

  // Arithmetic helpers about halving

  lemma HalfShift(x: int, m: int)
    ensures (x + 2 * m) / 2 == x / 2 + m
  {
    DivModUnique(x + 2 * m, 2, x / 2 + m, x % 2);
  }

  lemma EvenProduct(a: int, b: int)
    ensures a % 2 == 0 || b % 2 == 0 ==> (a * b) % 2 == 0
  {
    if a % 2 == 0 {
      var q := a / 2;
      assert a * b == 2 * (q * b);
      DivModUnique(a * b, 2, q * b, 0);
    } else if b % 2 == 0 {
      var q := b / 2;
      assert a * b == 2 * (a * q);
      DivModUnique(a * b, 2, a * q, 0);
    }
  }

  lemma OddProduct(a: int, b: int)
    ensures a % 2 == 1 && b % 2 == 1 ==> (a * b) % 2 == 1
  {
    if a % 2 == 1 && b % 2 == 1 {
      var p, q := a / 2, b / 2;
      assert a * b == 2 * (2 * p * q + p + q) + 1;
      DivModUnique(a * b, 2, 2 * p * q + p + q, 1);
    }
  }

  // The closed forms

  /** The halving in the triangular formula never truncates. */
  lemma TriangularHalving(k: int)
    ensures 2 * Figurate(Triangular, k) == k * (k + 1)
  {
    var x := k * (k + 1);
    FloorModPositive(x, 2);
    if k % 2 == 0 {
      EvenProduct(k, k + 1);
    } else {
      assert (k + 1) % 2 == 0;
      EvenProduct(k, k + 1);
    }
    assert x % 2 == 0;
  }

  /** The halving in the pentagonal formula never truncates. */
  lemma PentagonalHalving(k: int)
    ensures 2 * Figurate(Pentagonal, k) == k * (3 * k - 1)
  {
    FloorModPositive(k * (3 * k - 1), 2);
    EvenProduct(k, 3 * k - 1);
  }

  /** The heptagonal formula halves exactly for even `k` and truncates by 1/2 for odd `k`. */
  lemma HeptagonalHalving(k: int)
    ensures k % 2 == 0 ==> 2 * Figurate(Heptagonal, k) == k * (5 * k - 2)
    ensures k % 2 == 1 ==> 2 * Figurate(Heptagonal, k) == k * (5 * k - 2) - 1
  {
    FloorModPositive(k * (5 * k - 2), 2);
    EvenProduct(k, 5 * k - 2);
    OddProduct(k, 5 * k - 2);
  }

  /** The first values of each sequence; the heptagonal ones are not 7, 18, 34. */
  lemma FirstValues()
    ensures Figurate(Triangular, 1) == 1 && Figurate(Triangular, 4) == 10
    ensures Figurate(Square, 3) == 9
    ensures Figurate(Pentagonal, 3) == 12
    ensures Figurate(Hexagonal, 3) == 15
    ensures Figurate(Heptagonal, 2) == 8 && Figurate(Heptagonal, 3) == 19 && Figurate(Heptagonal, 4) == 36
    ensures Figurate(Octagonal, 3) == 21
  {
  }

  lemma FigurateAtOne(kind: Kind)
    ensures Figurate(kind, 1) == 1
  {
  }

  /** From index 1 on, every sequence grows by at least one at each step. */
  lemma FigurateStep(kind: Kind, k: int)
    requires k >= 1
    ensures Figurate(kind, k) < Figurate(kind, k + 1)
  {
    match kind
    case Triangular =>
      assert (k + 1) * (k + 2) == k * (k + 1) + 2 * (k + 1);
      FloorModPositive(k * (k + 1), 2);
      FloorModPositive((k + 1) * (k + 2), 2);
      HalfShift(k * (k + 1), k + 1);
    case Square =>
      assert (k + 1) * (k + 1) == k * k + 2 * k + 1;
    case Pentagonal =>
      assert (k + 1) * (3 * (k + 1) - 1) == k * (3 * k - 1) + 2 * (3 * k + 1);
      FloorModPositive(k * (3 * k - 1), 2);
      FloorModPositive((k + 1) * (3 * (k + 1) - 1), 2);
      HalfShift(k * (3 * k - 1), 3 * k + 1);
    case Hexagonal =>
      assert (k + 1) * (2 * (k + 1) - 1) == k * (2 * k - 1) + 4 * k + 1;
    case Heptagonal =>
      var x := k * (5 * k - 2);
      assert (k + 1) * (5 * (k + 1) - 2) == (x + 1) + 2 * (5 * k + 1);
      FloorModPositive(x, 2);
      FloorModPositive((k + 1) * (5 * (k + 1) - 2), 2);
      HalfShift(x + 1, 5 * k + 1);
    case Octagonal =>
      assert (k + 1) * (3 * (k + 1) - 2) == k * (3 * k - 2) + 6 * k + 1;
  }

  /** Every sequence is strictly increasing from index 1. */
  lemma {:induction false} FigurateIncreasing(kind: Kind, j: int, k: int)
    requires 1 <= j < k
    ensures Figurate(kind, j) < Figurate(kind, k)
    decreases k - j
  {
    FigurateStep(kind, k - 1);
    if j < k - 1 {
      FigurateIncreasing(kind, j, k - 1);
    }
  }

  /** From index 1 on, the value is at least the index. */
  lemma {:induction false} FigurateAtLeastIndex(kind: Kind, k: int)
    requires k >= 1
    ensures Figurate(kind, k) >= k
    decreases k
  {
    if k == 1 {
      FigurateAtOne(kind);
    } else {
      FigurateAtLeastIndex(kind, k - 1);
      FigurateStep(kind, k - 1);
    }
  }

  // dropwhile / takewhile windows

  /** The index at which `dropwhile(x < lo)` stops, scanning from index `k`. */
  function DropBelow(kind: Kind, k: int, lo: int): (r: int)
    requires k >= 1
    ensures r >= k && Figurate(kind, r) >= lo
    ensures forall j :: k <= j < r ==> Figurate(kind, j) < lo
    decreases lo - k
  {
    if Figurate(kind, k) >= lo then k
    else
      FigurateAtLeastIndex(kind, k);
      DropBelow(kind, k + 1, lo)
  }

  /** The values `takewhile(x <= hi)` yields from index `k` on. */
  function TakeUpTo(kind: Kind, k: int, hi: int): (r: seq<int>)
    requires k >= 1
    ensures forall i :: 0 <= i < |r| ==> r[i] == Figurate(kind, k + i) && r[i] <= hi
    ensures Figurate(kind, k + |r|) > hi
    decreases hi - k + 1
  {
    if Figurate(kind, k) > hi then []
    else
      FigurateAtLeastIndex(kind, k);
      [Figurate(kind, k)] + TakeUpTo(kind, k + 1, hi)
  }

  predicate Ascending(s: seq<int>)
  {
    forall i, j :: 0 <= i < j < |s| ==> s[i] < s[j]
  }

  lemma TakeUpToContents(kind: Kind, k: int, hi: int)
    requires k >= 1
    ensures Ascending(TakeUpTo(kind, k, hi))
    ensures forall x :: x in TakeUpTo(kind, k, hi) <==>
              x <= hi && exists j :: k <= j && Figurate(kind, j) == x
  {
    var r := TakeUpTo(kind, k, hi);
    forall i, j | 0 <= i < j < |r|
      ensures r[i] < r[j]
    {
      FigurateIncreasing(kind, k + i, k + j);
    }
    forall x | x <= hi && exists j :: k <= j && Figurate(kind, j) == x
      ensures x in r
    {
      var j :| k <= j && Figurate(kind, j) == x;
      if j > k + |r| {
        FigurateIncreasing(kind, k + |r|, j);
      }
      assert r[j - k] == x;
    }
    forall x | x in r
      ensures exists j :: k <= j && Figurate(kind, j) == x
    {
      var i :| 0 <= i < |r| && r[i] == x;
      assert Figurate(kind, k + i) == x;
    }
  }

  /** `takewhile(x <= hi, dropwhile(x < lo, generator()))`: the sequence's values in [lo, hi]. */
  function Window(kind: Kind, lo: int, hi: int): (r: seq<int>)
    ensures Ascending(r)
    ensures forall x :: x in r <==> lo <= x <= hi && IsFigurate(kind, x)
  {
    var k := DropBelow(kind, 1, lo);
    WindowContents(kind, k, lo, hi);
    TakeUpTo(kind, k, hi)
  }

  lemma WindowContents(kind: Kind, k: int, lo: int, hi: int)
    requires k == DropBelow(kind, 1, lo)
    ensures Ascending(TakeUpTo(kind, k, hi))
    ensures forall x :: x in TakeUpTo(kind, k, hi) <==> lo <= x <= hi && IsFigurate(kind, x)
  {
    TakeUpToContents(kind, k, hi);
    forall x | lo <= x <= hi && IsFigurate(kind, x)
      ensures exists j :: k <= j && Figurate(kind, j) == x
    {
      var j :| 1 <= j && Figurate(kind, j) == x;
      assert k <= j;
    }
    forall x | x in TakeUpTo(kind, k, hi)
      ensures lo <= x && IsFigurate(kind, x)
    {
      var j :| k <= j && Figurate(kind, j) == x;
      if j > k {
        FigurateIncreasing(kind, k, j);
      }
    }
  }

  /** The 4-digit members of a sequence, ascending. */
  function FilterFourDigit(kind: Kind): (r: seq<int>)
    ensures Ascending(r)
    ensures forall x :: x in r <==> 1000 <= x <= 9999 && IsFigurate(kind, x)
  {
    Window(kind, 1000, 9999)
  }

  // Classification

  /**
   * `n in takewhile(x == n, dropwhile(x < n, generator()))`: the first value
   * that is not below `n` is `n` itself.
   */
  function InSequence(kind: Kind, n: int): (b: bool)
    ensures b <==> IsFigurate(kind, n)
  {
    var k := DropBelow(kind, 1, n);
    if Figurate(kind, k) == n then true
    else
      assert forall j :: 1 <= j ==> Figurate(kind, j) != n by {
        forall j | 1 <= j
          ensures Figurate(kind, j) != n
        {
          if j > k {
            FigurateIncreasing(kind, k, j);
          }
        }
      }
      false
  }

  predicate RankAscending(kinds: seq<Kind>)
  {
    forall i, j :: 0 <= i < j < |kinds| ==> Rank(kinds[i]) < Rank(kinds[j])
  }

  /** The kinds in `kinds`, in order, whose sequence contains `n`. */
  function Select(kinds: seq<Kind>, n: int): (r: seq<Kind>)
    requires RankAscending(kinds)
    ensures RankAscending(r)
    ensures forall kind :: kind in r <==> kind in kinds && IsFigurate(kind, n)
    ensures |r| <= |kinds|
    ensures |r| > 0 ==> Rank(r[0]) >= Rank(kinds[0])
  {
    if |kinds| == 0 then []
    else
      var tail := Select(kinds[1..], n);
      if InSequence(kinds[0], n) then [kinds[0]] + tail else tail
  }

  /** The kinds whose sequence (from index 1) contains `n`, in the fixed order. */
  function ClassifyKinds(n: int): (r: seq<Kind>)
    ensures RankAscending(r)
    ensures forall kind :: kind in r <==> IsFigurate(kind, n)
  {
    Select(AllKinds, n)
  }

  lemma NameInjective(a: Kind, b: Kind)
    ensures Name(a) == Name(b) ==> a == b
  {
    if a != b {
      assert Name(a)[..2] != Name(b)[..2] || Name(a)[2] != Name(b)[2];
    }
  }

  /** The names of `kinds`, in order. */
  function Names(kinds: seq<Kind>): (r: seq<string>)
    ensures |r| == |kinds|
    ensures forall kind :: Name(kind) in r <==> kind in kinds
  {
    if |kinds| == 0 then []
    else
      var tail := Names(kinds[1..]);
      assert forall kind :: Name(kind) == Name(kinds[0]) ==> kind == kinds[0] by {
        forall kind
          ensures Name(kind) == Name(kinds[0]) ==> kind == kinds[0]
        {
          NameInjective(kind, kinds[0]);
        }
      }
      assert forall kind :: kind in kinds <==> kind == kinds[0] || kind in kinds[1..];
      [Name(kinds[0])] + tail
  }

  /** `classify_number`: the names of the kinds whose sequence contains `n`. */
  function Classify(n: int): (r: seq<string>)
    ensures |r| <= |AllKinds|
    ensures forall kind :: Name(kind) in r <==> IsFigurate(kind, n)
  {
    Names(ClassifyKinds(n))
  }

  lemma ClassifyExamples()
    ensures IsFigurate(Triangular, 1) && IsFigurate(Octagonal, 1)
    ensures IsFigurate(Square, 36) && IsFigurate(Triangular, 36) && !IsFigurate(Pentagonal, 36)
    ensures forall kind :: !IsFigurate(kind, 0)
  {
    assert Figurate(Triangular, 1) == 1 && Figurate(Octagonal, 1) == 1;
    assert Figurate(Square, 6) == 36 && Figurate(Triangular, 8) == 36;
    assert !InSequence(Pentagonal, 36);
    forall kind
      ensures !IsFigurate(kind, 0)
    {
      assert !InSequence(kind, 0);
    }
  }

  // Cyclic pairs

  /** `is_cyclic_pair(a, b, divisor)`; a zero divisor raises. */
  function IsCyclicPair(a: int, b: int, divisor: int): (r: Result<bool>)
    ensures r.Err? <==> divisor == 0
    ensures r.Err? ==> r.error == DivisionByZero
  {
    if divisor == 0 then Err(DivisionByZero)
    else Ok(FloorMod(a, divisor) == FloorDiv(b, divisor))
  }

  /**
   * For a positive divisor the pair is cyclic exactly
   * when `b`'s leading part is `a`'s trailing part: b = divisor * (a mod divisor) + (b mod divisor).
   */
  lemma CyclicPairMeaning(a: int, b: int, divisor: int)
    requires divisor > 0
    ensures IsCyclicPair(a, b, divisor) == Ok(true) <==>
            b == divisor * FloorMod(a, divisor) + FloorMod(b, divisor)
  {
    var x, y := FloorMod(a, divisor), FloorDiv(b, divisor);
    assert b == divisor * y + FloorMod(b, divisor);
    if b == divisor * x + FloorMod(b, divisor) {
      assert divisor * x == divisor * y;
      assert divisor * (x - y) == 0;
      assert x == y;
    }
  }

  /** The pair test with the default divisor 100. */
  function Cyclic(a: int, b: int): (r: bool)
    ensures r <==> IsCyclicPair(a, b, 100) == Ok(true)
  {
    FloorModPositive(a, 100);
    FloorModPositive(b, 100);
    a % 100 == b / 100
  }

  /** The three-term example of Project Euler 61 is a cycle, read in its order only. */
  lemma CyclicExample()
    ensures Cyclic(8128, 2882) && Cyclic(2882, 8281) && Cyclic(8281, 8128)
    ensures !Cyclic(2882, 8128)
  {
  }
}
