/** The cyclic-chain enumerator and the search of Project Euler 61. */
module CyclicSearch {
  import opened Figurate

  // Sequences of sequences

  /** Every sequence of `tails` with `x` put in front. */
  function Prepend<T(!new)>(x: T, tails: seq<seq<T>>): (r: seq<seq<T>>)
    ensures |r| == |tails|
    ensures forall t :: t in r <==> |t| >= 1 && t[0] == x && t[1..] in tails
  {
    var r := seq(|tails|, i requires 0 <= i < |tails| => [x] + tails[i]);
    assert forall t :: |t| >= 1 && t[0] == x && t[1..] in tails ==> t in r by {
      forall t | |t| >= 1 && t[0] == x && t[1..] in tails
        ensures t in r
      {
        var i :| 0 <= i < |tails| && tails[i] == t[1..];
        assert r[i] == t;
      }
    }
    assert forall t :: t in r ==> |t| >= 1 && t[0] == x && t[1..] in tails by {
      forall t | t in r
        ensures |t| >= 1 && t[0] == x && t[1..] in tails
      {
        var i :| 0 <= i < |r| && r[i] == t;
        assert t[1..] == tails[i];
      }
    }
    r
  }

  // build_next_cyclic_numbers

  /** Each element of `t` is taken from the collection at the same position. */
  predicate Picks(t: seq<int>, cands: seq<seq<int>>)
  {
    |t| == |cands| && forall i :: 0 <= i < |t| ==> t[i] in cands[i]
  }

  /** `seed` -> t[0] -> t[1] -> ... is a chain of cyclic pairs. */
  predicate Linked(seed: int, t: seq<int>)
    decreases |t|
  {
    |t| == 0 || (Cyclic(seed, t[0]) && Linked(t[0], t[1..]))
  }

  /** The chains `build_next_cyclic_numbers(seed, *cands)` yields, in its order. */
  function Chains(seed: int, cands: seq<seq<int>>): (r: seq<seq<int>>)
    ensures forall t :: t in r ==> |t| == |cands|
    decreases |cands|, 1, 0
  {
    if |cands| == 0 then [[]] else Extend(seed, cands[0], cands[1..])
  }

  /** The chains whose first element is taken from `opts`, scanned in order. */
  function Extend(seed: int, opts: seq<int>, rest: seq<seq<int>>): (r: seq<seq<int>>)
    ensures forall t :: t in r ==> |t| == |rest| + 1 && t[0] in opts && Cyclic(seed, t[0])
    decreases |rest| + 1, 0, |opts|
  {
    if |opts| == 0 then []
    else
      (if Cyclic(seed, opts[0]) then Prepend(opts[0], Chains(opts[0], rest)) else [])
      + Extend(seed, opts[1..], rest)
  }

  lemma {:induction false} ExtendMembers(seed: int, opts: seq<int>, rest: seq<seq<int>>, t: seq<int>)
    ensures t in Extend(seed, opts, rest) <==>
            |t| >= 1 && t[0] in opts && Cyclic(seed, t[0]) && t[1..] in Chains(t[0], rest)
    decreases |opts|
  {
    if |opts| > 0 {
      ExtendMembers(seed, opts[1..], rest, t);
      if |t| >= 1 {
        assert t[0] in opts <==> t[0] == opts[0] || t[0] in opts[1..] by {
          assert opts == [opts[0]] + opts[1..];
        }
      }
    }
  }

  lemma PicksCons(t: seq<int>, cands: seq<seq<int>>)
    requires |t| >= 1 && |cands| >= 1
    ensures Picks(t, cands) <==> t[0] in cands[0] && Picks(t[1..], cands[1..])
  {
    if t[0] in cands[0] && Picks(t[1..], cands[1..]) {
      forall i | 1 <= i < |t|
        ensures t[i] in cands[i]
      {
        assert t[1..][i - 1] in cands[1..][i - 1];
      }
    }
  }

  /** The enumerator yields exactly the chains picking one number per collection. */
  lemma {:induction false} ChainsExactly(seed: int, cands: seq<seq<int>>, t: seq<int>)
    ensures t in Chains(seed, cands) <==> Picks(t, cands) && Linked(seed, t)
    decreases |cands|
  {
    if |cands| == 0 {
      assert Chains(seed, cands) == [[]];
    } else {
      ExtendMembers(seed, cands[0], cands[1..], t);
      if |t| >= 1 {
        ChainsExactly(t[0], cands[1..], t[1..]);
        PicksCons(t, cands);
      }
    }
  }

  // itertools.permutations

  function Remove<T(!new)>(xs: seq<T>, i: int): (r: seq<T>)
    requires 0 <= i < |xs|
    ensures |r| == |xs| - 1
  {
    xs[..i] + xs[i + 1..]
  }

  /** The full-length orderings of `xs` in itertools order (lexicographic by position). */
  function Permutations<T(!new)>(xs: seq<T>): (r: seq<seq<T>>)
    ensures forall p :: p in r ==> |p| == |xs|
    decreases |xs|, 1, 0
  {
    if |xs| == 0 then [[]] else PermutationsFrom(xs, 0)
  }

  /** The orderings that start with `xs[j]` for `j >= i`. */
  function PermutationsFrom<T(!new)>(xs: seq<T>, i: nat): (r: seq<seq<T>>)
    requires i <= |xs|
    ensures forall p :: p in r ==> |p| == |xs| && i < |xs| && p[0] in xs[i..]
    decreases |xs|, 0, |xs| - i
  {
    if i == |xs| then []
    else Prepend(xs[i], Permutations(Remove(xs, i))) + PermutationsFrom(xs, i + 1)
  }

  /** `p` is `xs[j]` followed by an ordering of the other elements. */
  ghost predicate StartsWith<T(!new)>(xs: seq<T>, j: int, p: seq<T>)
    requires 0 <= j < |xs|
  {
    |p| >= 1 && p[0] == xs[j] && p[1..] in Permutations(Remove(xs, j))
  }

  lemma {:induction false} PermutationsFromMembers<T(!new)>(xs: seq<T>, i: nat, p: seq<T>)
    requires i <= |xs|
    ensures p in PermutationsFrom(xs, i) <==> exists j :: i <= j < |xs| && StartsWith(xs, j, p)
    decreases |xs| - i
  {
    if i < |xs| {
      PermutationsFromMembers(xs, i + 1, p);
      var head := Prepend(xs[i], Permutations(Remove(xs, i)));
      assert PermutationsFrom(xs, i) == head + PermutationsFrom(xs, i + 1);
      assert p in head <==> StartsWith(xs, i, p);
      if exists j :: i <= j < |xs| && StartsWith(xs, j, p) {
        var j :| i <= j < |xs| && StartsWith(xs, j, p);
        if j > i {
          assert p in PermutationsFrom(xs, i + 1);
        }
      }
    }
  }

  lemma RemoveMultiset<T(!new)>(xs: seq<T>, i: int)
    requires 0 <= i < |xs|
    ensures multiset(Remove(xs, i)) + multiset{xs[i]} == multiset(xs)
  {
    assert xs == xs[..i] + [xs[i]] + xs[i + 1..];
  }

  lemma HeadMultiset<T(!new)>(p: seq<T>)
    requires |p| >= 1
    ensures multiset(p) == multiset{p[0]} + multiset(p[1..])
  {
    assert p == [p[0]] + p[1..];
  }

  /** Every ordering is a rearrangement of `xs`. */
  lemma {:induction false} PermutationsSound<T(!new)>(xs: seq<T>, p: seq<T>)
    ensures p in Permutations(xs) ==> multiset(p) == multiset(xs)
    decreases |xs|
  {
    if |xs| > 0 && p in Permutations(xs) {
      PermutationsFromMembers(xs, 0, p);
      var j :| 0 <= j < |xs| && StartsWith(xs, j, p);
      PermutationsSound(Remove(xs, j), p[1..]);
      RemoveMultiset(xs, j);
      HeadMultiset(p);
    }
  }

  /** Every rearrangement of `xs` is among the orderings. */
  lemma {:induction false} PermutationsComplete<T(!new)>(xs: seq<T>, p: seq<T>)
    ensures multiset(p) == multiset(xs) ==> p in Permutations(xs)
    decreases |xs|
  {
    if multiset(p) == multiset(xs) {
      assert |p| == |multiset(p)| == |multiset(xs)| == |xs|;
      if |xs| == 0 {
        assert p == [];
      } else {
        HeadMultiset(p);
        assert p[0] in multiset(xs);
        var j :| 0 <= j < |xs| && xs[j] == p[0];
        RemoveMultiset(xs, j);
        assert multiset(p[1..]) == multiset(p) - multiset{p[0]};
        assert multiset(Remove(xs, j)) == multiset(xs) - multiset{xs[j]};
        PermutationsComplete(Remove(xs, j), p[1..]);
        assert StartsWith(xs, j, p);
        PermutationsFromMembers(xs, 0, p);
      }
    }
  }

  /** The orderings are exactly the rearrangements of `xs`. */
  lemma PermutationsExactly<T(!new)>(xs: seq<T>, p: seq<T>)
    ensures p in Permutations(xs) <==> multiset(p) == multiset(xs)
  {
    PermutationsSound(xs, p);
    PermutationsComplete(xs, p);
  }

  // find_the_answer

  function Elements(s: seq<int>): set<int>
  {
    set y | y in s
  }

  predicate Distinct(s: seq<int>)
  {
    forall i, j :: 0 <= i < j < |s| ==> s[i] != s[j]
  }

  /** `len(set(s)) == len(s)` is the test for pairwise distinct elements. */
  lemma {:induction false} ElementsCount(s: seq<int>)
    ensures |Elements(s)| <= |s|
    ensures |Elements(s)| == |s| <==> Distinct(s)
    decreases |s|
  {
    if |s| > 0 {
      var init, last := s[..|s| - 1], s[|s| - 1];
      ElementsCount(init);
      assert s == init + [last];
      assert Elements(s) == Elements(init) + {last};
      if last in init {
        var i :| 0 <= i < |init| && init[i] == last;
        assert s[i] == s[|s| - 1];
        assert Elements(s) == Elements(init);
      } else {
        assert |Elements(s)| == |Elements(init)| + 1;
        DistinctSnoc(init, last);
      }
    }
  }

  /** Appending a new element keeps a sequence distinct, and a distinct
      sequence stays distinct without its last element. */
  lemma DistinctSnoc(init: seq<int>, last: int)
    requires last !in init
    ensures Distinct(init + [last]) <==> Distinct(init)
  {
    var s := init + [last];
    if Distinct(init) {
      forall i, j | 0 <= i < j < |s|
        ensures s[i] != s[j]
      {
        if j < |s| - 1 {
          assert s[i] == init[i] && s[j] == init[j];
        } else {
          assert s[i] == init[i];
        }
      }
    }
    if Distinct(s) {
      forall i, j | 0 <= i < j < |init|
        ensures init[i] != init[j]
      {
        assert s[i] == init[i] && s[j] == init[j];
      }
    }
  }

  predicate Accepts(x: int, t: seq<int>)
  {
    |t| == 5 && Cyclic(t[|t| - 1], x) && |Elements([x] + t)| == |[x] + t|
  }

  /** Some ordering in `perms` has a chain after `x` that is accepted and makes `r`. */
  ghost predicate FoundAfter(x: int, perms: seq<seq<seq<int>>>, r: seq<int>)
  {
    exists p, t :: p in perms && t in Chains(x, p) && Accepts(x, t) && r == [x] + t
  }

  /** No ordering in `perms` has an accepted chain after `x`. */
  ghost predicate NoneAfter(x: int, perms: seq<seq<seq<int>>>)
  {
    forall p, t :: p in perms && t in Chains(x, p) ==> !Accepts(x, t)
  }

  /** tails[i] is accepted and no earlier tail is. */
  predicate FirstAccepted(x: int, tails: seq<seq<int>>, i: int)
  {
    0 <= i < |tails| && Accepts(x, tails[i]) && forall j :: 0 <= j < i ==> !Accepts(x, tails[j])
  }

  /** The first accepted chain of `tails`, with `x` in front, or []. */
  function SearchTails(x: int, tails: seq<seq<int>>): (r: seq<int>)
    ensures r != [] ==> exists i :: FirstAccepted(x, tails, i) && r == [x] + tails[i]
    ensures r == [] <==> forall t :: t in tails ==> !Accepts(x, t)
  {
    if |tails| == 0 then []
    else if Accepts(x, tails[0]) then
      assert FirstAccepted(x, tails, 0);
      [x] + tails[0]
    else
      var r := SearchTails(x, tails[1..]);
      assert forall t :: t in tails <==> t == tails[0] || t in tails[1..];
      if r != [] then
        var i :| FirstAccepted(x, tails[1..], i) && r == [x] + tails[1..][i];
        assert FirstAccepted(x, tails, i + 1);
        r
      else
        r
  }

  /** The first accepted chain over the orderings `perms` of the collections. */
  function SearchOrders(x: int, perms: seq<seq<seq<int>>>): (r: seq<int>)
    ensures r != [] ==> FoundAfter(x, perms, r)
    ensures r == [] <==> NoneAfter(x, perms)
  {
    if |perms| == 0 then []
    else
      var c := SearchTails(x, Chains(x, perms[0]));
      if c != [] then
        assert perms[0] in perms;
        c
      else
        var r := SearchOrders(x, perms[1..]);
        assert forall p :: p in perms <==> p == perms[0] || p in perms[1..];
        r
  }

  /** The first accepted chain over the first numbers `firsts`. */
  function SearchFirsts(firsts: seq<int>, perms: seq<seq<seq<int>>>): (r: seq<int>)
    ensures r != [] ==> exists x :: x in firsts && FoundAfter(x, perms, r)
    ensures r == [] <==> forall x :: x in firsts ==> NoneAfter(x, perms)
  {
    if |firsts| == 0 then []
    else
      var c := SearchOrders(firsts[0], perms);
      if c != [] then
        assert firsts[0] in firsts;
        c
      else
        var r := SearchFirsts(firsts[1..], perms);
        assert forall x :: x in firsts <==> x == firsts[0] || x in firsts[1..];
        r
  }

  /** The 4-digit windows of the kinds, in the given order. */
  function Windows(order: seq<Kind>): (r: seq<seq<int>>)
    ensures |r| == |order|
    ensures forall i :: 0 <= i < |r| ==> r[i] == FilterFourDigit(order[i])
  {
    seq(|order|, i requires 0 <= i < |order| => FilterFourDigit(order[i]))
  }

  function WindowsOf(orders: seq<seq<Kind>>): (r: seq<seq<seq<int>>>)
    ensures |r| == |orders|
    ensures forall i :: 0 <= i < |r| ==> r[i] == Windows(orders[i])
  {
    seq(|orders|, i requires 0 <= i < |orders| => Windows(orders[i]))
  }

  /** c[i + 1] belongs to the kind order[i]. */
  ghost predicate Assigned(order: seq<Kind>, c: seq<int>)
  {
    |c| == |order| + 1 && forall i :: 0 <= i < |order| ==> IsFigurate(order[i], c[i + 1])
  }

  /**
   * A solution: distinct 4-digit numbers, the first of kind `first` and the
   * others of the kinds `others` in some order, each cyclic to the next and
   * the last cyclic to the first.
   */
  ghost predicate IsAnswer(first: Kind, others: seq<Kind>, c: seq<int>)
  {
    && |c| == |others| + 1
    && Distinct(c)
    && (forall i :: 0 <= i < |c| ==> 1000 <= c[i] <= 9999)
    && IsFigurate(first, c[0])
    && Linked(c[0], c[1..])
    && Cyclic(c[|c| - 1], c[0])
    && exists order :: multiset(order) == multiset(others) && Assigned(order, c)
  }

  lemma PicksWindows(t: seq<int>, order: seq<Kind>)
    ensures Picks(t, Windows(order)) <==>
            |t| == |order| && forall i :: 0 <= i < |t| ==> 1000 <= t[i] <= 9999 && IsFigurate(order[i], t[i])
  {
  }

  /** The parts of a solution, one by one. */
  lemma AnswerFromParts(first: Kind, others: seq<Kind>, c: seq<int>, order: seq<Kind>)
    requires |c| == |others| + 1 && Distinct(c)
    requires forall i :: 0 <= i < |c| ==> 1000 <= c[i] <= 9999
    requires IsFigurate(first, c[0]) && Linked(c[0], c[1..]) && Cyclic(c[|c| - 1], c[0])
    requires multiset(order) == multiset(others) && Assigned(order, c)
    ensures IsAnswer(first, others, c)
  {
  }

  lemma PickedFromWindows(t: seq<int>, order: seq<Kind>, c: seq<int>)
    requires |c| == |order| + 1 && t == c[1..] && 1000 <= c[0] <= 9999
    requires Picks(t, Windows(order))
    ensures Assigned(order, c)
    ensures forall i :: 0 <= i < |c| ==> 1000 <= c[i] <= 9999
  {
    forall i | 1 <= i < |c|
      ensures 1000 <= c[i] <= 9999 && IsFigurate(order[i - 1], c[i])
    {
      assert c[i] == t[i - 1];
      assert t[i - 1] in FilterFourDigit(order[i - 1]);
    }
  }

  /** A chain the search accepts is a solution. */
  lemma AcceptedIsAnswer(first: Kind, others: seq<Kind>, x: int, p: seq<seq<int>>, t: seq<int>)
    requires |others| == 5
    requires x in FilterFourDigit(first) && p in WindowsOf(Permutations(others))
    requires t in Chains(x, p) && Accepts(x, t)
    ensures IsAnswer(first, others, [x] + t)
  {
    var orders := Permutations(others);
    var k :| 0 <= k < |orders| && WindowsOf(orders)[k] == p;
    var order := orders[k];
    assert p == Windows(order);
    PermutationsExactly(others, order);
    ChainsExactly(x, p, t);
    AcceptedFromOrder(first, others, x, t, order);
  }

  lemma AcceptedFromOrder(first: Kind, others: seq<Kind>, x: int, t: seq<int>, order: seq<Kind>)
    requires |others| == 5 && multiset(order) == multiset(others)
    requires 1000 <= x <= 9999 && IsFigurate(first, x)
    requires Picks(t, Windows(order)) && Linked(x, t) && Accepts(x, t)
    ensures IsAnswer(first, others, [x] + t)
  {
    var c := [x] + t;
    assert |order| == |others| by {
      assert |order| == |multiset(order)|;
    }
    assert c[1..] == t;
    PickedFromWindows(t, order, c);
    AcceptedDistinct(x, t);
    AnswerFromParts(first, others, c, order);
  }

  lemma AcceptedDistinct(x: int, t: seq<int>)
    requires Accepts(x, t)
    ensures |[x] + t| == 6 && Distinct([x] + t) && Cyclic(([x] + t)[5], x)
  {
    ElementsCount([x] + t);
  }

  /** Every solution is among the chains the search tests, and is accepted. */
  lemma AnswerIsSearched(first: Kind, others: seq<Kind>, c: seq<int>)
    requires |others| == 5 && IsAnswer(first, others, c)
    ensures c[0] in FilterFourDigit(first)
    ensures exists p :: p in WindowsOf(Permutations(others)) && c[1..] in Chains(c[0], p) && Accepts(c[0], c[1..])
  {
    var order :| multiset(order) == multiset(others) && Assigned(order, c);
    assert 1000 <= c[0] <= 9999;
    SearchedFromParts(others, c, order);
  }

  lemma SearchedFromParts(others: seq<Kind>, c: seq<int>, order: seq<Kind>)
    requires |others| == 5 && |c| == 6 && Distinct(c)
    requires forall i :: 0 <= i < |c| ==> 1000 <= c[i] <= 9999
    requires Linked(c[0], c[1..]) && Cyclic(c[5], c[0])
    requires multiset(order) == multiset(others) && Assigned(order, c)
    ensures exists p :: p in WindowsOf(Permutations(others)) && c[1..] in Chains(c[0], p) && Accepts(c[0], c[1..])
  {
    var orders := Permutations(others);
    PermutationsExactly(others, order);
    var k :| 0 <= k < |orders| && orders[k] == order;
    var p := Windows(order);
    assert p in WindowsOf(orders) by {
      assert WindowsOf(orders)[k] == p;
    }
    var t := c[1..];
    WindowsPicked(t, order, c);
    ChainsExactly(c[0], p, t);
    AcceptsDistinct(c);
  }

  lemma WindowsPicked(t: seq<int>, order: seq<Kind>, c: seq<int>)
    requires |c| == |order| + 1 && t == c[1..]
    requires forall i :: 0 <= i < |c| ==> 1000 <= c[i] <= 9999
    requires Assigned(order, c)
    ensures Picks(t, Windows(order))
  {
    forall i | 0 <= i < |t|
      ensures t[i] in FilterFourDigit(order[i])
    {
      assert t[i] == c[i + 1];
    }
  }

  lemma AcceptsDistinct(c: seq<int>)
    requires |c| == 6 && Distinct(c) && Cyclic(c[5], c[0])
    ensures Accepts(c[0], c[1..])
  {
    ElementsCount(c);
    assert [c[0]] + c[1..] == c;
  }

  /**
   * `find_the_answer` for a first kind and the five other kinds: the first
   * solution in search order, or [] exactly when there is none.
   */
  function FindCycle(first: Kind, others: seq<Kind>): (r: seq<int>)
    requires |others| == 5
    ensures r != [] ==> IsAnswer(first, others, r)
    ensures r == [] <==> forall c :: !IsAnswer(first, others, c)
  {
    var r := SearchFirsts(FilterFourDigit(first), WindowsOf(Permutations(others)));
    FoundIsAnswer(first, others, r);
    AnswersAreFound(first, others);
    r
  }

  lemma FoundIsAnswer(first: Kind, others: seq<Kind>, r: seq<int>)
    requires |others| == 5
    requires r == SearchFirsts(FilterFourDigit(first), WindowsOf(Permutations(others)))
    ensures r != [] ==> IsAnswer(first, others, r)
  {
    if r != [] {
      var x :| x in FilterFourDigit(first) && FoundAfter(x, WindowsOf(Permutations(others)), r);
      FoundAfterIsAnswer(first, others, x, r);
    }
  }

  lemma FoundAfterIsAnswer(first: Kind, others: seq<Kind>, x: int, r: seq<int>)
    requires |others| == 5
    requires x in FilterFourDigit(first) && FoundAfter(x, WindowsOf(Permutations(others)), r)
    ensures IsAnswer(first, others, r)
  {
    var p, t :| p in WindowsOf(Permutations(others)) && t in Chains(x, p) && Accepts(x, t) && r == [x] + t;
    AcceptedIsAnswer(first, others, x, p, t);
  }

  lemma AnswersAreFound(first: Kind, others: seq<Kind>)
    requires |others| == 5
    ensures forall c :: IsAnswer(first, others, c) ==>
      c[0] in FilterFourDigit(first) && !NoneAfter(c[0], WindowsOf(Permutations(others)))
  {
    forall c | IsAnswer(first, others, c)
      ensures c[0] in FilterFourDigit(first) && !NoneAfter(c[0], WindowsOf(Permutations(others)))
    {
      AnswerIsSearched(first, others, c);
    }
  }

  /** The program's search: a triangular number first, then the other five kinds. */
  function FindAnswer(): (r: seq<int>)
    ensures r != [] ==> IsAnswer(Triangular, AllKinds[1..], r)
    ensures r == [] <==> forall c :: !IsAnswer(Triangular, AllKinds[1..], c)
  {
    FindCycle(Triangular, AllKinds[1..])
  }
}
