/** The source's test program: six fractions, reduced and inserted, a rank
    query, one removal and the same rank query again. */
module Scenario {
  import opened Rationals
  import opened RbShapes
  import opened OrderStatistics

  /** The tail of a sorted sequence is sorted. */
  lemma SortedTail(a: seq<Rational>)
    requires Sorted(a) && |a| > 0
    ensures Sorted(a[1..])
  {
    forall i, j | 0 <= i < j < |a| - 1
      ensures Le(a[1..][i], a[1..][j])
    {
      assert a[1..][i] == a[i + 1] && a[1..][j] == a[j + 1];
    }
  }

  /** Two sorted sequences with the same multiset of keys start with the same key. */
  lemma SortedHeads(a: seq<Rational>, b: seq<Rational>)
    requires Sorted(a) && Sorted(b) && multiset(a) == multiset(b) && |a| > 0
    ensures |b| > 0 && a[0] == b[0]
  {
    assert a[0] in multiset(b);
    var i :| 0 <= i < |b| && b[i] == a[0];
    assert b[0] in multiset(a);
    var j :| 0 <= j < |a| && a[j] == b[0];
    assert Le(b[0], a[0]) && Le(a[0], b[0]);
    LessIsStrictTotalOrder(a[0], b[0], a[0]);
  }

  /** Removing equal heads keeps the multisets equal. */
  lemma TailMultisets(a: seq<Rational>, b: seq<Rational>)
    requires |a| > 0 && |b| > 0 && a[0] == b[0] && multiset(a) == multiset(b)
    ensures multiset(a[1..]) == multiset(b[1..])
  {
    assert a == [a[0]] + a[1..];
    assert b == [b[0]] + b[1..];
    assert multiset(a[1..]) == multiset(a) - multiset{a[0]};
    assert multiset(b[1..]) == multiset(b) - multiset{b[0]};
  }

  /** A sorted sequence is determined by its multiset of keys. */
  lemma {:induction false} SortedUnique(a: seq<Rational>, b: seq<Rational>)
    requires Sorted(a) && Sorted(b) && multiset(a) == multiset(b)
    ensures a == b
    decreases |a|
  {
    if |a| > 0 {
      SortedHeads(a, b);
      TailMultisets(a, b);
      SortedTail(a);
      SortedTail(b);
      SortedUnique(a[1..], b[1..]);
      assert a == [a[0]] + a[1..] && b == [b[0]] + b[1..];
    } else {
      assert |b| == |multiset(b)|;
    }
  }

  /** A sequence whose neighbours are in strict key order is sorted. */
  lemma {:induction false} SortedFromSteps(s: seq<Rational>)
    requires forall i | 0 <= i < |s| - 1 :: Less(s[i], s[i + 1])
    ensures Sorted(s)
    decreases |s|
  {
    if |s| > 1 {
      var t := s[1..];
      forall i | 0 <= i < |t| - 1
        ensures Less(t[i], t[i + 1])
      {
        assert t[i] == s[i + 1] && t[i + 1] == s[i + 2];
      }
      SortedFromSteps(t);
      forall j | 1 <= j < |s|
        ensures Le(s[0], s[j])
      {
        assert t[j - 1] == s[j] && t[0] == s[1];
        if j > 1 {
          assert Le(t[0], t[j - 1]);
        }
        LessIsStrictTotalOrder(s[0], s[1], s[j]);
        LessIsStrictTotalOrder(s[1], s[j], s[0]);
      }
      forall i, j | 0 <= i < j < |s|
        ensures Le(s[i], s[j])
      {
        if i > 0 {
          assert t[i - 1] == s[i] && t[j - 1] == s[j];
        }
      }
    }
  }

  /** The six inputs of the test program. */
  function Inputs(): seq<Rational> {
    [Rational(3, 2), Rational(1, 2), Rational(5, 2), Rational(2, 1), Rational(7, 3), Rational(4, 1)]
  }

  /** The inputs in key order, and the same without 3/2. */
  function InOrder(): seq<Rational> {
    [Rational(1, 2), Rational(2, 1), Rational(3, 2), Rational(4, 1), Rational(5, 2), Rational(7, 3)]
  }

  function AfterRemoval(): seq<Rational> {
    [Rational(1, 2), Rational(2, 1), Rational(4, 1), Rational(5, 2), Rational(7, 3)]
  }

  /** Each fraction of ns in lowest terms. */
  function ReducedAll(ns: seq<Rational>): (rs: seq<Rational>)
    requires forall i | 0 <= i < |ns| :: ns[i].numerator >= 0 && ns[i].denominator > 0
    ensures |rs| == |ns| && forall i | 0 <= i < |ns| :: rs[i] == Reduced(ns[i]) && IsReduced(rs[i])
    decreases |ns|
  {
    if |ns| == 0 then []
    else
      ReducedIsReduced(ns[|ns| - 1]);
      ReducedAll(ns[..|ns| - 1]) + [Reduced(ns[|ns| - 1])]
  }

  /** The six inputs are already in lowest terms. */
  lemma InputsReduced()
    ensures forall i | 0 <= i < |Inputs()| :: Inputs()[i].numerator >= 0 && Inputs()[i].denominator > 0
    ensures ReducedAll(Inputs()) == Inputs()
  {
    assert Gcd(3, 2) == 1 && Gcd(1, 2) == 1 && Gcd(5, 2) == 1;
    assert Gcd(2, 1) == 1 && Gcd(7, 3) == 1 && Gcd(4, 1) == 1;
  }

  /** InOrder holds the inputs in key order. */
  lemma InOrderSorted()
    ensures Sorted(InOrder()) && multiset(InOrder()) == multiset(Inputs())
  {
    SortedFromSteps(InOrder());
  }

  /** AfterRemoval holds the inputs without 3/2, in key order. */
  lemma AfterRemovalSorted()
    ensures Sorted(AfterRemoval()) && multiset(AfterRemoval()) == multiset(InOrder()) - multiset{Rational(3, 2)}
  {
    SortedFromSteps(AfterRemoval());
  }

  /** Reducing one more fraction appends its reduced form. */
  lemma ReducedAllStep(ns: seq<Rational>, i: int)
    requires forall j | 0 <= j < |ns| :: ns[j].numerator >= 0 && ns[j].denominator > 0
    requires 0 <= i < |ns|
    ensures ReducedAll(ns[..i + 1]) == ReducedAll(ns[..i]) + [Reduced(ns[i])]
  {
    assert ns[..i + 1][..i] == ns[..i];
  }

  /** Any sorted arrangement of the six inputs has 3/2 third. */
  lemma ThirdOfInputs(c: seq<Rational>)
    requires Sorted(c) && multiset(c) == multiset(Inputs())
    ensures c == InOrder() && |c| == 6 && c[2] == Rational(3, 2) && Rational(3, 2) in c
  {
    InOrderSorted();
    SortedUnique(c, InOrder());
  }

  /** Any sorted arrangement of the inputs without 3/2 has 4/1 third. */
  lemma ThirdAfterRemoval(c: seq<Rational>)
    requires Sorted(c) && multiset(c) == multiset(InOrder()) - multiset{Rational(3, 2)}
    ensures c == AfterRemoval() && |c| == 5 && c[2] == Rational(4, 1)
  {
    AfterRemovalSorted();
    SortedUnique(c, AfterRemoval());
  }

  /** The loop of the test program: reduce each fraction and insert it. */
  method BuildTree(numbers: seq<Rational>) returns (tree: RedBlackTree)
    requires forall i | 0 <= i < |numbers| :: numbers[i].numerator >= 0 && numbers[i].denominator > 0
    ensures fresh(tree) && tree.Valid()
    ensures multiset(tree.Contents()) == multiset(ReducedAll(numbers))
  {
    tree := new RedBlackTree();
    var i := 0;
    while i < |numbers|
      invariant 0 <= i <= |numbers|
      invariant fresh(tree) && tree.Valid()
      invariant multiset(tree.Contents()) == multiset(ReducedAll(numbers[..i]))
    {
      var r := Simplify(numbers[i]);
      tree.Insert(r);
      ReducedAllStep(numbers, i);
      i := i + 1;
    }
    assert numbers[..i] == numbers;
  }

  /** The third key in order is 3/2, and 4/1 once 3/2 has been removed. */
  method DemoScenario() returns (first: Rational, second: Rational)
    ensures first == Rational(3, 2) && second == Rational(4, 1)
  {
    var numbers := Inputs();
    InputsReduced();
    var tree := BuildTree(numbers);
    ThirdOfInputs(tree.Contents());
    first := tree.FindKth(3);
    tree.Remove(Rational(3, 2));
    ThirdAfterRemoval(tree.Contents());
    second := tree.FindKth(3);
  }
}
