/**
 Sequence helpers shared by the two change-making solvers: the sum of a coin
 list, what it means to pay a value with a set of denominations, and the two
 orderings the solvers put their coin lists in before they start
 (`sorted(set(coins))` for the dynamic program, `sorted(coins, reverse=True)`
 for the greedy baseline).
 */
module CoinSeqs {

  /** Sum of a list of coin values. */
  function Sum(xs: seq<int>): int
  {
    if xs == [] then 0 else xs[0] + Sum(xs[1..])
  }

  lemma {:induction false} SumAppend(xs: seq<int>, ys: seq<int>)
    ensures Sum(xs + ys) == Sum(xs) + Sum(ys)
  {
    if xs == [] {
      assert xs + ys == ys;
    } else {
      assert (xs + ys)[1..] == xs[1..] + ys;
      SumAppend(xs[1..], ys);
    }
  }

  predicate AllPositive(xs: seq<int>)
  {
    forall i :: 0 <= i < |xs| ==> xs[i] > 0
  }

  /** Every element of `xs` is one of the denominations `ds`. */
  predicate DrawnFrom(xs: seq<int>, ds: seq<int>)
  {
    forall i :: 0 <= i < |xs| ==> xs[i] in ds
  }

  /** `xs` pays exactly `v` using only denominations from `ds` (any number of each). */
  predicate IsChange(ds: seq<int>, xs: seq<int>, v: int)
  {
    DrawnFrom(xs, ds) && Sum(xs) == v
  }

  /** A list drawn from positive denominations has a sum at least its length. */
  lemma {:induction false} SumOfPositive(ds: seq<int>, xs: seq<int>)
    requires AllPositive(ds)
    requires DrawnFrom(xs, ds)
    ensures Sum(xs) >= |xs|
  {
    if xs != [] {
      assert DrawnFrom(xs[1..], ds) by {
        forall i | 0 <= i < |xs[1..]| ensures xs[1..][i] in ds {
          assert xs[1..][i] == xs[i + 1];
        }
      }
      SumOfPositive(ds, xs[1..]);
    }
  }

  predicate StrictlyIncreasing(xs: seq<int>)
  {
    forall i, j :: 0 <= i < j < |xs| ==> xs[i] < xs[j]
  }

  predicate NonIncreasing(xs: seq<int>)
  {
    forall i, j :: 0 <= i < j < |xs| ==> xs[i] >= xs[j]
  }

  /** Inserts `x` into an ascending duplicate-free list, dropping it when already present. */
  function InsertDistinct(x: int, s: seq<int>): (r: seq<int>)
    requires StrictlyIncreasing(s)
    ensures StrictlyIncreasing(r)
    ensures forall y :: y in r <==> y == x || y in s
  {
    if s == [] then [x]
    else if x < s[0] then [x] + s
    else if x == s[0] then s
    else
      var t := InsertDistinct(x, s[1..]);
      assert forall y :: y in s <==> y == s[0] || y in s[1..];
      assert forall y :: y in s[1..] ==> s[0] < y;
      assert forall i :: 0 <= i < |t| ==> t[i] in t;
      [s[0]] + t
  }

  /** The denominations of `coins` in ascending order, each once: `sorted(set(coins))`. */
  function Denominations(coins: seq<int>): (ds: seq<int>)
    ensures StrictlyIncreasing(ds)
    ensures forall x :: x in ds <==> x in coins
  {
    if coins == [] then []
    else
      assert forall y :: y in coins <==> y == coins[0] || y in coins[1..];
      InsertDistinct(coins[0], Denominations(coins[1..]))
  }

  lemma HeadIsMember(s: seq<int>)
    requires s != []
    ensures s[0] in s
  {
  }

  /** An ascending duplicate-free list is determined by its elements. */
  lemma {:induction false} StrictlyIncreasingUnique(a: seq<int>, b: seq<int>)
    requires StrictlyIncreasing(a) && StrictlyIncreasing(b)
    requires forall x :: x in a <==> x in b
    ensures a == b
  {
    if a == [] {
      if b != [] {
        HeadIsMember(b);
        assert false;
      }
    } else {
      assert a[0] in a;
      assert b != [] by {
        assert a[0] in b;
      }
      assert b[0] in b;
      assert a[0] == b[0] by {
        assert a[0] in b;
        assert b[0] in a;
      }
      forall x
        ensures x in a[1..] <==> x in b[1..]
      {
        assert x in a <==> x == a[0] || x in a[1..];
        assert x in b <==> x == b[0] || x in b[1..];
        assert a[0] !in a[1..];
        assert b[0] !in b[1..];
      }
      StrictlyIncreasingUnique(a[1..], b[1..]);
      assert a == [a[0]] + a[1..];
      assert b == [b[0]] + b[1..];
    }
  }

  lemma NonIncreasingTail(a: seq<int>)
    requires NonIncreasing(a) && a != []
    ensures NonIncreasing(a[1..])
  {
    forall i, j | 0 <= i < j < |a[1..]|
      ensures a[1..][i] >= a[1..][j]
    {
      assert a[1..][i] == a[i + 1] && a[1..][j] == a[j + 1];
    }
  }

  /** Inserts `x` into a non-increasing list, keeping it non-increasing. */
  function InsertDesc(x: int, s: seq<int>): (r: seq<int>)
    requires NonIncreasing(s)
    ensures NonIncreasing(r)
    ensures multiset(r) == multiset(s) + multiset{x}
    ensures r != [] && (r[0] == x || (s != [] && r[0] == s[0]))
  {
    if s == [] then [x]
    else if x >= s[0] then [x] + s
    else
      NonIncreasingTail(s);
      var t := InsertDesc(x, s[1..]);
      assert s == [s[0]] + s[1..];
      assert multiset(s) == multiset{s[0]} + multiset(s[1..]);
      assert multiset([s[0]] + t) == multiset{s[0]} + multiset(t);
      assert t[0] <= s[0];
      PrependNonIncreasing(s[0], t);
      [s[0]] + t
  }

  lemma PrependNonIncreasing(h: int, t: seq<int>)
    requires NonIncreasing(t)
    requires t != [] ==> t[0] <= h
    ensures NonIncreasing([h] + t)
  {
    forall i, j | 0 <= i < j < |[h] + t|
      ensures ([h] + t)[i] >= ([h] + t)[j]
    {
      if i > 0 {
        assert ([h] + t)[i] == t[i - 1];
      }
      assert ([h] + t)[j] == t[j - 1];
    }
  }

  /** The coins largest first: `sorted(coins, reverse=True)`. */
  function SortDesc(coins: seq<int>): (r: seq<int>)
    ensures NonIncreasing(r)
    ensures multiset(r) == multiset(coins)
  {
    if coins == [] then []
    else
      assert coins == [coins[0]] + coins[1..];
      InsertDesc(coins[0], SortDesc(coins[1..]))
  }

  /** A non-increasing permutation is unique, so `SortDesc` is the one the sort produces. */
  lemma {:induction false} NonIncreasingUnique(a: seq<int>, b: seq<int>)
    requires NonIncreasing(a) && NonIncreasing(b)
    requires multiset(a) == multiset(b)
    ensures a == b
  {
    if a == [] {
      assert |multiset(b)| == 0;
    } else {
      assert |b| == |multiset(b)| == |multiset(a)| == |a|;
      assert a[0] == b[0] by {
        assert a[0] in multiset(b);
        assert b[0] in multiset(a);
      }
      assert a == [a[0]] + a[1..];
      assert b == [b[0]] + b[1..];
      assert multiset(a) == multiset{a[0]} + multiset(a[1..]);
      assert multiset(b) == multiset{b[0]} + multiset(b[1..]);
      assert multiset(a[1..]) == multiset(a) - multiset{a[0]};
      assert multiset(b[1..]) == multiset(b) - multiset{b[0]};
      assert NonIncreasing(a[1..]) && NonIncreasing(b[1..]) by {
        NonIncreasingTail(a);
        NonIncreasingTail(b);
      }
      NonIncreasingUnique(a[1..], b[1..]);
    }
  }
}
