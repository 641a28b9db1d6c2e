/**
 The greedy baseline `greedy_largest_first`: sort the coins largest first
 and, for each coin in turn, take it as long as it still fits in what
 remains of V. There is no validation: the caller supplies positive coins.
 */
module GreedyBaseline {
  import opened CoinSeqs

  /** The coins the two loops take from `cs`, in order, when `rem` is left to pay. */
  function GreedyTake(cs: seq<int>, rem: int): seq<int>
    requires AllPositive(cs)
    decreases |cs|, rem
  {
    if cs == [] then []
    else if cs[0] <= rem then [cs[0]] + GreedyTake(cs, rem - cs[0])
    else GreedyTake(cs[1..], rem)
  }

  lemma SortDescPositive(coins: seq<int>)
    requires AllPositive(coins)
    ensures AllPositive(SortDesc(coins))
    ensures forall x :: x in SortDesc(coins) <==> x in coins
  {
    var cs := SortDesc(coins);
    forall x
      ensures x in cs <==> x in coins
    {
      assert x in cs <==> x in multiset(cs);
      assert x in coins <==> x in multiset(coins);
    }
    forall i | 0 <= i < |cs|
      ensures cs[i] > 0
    {
      var y := cs[i];
      assert y in cs;
      assert y in coins;
    }
  }

  /** `greedy_largest_first(coins, V)`'s coin list. */
  function Greedy(coins: seq<int>, V: int): seq<int>
    requires AllPositive(coins)
  {
    SortDescPositive(coins);
    GreedyTake(SortDesc(coins), V)
  }

  /**
   The greedy choice: every coin of `xs` is one of `ds`, fits in what is
   still owed of `v` after the coins before it, and is the largest coin of
   `ds` that fits there.
   */
  ghost predicate TakesLargestFitting(xs: seq<int>, ds: seq<int>, v: int)
  {
    forall i :: 0 <= i < |xs| ==>
      && xs[i] in ds
      && xs[i] <= v - Sum(xs[..i])
      && forall c :: c in ds && c <= v - Sum(xs[..i]) ==> c <= xs[i]
  }

  /** No coin of `ds` fits in what `xs` leaves of `v`. */
  ghost predicate NothingFits(xs: seq<int>, ds: seq<int>, v: int)
  {
    forall c :: c in ds ==> v - Sum(xs) < c
  }

  /** The greedy choice for a list splits into its first coin and the rest. */
  lemma TakesLargestFittingCons(h: int, t: seq<int>, ds: seq<int>, v: int)
    ensures TakesLargestFitting([h] + t, ds, v) <==>
              && h in ds && h <= v
              && (forall c :: c in ds && c <= v ==> c <= h)
              && TakesLargestFitting(t, ds, v - h)
  {
    var xs := [h] + t;
    assert xs[..0] == [];
    forall i | 0 <= i < |t|
      ensures xs[i + 1] == t[i] && v - Sum(xs[..i + 1]) == (v - h) - Sum(t[..i])
    {
      assert xs[..i + 1] == [h] + t[..i];
      assert ([h] + t[..i])[1..] == t[..i];
    }
    if TakesLargestFitting(xs, ds, v) {
      forall i | 0 <= i < |t|
        ensures && t[i] in ds
                && t[i] <= (v - h) - Sum(t[..i])
                && forall c :: c in ds && c <= (v - h) - Sum(t[..i]) ==> c <= t[i]
      {
        assert xs[i + 1] == t[i];
      }
    }
  }

  lemma FirstCoinFits(xs: seq<int>, ds: seq<int>, v: int)
    requires TakesLargestFitting(xs, ds, v) && xs != []
    ensures xs[0] in ds && xs[0] <= v
  {
    assert xs[..0] == [];
  }

  /**
   A list that makes the greedy choice at every step and stops only when no
   coin fits is unique.
   */
  lemma {:induction false} LargestFittingUnique(ds: seq<int>, xs: seq<int>, ys: seq<int>, v: int)
    requires TakesLargestFitting(xs, ds, v) && NothingFits(xs, ds, v)
    requires TakesLargestFitting(ys, ds, v) && NothingFits(ys, ds, v)
    ensures xs == ys
    decreases |xs|
  {
    if xs == [] || ys == [] {
      if xs != [] {
        FirstCoinFits(xs, ds, v);
        assert false;
      } else if ys != [] {
        FirstCoinFits(ys, ds, v);
        assert false;
      }
    } else {
      var x, y := xs[0], ys[0];
      assert xs == [x] + xs[1..];
      assert ys == [y] + ys[1..];
      TakesLargestFittingCons(x, xs[1..], ds, v);
      TakesLargestFittingCons(y, ys[1..], ds, v);
      assert x == y;
      LargestFittingUnique(ds, xs[1..], ys[1..], v - x);
    }
  }

  /** The greedy loops make the greedy choice at every step. */
  lemma {:induction false} GreedyTakeChoice(cs: seq<int>, rem: int)
    requires AllPositive(cs) && NonIncreasing(cs)
    ensures TakesLargestFitting(GreedyTake(cs, rem), cs, rem)
    decreases |cs|, rem
  {
    if cs != [] {
      var c := cs[0];
      if c <= rem {
        var t := GreedyTake(cs, rem - c);
        GreedyTakeChoice(cs, rem - c);
        assert GreedyTake(cs, rem) == [c] + t;
        forall d | d in cs && d <= rem
          ensures d <= c
        {
          var k :| 0 <= k < |cs| && cs[k] == d;
        }
        TakesLargestFittingCons(c, t, cs, rem);
      } else {
        var tail := cs[1..];
        var t := GreedyTake(tail, rem);
        NonIncreasingTail(cs);
        GreedyTakeChoice(tail, rem);
        assert GreedyTake(cs, rem) == t;
        forall i | 0 <= i < |t|
          ensures && t[i] in cs
                  && t[i] <= rem - Sum(t[..i])
                  && forall d :: d in cs && d <= rem - Sum(t[..i]) ==> d <= t[i]
        {
          var y := t[i];
          assert y in tail;
          assert DrawnFrom(t[..i], tail) by {
            forall j | 0 <= j < i ensures t[..i][j] in tail {
              assert t[..i][j] == t[j];
            }
          }
          SumOfPositive(tail, t[..i]);
          forall d | d in cs && d <= rem - Sum(t[..i])
            ensures d <= y
          {
            assert d in tail || d == c;
          }
        }
      }
    }
  }

  /**
   What the greedy loops leave: the coins come from `cs`, a non-increasing
   `cs` gives a non-increasing list, nothing is taken when nothing is owed,
   the list never overpays a non-negative `rem`, and the residual is smaller
   than every coin.
   */
  lemma {:induction false} GreedyTakeFacts(cs: seq<int>, rem: int)
    requires AllPositive(cs)
    ensures DrawnFrom(GreedyTake(cs, rem), cs)
    ensures NonIncreasing(cs) ==> NonIncreasing(GreedyTake(cs, rem))
    ensures rem <= 0 ==> GreedyTake(cs, rem) == []
    ensures rem >= 0 ==> Sum(GreedyTake(cs, rem)) <= rem
    ensures forall i :: 0 <= i < |cs| ==> rem - Sum(GreedyTake(cs, rem)) < cs[i]
    decreases |cs|, rem
  {
    if cs != [] {
      var c := cs[0];
      if c <= rem {
        var t := GreedyTake(cs, rem - c);
        GreedyTakeFacts(cs, rem - c);
        assert GreedyTake(cs, rem) == [c] + t;
        assert ([c] + t)[1..] == t;
        forall i | 0 <= i < |[c] + t|
          ensures ([c] + t)[i] in cs
        {
          if i > 0 {
            assert ([c] + t)[i] == t[i - 1];
          }
        }
        if NonIncreasing(cs) {
          forall i | 0 <= i < |t|
            ensures t[i] <= c
          {
            var y := t[i];
            assert y in cs;
            var k :| 0 <= k < |cs| && cs[k] == y;
          }
        }
      } else {
        var tail := cs[1..];
        var t := GreedyTake(tail, rem);
        GreedyTakeFacts(tail, rem);
        assert GreedyTake(cs, rem) == t;
        forall i | 0 <= i < |t|
          ensures t[i] in cs
        {
          var y := t[i];
          assert y in tail;
        }
        SumOfPositive(tail, t);
        if NonIncreasing(cs) {
          NonIncreasingTail(cs);
        }
        forall i | 0 <= i < |cs|
          ensures rem - Sum(t) < cs[i]
        {
          if i > 0 {
            assert cs[i] == tail[i - 1];
          }
        }
      }
    }
  }

  /**
   `greedy_largest_first`: sort descending, then for each coin subtract it
   while it fits. Coins must be positive, since a coin <= 0 that fits never
   stops fitting.
   */
  method GreedyLargestFirst(coins: seq<int>, V: int) returns (count: nat, used: seq<int>)
    requires AllPositive(coins)
    ensures used == Greedy(coins, V)
    ensures count == |used|
    ensures NonIncreasing(used)
    ensures DrawnFrom(used, coins)
    ensures forall i :: 0 <= i < |coins| ==> V - Sum(used) < coins[i]
    ensures V >= 0 ==> Sum(used) <= V
    ensures V <= 0 ==> used == []
    ensures 1 in coins && V >= 0 ==> Sum(used) == V
    ensures TakesLargestFitting(used, coins, V)
    ensures NothingFits(used, coins, V)
  {
    SortDescPositive(coins);
    used := TakeWhileFits(SortDesc(coins), V);
    count := |used|;
    GreedyFacts(coins, V);
    if 1 in coins && V >= 0 {
      var k :| 0 <= k < |coins| && coins[k] == 1;
    }
  }

  /** The two loops of `greedy_largest_first` over the coins `cs`, already sorted. */
  method TakeWhileFits(cs: seq<int>, V: int) returns (used: seq<int>)
    requires AllPositive(cs)
    ensures used == GreedyTake(cs, V)
  {
    var rem := V;
    used := [];
    var i := 0;
    while i < |cs|
      invariant 0 <= i <= |cs|
      invariant AllPositive(cs[i..])
      invariant used + GreedyTake(cs[i..], rem) == GreedyTake(cs, V)
    {
      var c := cs[i];
      ghost var rest := cs[i..];
      assert rest[0] == c;
      while c <= rem
        invariant used + GreedyTake(rest, rem) == GreedyTake(cs, V)
        decreases rem
      {
        assert used + GreedyTake(rest, rem) == (used + [c]) + GreedyTake(rest, rem - c);
        used := used + [c];
        rem := rem - c;
      }
      assert rest[1..] == cs[i + 1..];
      i := i + 1;
    }
  }

  /** `GreedyTakeFacts` stated for the whole greedy on the caller's coins. */
  lemma GreedyFacts(coins: seq<int>, V: int)
    requires AllPositive(coins)
    ensures DrawnFrom(Greedy(coins, V), coins)
    ensures NonIncreasing(Greedy(coins, V))
    ensures V <= 0 ==> Greedy(coins, V) == []
    ensures V >= 0 ==> Sum(Greedy(coins, V)) <= V
    ensures forall i :: 0 <= i < |coins| ==> V - Sum(Greedy(coins, V)) < coins[i]
    ensures TakesLargestFitting(Greedy(coins, V), coins, V)
    ensures NothingFits(Greedy(coins, V), coins, V)
  {
    SortDescPositive(coins);
    var cs := SortDesc(coins);
    var g := Greedy(coins, V);
    GreedyTakeFacts(cs, V);
    GreedyTakeChoice(cs, V);
    forall i | 0 <= i < |g|
      ensures && g[i] <= V - Sum(g[..i])
              && forall d :: d in coins && d <= V - Sum(g[..i]) ==> d <= g[i]
    {
      forall d | d in coins && d <= V - Sum(g[..i])
        ensures d <= g[i]
      {
        assert d in cs;
      }
    }
    forall i | 0 <= i < |g|
      ensures g[i] in coins
    {
      var y := g[i];
      assert y in cs;
    }
    forall i | 0 <= i < |coins|
      ensures V - Sum(g) < coins[i]
    {
      var y := coins[i];
      assert y in coins;
      var k :| 0 <= k < |cs| && cs[k] == y;
    }
  }

  /**
   The greedy list is the one list that makes the greedy choice at every step
   and stops only when no coin fits.
   */
  lemma GreedyCharacterised(coins: seq<int>, V: int, xs: seq<int>)
    requires AllPositive(coins)
    ensures xs == Greedy(coins, V) <==> TakesLargestFitting(xs, coins, V) && NothingFits(xs, coins, V)
  {
    GreedyFacts(coins, V);
    if TakesLargestFitting(xs, coins, V) && NothingFits(xs, coins, V) {
      LargestFittingUnique(coins, xs, Greedy(coins, V), V);
    }
  }
}
