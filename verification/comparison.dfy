/**
 The dynamic program against the greedy baseline, and worked cases: the
 command line's default input, a target the greedy pass cannot pay although
 an exact list exists, a lone unit coin, and a target below every coin.
 */
module Comparison {
  import opened CoinSeqs
  import opened DpChange
  import opened GreedyBaseline

  /**
   Whenever the greedy list pays V exactly, `dp_change` succeeds and uses no
   more coins than the greedy list.
   */
  lemma DpNoWorseThanGreedy(coins: seq<int>, V: int)
    requires |coins| > 0 && AllPositive(coins)
    requires Sum(Greedy(coins, V)) == V
    ensures Solve(coins, V).Ok?
    ensures Solve(coins, V).count <= |Greedy(coins, V)|
  {
    GreedyFacts(coins, V);
    SolveCorrect(coins, V);
    assert IsChange(coins, Greedy(coins, V), V);
  }

  /** With a unit coin the greedy list always pays V, so the comparison always applies. */
  lemma DpNoWorseThanGreedyWithUnit(coins: seq<int>, V: int)
    requires AllPositive(coins) && 1 in coins && V >= 0
    ensures Solve(coins, V).Ok?
    ensures Solve(coins, V).count <= |Greedy(coins, V)|
  {
    GreedyFacts(coins, V);
    var k :| 0 <= k < |coins| && coins[k] == 1;
    DpNoWorseThanGreedy(coins, V);
  }

  /** `ds` holds exactly the denominations 1, 10 and 25. */
  ghost predicate CentCoins(ds: seq<int>)
  {
    AllPositive(ds) && forall c :: c in ds <==> c == 1 || c == 10 || c == 25
  }

  /**
   Coins 25, 10, 1 and V = 30: the dynamic program pays with three 10s.
   */
  lemma Coins25_10_1Dp()
    ensures Solve([25, 10, 1], 30) == Ok(3, [10, 10, 10])
  {
    SolveOnCentCoins([25, 10, 1]);
  }

  /** Any coin list whose denominations are 1, 10 and 25 pays 30 with three 10s. */
  lemma SolveOnCentCoins(coins: seq<int>)
    requires |coins| > 0 && AllPositive(coins)
    requires forall c :: c in coins <==> c == 1 || c == 10 || c == 25
    ensures Solve(coins, 30) == Ok(3, [10, 10, 10])
  {
    var ds := Denominations(coins);
    DenominationsPositive(coins);
    assert CentCoins(ds);
    TensTable(ds, 10, 1);
    TensTable(ds, 20, 2);
    TensTable(ds, 30, 3);
    assert Walk(ds, 0) == [];
    assert Walk(ds, 10) == [10];
    assert Walk(ds, 20) == [10, 10];
  }

  /** Coins 25, 10, 1 and V = 30: the greedy list is 25 and five 1s. */
  lemma Coins25_10_1Greedy()
    ensures Greedy([25, 10, 1], 30) == [25, 1, 1, 1, 1, 1]
  {
    var cs := SortDesc([25, 10, 1]);
    NonIncreasingUnique(cs, [25, 10, 1]);
    assert Greedy([25, 10, 1], 30) == GreedyTake(cs, 30);
    GreedyOn25_10_1();
  }

  lemma GreedyOn25_10_1()
    ensures GreedyTake([25, 10, 1], 30) == [25, 1, 1, 1, 1, 1]
  {
    assert GreedyTake([1], 0) == GreedyTake([], 0) == [];
    assert GreedyTake([1], 1) == [1] + GreedyTake([1], 0);
    assert GreedyTake([1], 2) == [1] + GreedyTake([1], 1);
    assert GreedyTake([1], 3) == [1] + GreedyTake([1], 2);
    assert GreedyTake([1], 4) == [1] + GreedyTake([1], 3);
    assert GreedyTake([1], 5) == [1] + GreedyTake([1], 4);
    assert GreedyTake([10, 1], 5) == GreedyTake([1], 5);
    assert GreedyTake([25, 10, 1], 5) == GreedyTake([10, 1], 5);
    assert GreedyTake([25, 10, 1], 30) == [25] + GreedyTake([25, 10, 1], 5);
  }

  /** Over {1, 10, 25}, opt[v] = n and parent[v] = 10 for (v, n) = (10, 1), (20, 2), (30, 3). */
  lemma TensTable(ds: seq<int>, v: nat, n: nat)
    requires CentCoins(ds)
    requires 1 <= n <= 3 && v == 10 * n
    ensures MinCoins(ds, v) == Reachable(n)
    ensures Parent(ds, v) == 10
  {
    TensCount(ds, v, n);
    ParentStep(ds, v);
    var p := Parent(ds, v);
    assert p == 1 || p == 10 || p == 25;
    SumsOfAtMostTwo(ds, Walk(ds, v - p));
  }

  lemma TensCount(ds: seq<int>, v: nat, n: nat)
    requires CentCoins(ds)
    requires 1 <= n <= 3 && v == 10 * n
    ensures MinCoins(ds, v) == Reachable(n)
  {
    var tens: seq<int> := if n == 1 then [10] else if n == 2 then [10, 10] else [10, 10, 10];
    assert IsChange(ds, tens, v) by {
      assert 10 in ds;
      assert Sum([10]) == 10 + Sum([]);
      assert Sum([10, 10]) == 10 + Sum([10]);
      assert Sum([10, 10, 10]) == 10 + Sum([10, 10]);
    }
    MinCoinsOptimal(ds, tens, v);
    SumsOfAtMostTwo(ds, Walk(ds, v));
  }

  /** The values paid by at most two coins from {1, 10, 25}. */
  lemma SumsOfAtMostTwo(ds: seq<int>, w: seq<int>)
    requires CentCoins(ds)
    requires DrawnFrom(w, ds)
    ensures |w| <= 1 ==> Sum(w) in {0, 1, 10, 25}
    ensures |w| == 2 ==> Sum(w) in {2, 11, 26, 20, 35, 50}
  {
    if |w| == 1 {
      var a := w[0];
      assert a in ds;
    } else if |w| == 2 {
      var a, b := w[0], w[1];
      assert a in ds && b in ds;
      assert w[1..] == [b];
      assert Sum(w[1..]) == b + Sum([]);
    }
  }

  /** A single unit coin pays V with V ones. */
  lemma UnitCoinOnly(V: nat)
    ensures Solve([1], V) == Ok(V, seq(V, _ => 1))
  {
    var ds := Denominations([1]);
    StrictlyIncreasingUnique(ds, [1]);
    UnitCoinTable(ds, V);
  }

  lemma {:induction false} UnitCoinTable(ds: seq<int>, v: nat)
    requires |ds| == 1 && ds[0] == 1
    ensures MinCoins(ds, v) == Reachable(v)
    ensures Walk(ds, v) == seq(v, _ => 1)
  {
    if v > 0 {
      UnitCoinTable(ds, v - 1);
      assert Best(ds, v, 0) == Choice(Unreachable, -1);
      assert Best(ds, v, 1) == Choice(Reachable(v), 1);
      assert Parent(ds, v) == 1;
      assert seq(v, _ => 1) == [1] + seq(v - 1, _ => 1);
    }
  }

  /**
   A positive target below every coin has no solution, while the greedy list
   is empty and pays nothing. So the greedy count (0) is not an upper bound
   for the dynamic program unless the greedy list pays V exactly; coin 5 with
   V = 3 is one such input.
   */
  lemma TargetBelowEveryCoin(coins: seq<int>, V: int)
    requires |coins| > 0 && AllPositive(coins)
    requires V > 0 && forall i :: 0 <= i < |coins| ==> V < coins[i]
    ensures Solve(coins, V) == NoSolution
    ensures Greedy(coins, V) == []
  {
    SolveCorrect(coins, V);
    forall xs | IsChange(coins, xs, V)
      ensures false
    {
      var x := xs[0];
      assert x in coins;
      var k :| 0 <= k < |coins| && coins[k] == x;
      assert DrawnFrom(xs[1..], coins) by {
        forall i | 0 <= i < |xs[1..]| ensures xs[1..][i] in coins {
          assert xs[1..][i] == xs[i + 1];
        }
      }
      SumOfPositive(coins, xs[1..]);
    }
    GreedyFacts(coins, V);
    var g := Greedy(coins, V);
    if g != [] {
      FirstCoinFits(g, coins, V);
      assert false;
    }
  }

  /**
   One pass can stop short even when an exact list exists: coins 5 and 3 with
   V = 9 give the greedy list 5, 3, which pays 8, while three 3s pay 9 and the
   dynamic program succeeds with at most three coins.
   */
  lemma GreedyMissesExactChange()
    ensures Greedy([5, 3], 9) == [5, 3]
    ensures Sum(Greedy([5, 3], 9)) == 8
    ensures Solve([5, 3], 9).Ok? && Solve([5, 3], 9).count <= 3
  {
    GreedyMissesExactChangeOn([5, 3], 9);
  }

  lemma GreedyMissesExactChangeOn(coins: seq<int>, V: int)
    requires |coins| == 2 && coins[0] == 5 && coins[1] == 3 && V == 9
    ensures Greedy(coins, V) == [5, 3]
    ensures Sum(Greedy(coins, V)) == 8
    ensures Solve(coins, V).Ok? && Solve(coins, V).count <= 3
  {
    GreedyOnFiveThree(coins, V);
    assert IsChange(coins, [3, 3, 3], V);
    SolveCorrect(coins, V);
  }

  lemma GreedyOnFiveThree(coins: seq<int>, V: int)
    requires |coins| == 2 && coins[0] == 5 && coins[1] == 3 && V == 9
    ensures AllPositive(coins) && Greedy(coins, V) == [5, 3]
  {
    var g := [5, 3];
    assert forall c :: c in coins <==> c == 5 || c == 3;
    TakesLargestFittingCons(3, [], coins, V - 5);
    TakesLargestFittingCons(5, [3], coins, V);
    assert TakesLargestFitting(g, coins, V);
    assert Sum(g) == 8;
    GreedyCharacterised(coins, V, g);
  }
}
