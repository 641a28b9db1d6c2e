/**
 The dynamic-programming change maker `dp_change`: validate the input, fill
 the `opt` and `parent` tables bottom-up over the ascending, duplicate-free
 denominations, report "no solution" when the target is unreachable, and
 rebuild one optimal coin list by following parent pointers.

 `MinCoins` and `Best` are the table recurrence as recursive functions: `Best`
 is the inner scan over the denominations (strict improvement, so the first
 denomination reaching the minimum wins) and `MinCoins` is the resulting
 table entry. They are tied to the independent notion `IsChange` (any coin
 list paying the value) by `MinCoinsOptimal`, `Walk` and `MinCoinsComplete`.
 */
module DpChange {
  import opened CoinSeqs

  /** An `opt` table entry: a coin count, or the "infinity" the source writes as INF. */
  datatype Cost = Reachable(n: nat) | Unreachable
  {
    /** One more coin. An unreachable entry stays unreachable, as INF + 1 is never below INF. */
    function Succ(): Cost
    {
      if Reachable? then Reachable(n + 1) else Unreachable
    }

    /** Strictly fewer coins, every count being below "infinity". */
    predicate Below(other: Cost)
    {
      Reachable? && (other.Unreachable? || n < other.n)
    }
  }

  /** The pair (best_count, best_coin) kept by the inner scan. */
  datatype Choice = Choice(count: Cost, coin: int)

  /** Why the input was rejected, in the order the source tests it. */
  datatype InputError = NegativeTarget | EmptyCoins | NonPositiveCoin

  /** What `dp_change` returns or raises. */
  datatype Outcome =
    | Ok(count: nat, used: seq<int>)
    | InvalidInput(why: InputError)
    | NoSolution
    | ReconstructionFailure

  /** `opt[v]` for the denominations `ds`. */
  function MinCoins(ds: seq<int>, v: nat): Cost
    requires AllPositive(ds)
    decreases v, |ds| + 1
  {
    if v == 0 then Reachable(0) else Best(ds, v, |ds|).count
  }

  /** The scan for value `v` after looking at the denominations `ds[..k]`. */
  function Best(ds: seq<int>, v: nat, k: nat): Choice
    requires AllPositive(ds)
    requires k <= |ds|
    decreases v, k
  {
    if k == 0 then Choice(Unreachable, -1)
    else
      var prev := Best(ds, v, k - 1);
      var c := ds[k - 1];
      if c <= v && MinCoins(ds, v - c).Succ().Below(prev.count)
      then Choice(MinCoins(ds, v - c).Succ(), c)
      else prev
  }

  /** `parent[v]`: 0 for the value 0, the chosen denomination, or -1 for "none". */
  function Parent(ds: seq<int>, v: nat): int
    requires AllPositive(ds)
  {
    if v == 0 then 0 else Best(ds, v, |ds|).coin
  }

  /** Paying `v` with denomination `ds[i]` first costs `cost` in all. */
  predicate Attains(ds: seq<int>, v: nat, i: int, cost: Cost)
    requires AllPositive(ds)
  {
    0 <= i < |ds| && ds[i] <= v && MinCoins(ds, v - ds[i]).Succ() == cost
  }

  /**
   After scanning `ds[..k]` the best count is below no candidate, it is
   attained by the first index that attains it, and the coin is -1 exactly
   when nothing was found.
   */
  lemma {:induction false} BestFacts(ds: seq<int>, v: nat, k: nat)
    requires AllPositive(ds)
    requires k <= |ds|
    ensures Best(ds, v, k).coin == -1 <==> Best(ds, v, k).count.Unreachable?
    ensures forall i :: 0 <= i < k && ds[i] <= v ==>
              !MinCoins(ds, v - ds[i]).Succ().Below(Best(ds, v, k).count)
    ensures Best(ds, v, k).count.Reachable? ==>
              exists j :: 0 <= j < k && ds[j] == Best(ds, v, k).coin && Attains(ds, v, j, Best(ds, v, k).count)
                && forall i :: 0 <= i < j ==> !Attains(ds, v, i, Best(ds, v, k).count)
  {
    if k > 0 {
      BestFacts(ds, v, k - 1);
      var prev := Best(ds, v, k - 1);
      var c := ds[k - 1];
      if c <= v && MinCoins(ds, v - c).Succ().Below(prev.count) {
        var b := Best(ds, v, k);
        assert b.count == MinCoins(ds, v - c).Succ();
        assert Attains(ds, v, k - 1, b.count);
        forall i | 0 <= i < k - 1
          ensures !Attains(ds, v, i, b.count)
        {
          if ds[i] <= v {
            assert !MinCoins(ds, v - ds[i]).Succ().Below(prev.count);
          }
        }
      } else {
        assert Best(ds, v, k) == prev;
      }
    }
  }

  /**
   The table recurrence: for v >= 1, `opt[v]` is one more than the cheapest
   reachable `opt[v - c]` over denominations c <= v, and unreachable when
   there is none.
   */
  lemma MinCoinsRecurrence(ds: seq<int>, v: nat)
    requires AllPositive(ds)
    requires v >= 1
    ensures MinCoins(ds, v).Unreachable? <==>
              forall c :: c in ds && c <= v ==> MinCoins(ds, v - c).Unreachable?
    ensures forall c :: c in ds && c <= v ==> !MinCoins(ds, v - c).Succ().Below(MinCoins(ds, v))
    ensures MinCoins(ds, v).Reachable? ==>
              exists c :: c in ds && c <= v && MinCoins(ds, v - c).Succ() == MinCoins(ds, v)
  {
    BestFacts(ds, v, |ds|);
    forall c | c in ds && c <= v
      ensures !MinCoins(ds, v - c).Succ().Below(MinCoins(ds, v))
    {
      var i :| 0 <= i < |ds| && ds[i] == c;
    }
    if MinCoins(ds, v).Reachable? {
      var j :| 0 <= j < |ds| && Attains(ds, v, j, MinCoins(ds, v));
      var c := ds[j];
      assert Attains(ds, v, j, MinCoins(ds, v));
      assert c <= v && MinCoins(ds, v - c).Succ() == MinCoins(ds, v);
      assert c in ds;
      assert MinCoins(ds, v - c).Reachable?;
    } else {
      forall c | c in ds && c <= v
        ensures MinCoins(ds, v - c).Unreachable?
      {
        var i :| 0 <= i < |ds| && ds[i] == c;
      }
    }
  }

  /**
   For a reachable v >= 1 the parent pointer is a denomination no larger than
   v whose remainder needs exactly one coin fewer; for an unreachable v it is -1.
   */
  lemma ParentStep(ds: seq<int>, v: nat)
    requires AllPositive(ds)
    requires v >= 1
    ensures MinCoins(ds, v).Unreachable? <==> Parent(ds, v) == -1
    ensures MinCoins(ds, v).Reachable? ==>
              && Parent(ds, v) in ds
              && 1 <= Parent(ds, v) <= v
              && MinCoins(ds, v - Parent(ds, v)).Succ() == MinCoins(ds, v)
  {
    BestFacts(ds, v, |ds|);
    if MinCoins(ds, v).Reachable? {
      var j :| 0 <= j < |ds| && ds[j] == Parent(ds, v) && Attains(ds, v, j, MinCoins(ds, v));
      assert ds[j] in ds;
    }
  }

  /**
   Tie-breaking: over ascending denominations the parent pointer is the
   smallest denomination that reaches the minimum.
   */
  lemma ParentIsSmallestOptimal(ds: seq<int>, v: nat)
    requires AllPositive(ds)
    requires StrictlyIncreasing(ds)
    requires v >= 1
    requires MinCoins(ds, v).Reachable?
    ensures forall c :: c in ds && c <= v && c < Parent(ds, v) ==>
              MinCoins(ds, v - c).Succ() != MinCoins(ds, v)
  {
    BestFacts(ds, v, |ds|);
    var j :| 0 <= j < |ds| && ds[j] == Parent(ds, v) && Attains(ds, v, j, MinCoins(ds, v))
             && forall i :: 0 <= i < j ==> !Attains(ds, v, i, MinCoins(ds, v));
    forall c | c in ds && c <= v && c < Parent(ds, v)
      ensures MinCoins(ds, v - c).Succ() != MinCoins(ds, v)
    {
      var i :| 0 <= i < |ds| && ds[i] == c;
      assert i < j;
      assert !Attains(ds, v, i, MinCoins(ds, v));
    }
  }

  /**
   The coin list the reconstruction loop builds from `v`: follow parent
   pointers down to 0. It pays `v` with exactly `opt[v]` coins.
   */
  function Walk(ds: seq<int>, v: nat): (xs: seq<int>)
    requires AllPositive(ds)
    requires MinCoins(ds, v).Reachable?
    ensures IsChange(ds, xs, v)
    ensures |xs| == MinCoins(ds, v).n
    decreases v
  {
    if v == 0 then []
    else
      ParentStep(ds, v);
      var c := Parent(ds, v);
      var rest := Walk(ds, v - c);
      assert ([c] + rest)[1..] == rest;
      [c] + rest
  }

  lemma WalkStep(ds: seq<int>, v: nat, used: seq<int>)
    requires AllPositive(ds)
    requires v >= 1
    requires MinCoins(ds, v).Reachable?
    ensures 1 <= Parent(ds, v) <= v && MinCoins(ds, v - Parent(ds, v)).Reachable?
    ensures used + Walk(ds, v) == (used + [Parent(ds, v)]) + Walk(ds, v - Parent(ds, v))
  {
    ParentStep(ds, v);
  }

  /** No coin list pays `v` with fewer coins than `opt[v]`; in particular `v` is then reachable. */
  lemma {:induction false} MinCoinsOptimal(ds: seq<int>, xs: seq<int>, v: int)
    requires AllPositive(ds)
    requires IsChange(ds, xs, v)
    ensures v >= 0 && MinCoins(ds, v).Reachable? && MinCoins(ds, v).n <= |xs|
    decreases |xs|
  {
    if xs != [] {
      var c := xs[0];
      assert c in ds;
      var i :| 0 <= i < |ds| && ds[i] == c;
      assert c > 0;
      assert DrawnFrom(xs[1..], ds) by {
        forall k | 0 <= k < |xs[1..]| ensures xs[1..][k] in ds {
          assert xs[1..][k] == xs[k + 1];
        }
      }
      MinCoinsOptimal(ds, xs[1..], v - c);
      MinCoinsRecurrence(ds, v);
    }
  }

  /** `opt[v]` is unreachable exactly when no coin list pays `v`. */
  lemma MinCoinsComplete(ds: seq<int>, v: nat)
    requires AllPositive(ds)
    ensures MinCoins(ds, v).Unreachable? <==> forall xs :: !IsChange(ds, xs, v)
  {
    if MinCoins(ds, v).Reachable? {
      assert IsChange(ds, Walk(ds, v), v);
    } else {
      forall xs
        ensures !IsChange(ds, xs, v)
      {
        if IsChange(ds, xs, v) {
          MinCoinsOptimal(ds, xs, v);
        }
      }
    }
  }

  lemma DenominationsPositive(coins: seq<int>)
    requires AllPositive(coins)
    ensures AllPositive(Denominations(coins))
  {
    var ds := Denominations(coins);
    forall i | 0 <= i < |ds|
      ensures ds[i] > 0
    {
      assert ds[i] in coins;
    }
  }

  /** Paying with `coins` is paying with its denominations: duplicates and order play no part. */
  lemma ChangeDependsOnElements(a: seq<int>, b: seq<int>, xs: seq<int>, v: int)
    requires forall x :: x in a <==> x in b
    ensures IsChange(a, xs, v) <==> IsChange(b, xs, v)
  {
    if DrawnFrom(xs, a) {
      forall i | 0 <= i < |xs| ensures xs[i] in b {
        var y := xs[i];
        assert y in a;
      }
    }
    if DrawnFrom(xs, b) {
      forall i | 0 <= i < |xs| ensures xs[i] in a {
        var y := xs[i];
        assert y in b;
      }
    }
  }

  lemma ValidityDependsOnElements(a: seq<int>, b: seq<int>)
    requires forall x :: x in a <==> x in b
    ensures |a| == 0 <==> |b| == 0
    ensures AllPositive(a) <==> AllPositive(b)
  {
    if |a| > 0 {
      var y := a[0];
      assert y in a;
    }
    if |b| > 0 {
      var y := b[0];
      assert y in b;
    }
    if AllPositive(a) {
      forall i | 0 <= i < |b| ensures b[i] > 0 {
        var y := b[i];
        assert y in b;
      }
    }
    if AllPositive(b) {
      forall i | 0 <= i < |a| ensures a[i] > 0 {
        var y := a[i];
        assert y in a;
      }
    }
  }

  /** `dp_change(coins, V)` as a function of its inputs. */
  function Solve(coins: seq<int>, V: int): Outcome
  {
    if V < 0 then InvalidInput(NegativeTarget)
    else if |coins| == 0 then InvalidInput(EmptyCoins)
    else if !AllPositive(coins) then InvalidInput(NonPositiveCoin)
    else
      var ds := Denominations(coins);
      DenominationsPositive(coins);
      if MinCoins(ds, V).Unreachable? then NoSolution
      else Ok(MinCoins(ds, V).n, Walk(ds, V))
  }

  /**
   On valid input: "no solution" exactly when no list of the given coins pays
   V; otherwise the result pays V with the returned number of coins, and no
   list of the given coins pays V with fewer. The reconstruction failure never
   happens.
   */
  lemma SolveCorrect(coins: seq<int>, V: int)
    ensures !Solve(coins, V).ReconstructionFailure?
    ensures V >= 0 && |coins| > 0 && AllPositive(coins) ==>
              (Solve(coins, V).NoSolution? <==> forall xs :: !IsChange(coins, xs, V))
    ensures Solve(coins, V).Ok? ==>
              && IsChange(coins, Solve(coins, V).used, V)
              && |Solve(coins, V).used| == Solve(coins, V).count
              && forall xs :: IsChange(coins, xs, V) ==> Solve(coins, V).count <= |xs|
  {
    if V >= 0 && |coins| > 0 && AllPositive(coins) {
      var ds := Denominations(coins);
      DenominationsPositive(coins);
      MinCoinsComplete(ds, V);
      forall xs
        ensures IsChange(coins, xs, V) <==> IsChange(ds, xs, V)
      {
        ChangeDependsOnElements(coins, ds, xs, V);
      }
      if MinCoins(ds, V).Reachable? {
        forall xs | IsChange(ds, xs, V)
          ensures MinCoins(ds, V).n <= |xs|
        {
          MinCoinsOptimal(ds, xs, V);
        }
      }
    }
  }

  /** The result depends only on which denominations occur, not on their order or repetition. */
  lemma SolveDependsOnElements(a: seq<int>, b: seq<int>, V: int)
    requires forall x :: x in a <==> x in b
    ensures Solve(a, V) == Solve(b, V)
  {
    StrictlyIncreasingUnique(Denominations(a), Denominations(b));
    ValidityDependsOnElements(a, b);
  }

  /** `dp_change(coins, V) == dp_change(sorted(set(coins)), V)`. */
  lemma SolveOnDenominations(coins: seq<int>, V: int)
    ensures Solve(coins, V) == Solve(Denominations(coins), V)
  {
    SolveDependsOnElements(coins, Denominations(coins), V);
  }

  /**
   The two nested loops: `opt` and `parent` as arrays of size V + 1, filled
   for v = 1..V by scanning the ascending denominations with strict improvement.
   */
  method FillTables(ds: seq<int>, V: nat) returns (opt: seq<Cost>, parent: seq<int>)
    requires AllPositive(ds)
    ensures |opt| == V + 1 && |parent| == V + 1
    ensures forall u :: 0 <= u <= V ==> opt[u] == MinCoins(ds, u) && parent[u] == Parent(ds, u)
  {
    var optA := new Cost[V + 1](_ => Unreachable);
    var parentA := new int[V + 1](_ => -1);
    optA[0] := Reachable(0);
    parentA[0] := 0;

    var v := 1;
    while v <= V
      invariant 1 <= v <= V + 1
      invariant forall u :: 0 <= u < v ==> optA[u] == MinCoins(ds, u) && parentA[u] == Parent(ds, u)
    {
      var bestCount := Unreachable;
      var bestCoin := -1;
      var k := 0;
      while k < |ds|
        invariant 0 <= k <= |ds|
        invariant Choice(bestCount, bestCoin) == Best(ds, v, k)
      {
        var c := ds[k];
        if c <= v && optA[v - c].Succ().Below(bestCount) {
          bestCount := optA[v - c].Succ();
          bestCoin := c;
        }
        k := k + 1;
      }
      optA[v] := bestCount;
      parentA[v] := bestCoin;
      v := v + 1;
    }
    opt := optA[..];
    parent := parentA[..];
  }

  /**
   The check for "no solution" and the parent-pointer walk from V down to 0,
   over filled tables. The walk's failure branch cannot be taken.
   */
  method Reconstruct(ds: seq<int>, V: nat, opt: seq<Cost>, parent: seq<int>) returns (r: Outcome)
    requires AllPositive(ds)
    requires |opt| == V + 1 && |parent| == V + 1
    requires forall u :: 0 <= u <= V ==> opt[u] == MinCoins(ds, u) && parent[u] == Parent(ds, u)
    ensures MinCoins(ds, V).Unreachable? ==> r == NoSolution
    ensures MinCoins(ds, V).Reachable? ==> r.Ok? && r.count == MinCoins(ds, V).n && r.used == Walk(ds, V)
  {
    if V > 0 {
      ParentStep(ds, V);
    }
    if opt[V].Unreachable? || parent[V] == -1 {
      return NoSolution;
    }

    var used := [];
    var cur := V;
    while cur > 0
      invariant 0 <= cur <= V
      invariant MinCoins(ds, cur).Reachable?
      invariant used + Walk(ds, cur) == Walk(ds, V)
      decreases cur
    {
      var c := parent[cur];
      ParentStep(ds, cur);
      if c == -1 {
        assert false;
        return ReconstructionFailure;
      }
      WalkStep(ds, cur, used);
      used := used + [c];
      cur := cur - c;
    }
    return Ok(opt[V].n, used);
  }

  /** `dp_change`: validation, table fill, "no solution" check and reconstruction. */
  method DpChangeTables(coins: seq<int>, V: int) returns (r: Outcome)
    ensures r == Solve(coins, V)
    ensures r == InvalidInput(NegativeTarget) <==> V < 0
    ensures r == InvalidInput(EmptyCoins) <==> V >= 0 && |coins| == 0
    ensures r == InvalidInput(NonPositiveCoin) <==>
              V >= 0 && |coins| > 0 && exists i :: 0 <= i < |coins| && coins[i] <= 0
    ensures r.InvalidInput? <==> V < 0 || |coins| == 0 || exists i :: 0 <= i < |coins| && coins[i] <= 0
    ensures r.Ok? ==> IsChange(coins, r.used, V) && |r.used| == r.count
    ensures r.Ok? ==> forall xs :: IsChange(coins, xs, V) ==> r.count <= |xs|
    ensures !r.ReconstructionFailure?
    ensures V == 0 && |coins| > 0 && AllPositive(coins) ==> r == Ok(0, [])
  {
    SolveCorrect(coins, V);
    assert IsChange(coins, [], 0);
    if V < 0 {
      return InvalidInput(NegativeTarget);
    }
    if |coins| == 0 {
      return InvalidInput(EmptyCoins);
    }
    if exists i :: 0 <= i < |coins| && coins[i] <= 0 {
      return InvalidInput(NonPositiveCoin);
    }
    var ds := Denominations(coins);
    DenominationsPositive(coins);
    var opt, parent := FillTables(ds, V);
    r := Reconstruct(ds, V, opt, parent);
  }
}
