# Change making: dynamic program and greedy baseline, in Dafny

This project models the core of a small change-making program. The program
works on a list of coin denominations and a target value V. `dp_change`
computes the fewest coins that pay V exactly and returns one such coin list.
It does this with a bottom-up table `opt` (the fewest coins for each value
0..V, or the sentinel INF) and a table `parent` (the coin chosen for each
value). It then follows the parent pointers from V back down to 0.
`greedy_largest_first` is the baseline. It takes the largest coin that still
fits, over and over.

Modules:

- `CoinSeqs` (`coin_seqs.dfy`) holds the shared notions:
  - `Sum` of a coin list;
  - `IsChange(ds, xs, v)`: `xs` pays `v` using only denominations from `ds`;
  - `Denominations`, which is `sorted(set(coins))`;
  - `SortDesc`, which is `sorted(coins, reverse=True)`;
  - the lemmas proving that both orderings are uniquely determined, so they
    are the lists the source's sorts produce.
- `DpChange` (`dp_change.dfy`) holds the dynamic program:
  - `Cost` (`Reachable(n) | Unreachable`) stands for a table entry, with
    `Unreachable` in place of INF;
  - `Outcome` stands for the return value and the three `raise` sites;
  - `MinCoins` and `Best` state the table recurrence as recursive functions.
    `Best` is the inner scan over the denominations, with strict improvement;
  - `Parent` and `Walk` give the parent table and the reconstruction;
  - `Solve` is the whole function;
  - `FillTables`, `Reconstruct` and `DpChangeTables` are the imperative
    version, with `opt` and `parent` arrays of size V + 1 filled by nested
    loops whose invariants tie them to `MinCoins` and `Parent`.
- `GreedyBaseline` (`greedy.dfy`) holds `GreedyTake`, which lists the coins
  the two greedy loops take, the methods `TakeWhileFits` and
  `GreedyLargestFirst`, and the greedy choice `TakesLargestFitting` (each
  coin is the largest that fits in what remains) with `NothingFits` (the
  pass stops only when no coin fits), which pin the greedy list down.
- `Comparison` (`comparison.dfy`) relates the two solvers and works through
  concrete cases: coins 25, 10, 1 with V = 30 (the command line's
  default), coins 5, 3 with V = 9, a lone unit coin, and a target below
  every coin, such as coin 5 with V = 3.

The independent reference for optimality is `IsChange`. `MinCoinsOptimal`
shows that no coin list pays v with fewer coins than `opt[v]`. `Walk` shows
that the parent walk pays v with exactly `opt[v]` coins. `MinCoinsComplete`
shows that `opt[v]` is unreachable exactly when no coin list pays v. Every
function here is pure, so calling `dp_change` twice on the same input gives
the same result by construction.

Two consequences of the code that the model makes explicit:

- `greedy_largest_first` (dp_change.py:51-60) makes a single pass over the
  coins sorted largest first. Each coin is taken while it still fits, and
  the function then returns whatever it has, with no error. The list can pay
  less than V even when an exact list exists. Coins 5 and 3 with V = 9 give
  5, 3, which pays 8, while 3, 3, 3 pays 9 (`GreedyMissesExactChange`). Each
  coin taken is still the largest coin that fits in what remains, and the
  pass stops only when no coin fits (`GreedyCharacterised`).
- Comparing the coin counts of the two solvers only makes sense when the
  greedy list pays V exactly. For coin 5 and V = 3 the greedy list is empty
  (count 0), while `dp_change` raises "no solution" (`TargetBelowEveryCoin`).
  `DpNoWorseThanGreedy` states the comparison under that condition.

## Model

| member | source | states |
|---|---|---|
| DpChange.DpChangeTables | dp_change.py:10-48 | The whole of `dp_change` over arrays. It agrees with `Solve`. Each of the three input errors is returned exactly on its own condition, tested in the source's order: negative V first, then the empty list, then a coin <= 0. On success the list pays V with coins from the input, its length is the returned count, and no list of input coins pays V with fewer coins. For valid coins, V = 0 gives count 0 and the empty list. The reconstruction failure is never returned. |
| DpChange.Solve | dp_change.py:10-48 | The whole of `dp_change` as a function, with no contract of its own: the three input checks in order, then "no solution" or the count and the parent walk over `sorted(set(coins))`. `DpChangeTables` shows the loops compute it; `SolveCorrect`, `SolveDependsOnElements` and the `Comparison` lemmas characterise it. |
| DpChange.MinCoins | dp_change.py:23-33 | `opt[v]`: 0 for v = 0, otherwise the count the inner scan ends with. It is a definition without a contract; `MinCoinsRecurrence`, `MinCoinsOptimal` and `MinCoinsComplete` characterise it. |
| DpChange.Best | dp_change.py:27-32 | The pair (`best_count`, `best_coin`) after scanning the first k denominations with strict improvement. It is a definition without a contract; `BestFacts` characterises it. |
| DpChange.Parent | dp_change.py:24-34 | `parent[v]`: 0 for v = 0, otherwise the coin the inner scan ends with. It is a definition without a contract; `ParentStep` and `ParentIsSmallestOptimal` characterise it. |
| DpChange.FillTables | dp_change.py:20-34 | The nested loops produce tables of size V + 1. Entry u of `opt` is `MinCoins(ds, u)` and entry u of `parent` is `Parent(ds, u)`, for every u <= V, including `opt[0] = 0` and `parent[0] = 0`. |
| DpChange.Reconstruct | dp_change.py:36-48 | Raises "no solution" exactly when `opt[V]` is unreachable. Otherwise it returns `opt[V]` and the coin list found by following parent pointers from V. The "parent pointer missing" branch cannot be taken. |
| DpChange.BestFacts | dp_change.py:27-32 | After scanning a prefix of the denominations: the best count is not above any candidate `opt[v-c] + 1` with c <= v. A reachable best is attained by the first denomination that attains it. `best_coin` is -1 exactly when `best_count` is still INF. |
| DpChange.MinCoinsRecurrence | dp_change.py:26-34 | For v >= 1, `opt[v]` is unreachable exactly when every `opt[v-c]` with c <= v is unreachable. It is never above `opt[v-c] + 1`, and when reachable it equals `opt[v-c] + 1` for some denomination c <= v. |
| DpChange.ParentStep | dp_change.py:33-46 | For v >= 1, `parent[v]` is -1 exactly when v is unreachable. Otherwise it is a denomination between 1 and v, and the remainder `v - parent[v]` needs exactly one coin fewer. So every reconstruction step strictly lowers `cur` and lands on a reachable value. |
| DpChange.ParentIsSmallestOptimal | dp_change.py:29-32 | Ties go to the smallest coin. Over ascending denominations, no denomination smaller than `parent[v]` reaches the minimum count for v. |
| DpChange.Walk | dp_change.py:39-46 | The parent-pointer walk from a reachable v pays v exactly, uses only denominations, and has length `opt[v]`. |
| DpChange.MinCoinsOptimal | dp_change.py:26-34 | Any list of denominations that pays v makes v reachable. Its length is at least `opt[v]`. |
| DpChange.MinCoinsComplete | dp_change.py:36-37 | `opt[v]` is unreachable exactly when no list of denominations pays v. |
| DpChange.SolveCorrect | dp_change.py:36-48 | On valid input, "no solution" is returned exactly when no list of input coins pays V. A successful result pays V with coins from the input, has the returned count as its length, and is no longer than any list of input coins paying V. The reconstruction failure never occurs. |
| DpChange.SolveDependsOnElements | dp_change.py:18 | Two coin lists with the same elements give the same result for every V, whatever the order or repetition of their coins. |
| DpChange.SolveOnDenominations | dp_change.py:18 | `dp_change(coins, V) == dp_change(sorted(set(coins)), V)`. |
| CoinSeqs.Denominations | dp_change.py:18 | The result is strictly ascending and has exactly the elements of the input list. |
| CoinSeqs.StrictlyIncreasingUnique | dp_change.py:18 | A strictly ascending list is determined by its elements, so `Denominations` is exactly `sorted(set(coins))`. |
| CoinSeqs.SortDesc | dp_change.py:53 | The result is non-increasing and is a permutation of the input, as a multiset. |
| CoinSeqs.NonIncreasingUnique | dp_change.py:53 | A non-increasing permutation is unique, so `SortDesc` is exactly `sorted(coins, reverse=True)`. |
| GreedyBaseline.GreedyLargestFirst | dp_change.py:51-60 | For positive coins the loops terminate. The returned count is the length of the list. The list is non-increasing and uses only input coins. Every coin taken is the largest input coin that fits in what remains after the coins before it, and when the pass ends no coin fits in the residual `V - sum(used)`. The list never overpays a non-negative V, is empty for V <= 0, and pays V exactly when 1 is a coin. The list equals `Greedy(coins, V)`. |
| GreedyBaseline.TakeWhileFits | dp_change.py:54-59 | The two nested loops over sorted coins build exactly the list `GreedyTake` describes. |
| GreedyBaseline.GreedyTake | dp_change.py:56-59 | The coins the two loops take from a coin order and a remainder, as a recursive definition without a contract. `GreedyTakeFacts` and `GreedyTakeChoice` characterise it. |
| GreedyBaseline.Greedy | dp_change.py:51-60 | `greedy_largest_first`'s list: `GreedyTake` over `sorted(coins, reverse=True)`. It is a definition without a contract; `GreedyFacts` and `GreedyCharacterised` characterise it. |
| GreedyBaseline.GreedyTakeChoice | dp_change.py:52-59 | Over a non-increasing coin order, every coin the loops take comes from the order, fits in what remains after the coins before it, and is the largest coin of the order that fits there. |
| GreedyBaseline.LargestFittingUnique | dp_change.py:52 | At most one list makes the largest-fitting choice at every step and stops only when no coin fits. |
| GreedyBaseline.GreedyCharacterised | dp_change.py:51-60 | A list is `greedy_largest_first`'s list exactly when it makes the largest-fitting choice at every step and leaves a residual in which no coin fits. |
| GreedyBaseline.GreedyTakeFacts | dp_change.py:54-59 | From any coin order and remainder, the loops take only coins from the list. A non-increasing order gives a non-increasing result. Nothing is taken when nothing is owed, a non-negative remainder is never overpaid, and what is left is below every coin. |
| GreedyBaseline.GreedyFacts | dp_change.py:51-60 | The same facts for the greedy list built from the caller's coins, sorted largest first. |
| Comparison.DpNoWorseThanGreedy | dp_change.py:10-60 | Suppose the coins are non-empty and positive and the greedy list pays V exactly. Then `dp_change` succeeds, and its count is at most the greedy count. |
| Comparison.DpNoWorseThanGreedyWithUnit | dp_change.py:10-60 | With 1 among positive coins and V >= 0, `dp_change` always succeeds, and its count is at most the greedy count. |
| Comparison.SolveOnCentCoins | dp_change.py:90-92 | Any coin list whose denominations are exactly 1, 10 and 25 (the default input 25, 10, 1 among them) makes `dp_change` with V = 30 return count 3 and the coins 10, 10, 10. |
| Comparison.Coins25_10_1Dp | dp_change.py:90-92 | On the default input (coins 25, 10, 1 and V = 30), `dp_change` returns count 3 and the coins 10, 10, 10. |
| Comparison.Coins25_10_1Greedy | dp_change.py:90-92 | On the same input the greedy list is 25, 1, 1, 1, 1, 1, which is 6 coins. |
| Comparison.GreedyMissesExactChange | dp_change.py:51-60 | Coins 5, 3 and V = 9: the greedy list is 5, 3 and pays 8, while `dp_change` succeeds with at most three coins. |
| Comparison.UnitCoinOnly | dp_change.py:10-48 | With the single coin 1, every V >= 0 gives count V and V ones. |
| Comparison.TargetBelowEveryCoin | dp_change.py:36-37 | A target V > 0 below every coin gives "no solution", while the greedy list is empty. Coin 5 with V = 3 is an instance. |

## Left out

- `run_single_case` (dp_change.py:63-72) only prints the two results. It is console output.
- `benchmark_dp` (dp_change.py:75-85) times repeated calls with a wall clock and averages floats. It is timing and floating point, not solver behaviour.
- `main` (dp_change.py:88-102) parses the comma-separated coin string and the command-line flags. This is CLI glue. Its default input appears only as the worked case in `Coins25_10_1Dp`, `SolveOnCentCoins` and `Coins25_10_1Greedy`.
- The sentinel INF = 10**18 (dp_change.py:7) is a tag, `Unreachable`, and not a number. The source would mistake a real count of 10**18 or more for "unreachable": a candidate below INF is stored (dp_change.py:30), and `opt[V] >= INF` (dp_change.py:36) rejects only counts from 10**18 up. That needs V of about 10**18, far beyond any table the program can allocate.
- GreedyBaseline.GreedyLargestFirst: requires every coin to be positive. The source has no such check. With a coin c <= 0 and c <= rem, its inner loop never ends, so the model leaves divergence out. The precondition also excludes non-positive coins that never fit, such as coin 0 with V = -1, for which the source finishes and returns (0, []).
- The error messages' text is left out. Each `raise` is an `Outcome` constructor, and `InputError` says which of the three input checks failed.
- Python's dynamic typing is left out. Coins and V are integers here; the source would accept other values and fail in other ways.
