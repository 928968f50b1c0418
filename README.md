# Weighted round-robin selector, modelled in Dafny

This project models `weighted.go`, the weighted round-robin selector `RoundRobbin` of the Go
package `weighted`. The selector keeps four pieces of state:

- a registry `nodes`, mapping integer keys to nodes that carry a payload and a `uint64` weight;
- a cursor `lastNodeIndex`;
- an acceptance level `currentNodeWeight`;
- a step `weightGCD`, the greatest common divisor of all weights.

`New` indexes a list of nodes by position. `SetNode` and `DeleteNode` change one key and recompute
the step. `GetNode` moves the cursor round the registry. Each time the cursor wraps to index 0,
`GetNode` lowers the level by the step; when the level reaches zero it resets it to the largest
weight. `GetNode` returns the first node whose weight meets the level.

The project has three modules:

- `Euclid` (`gcd.dfy`): Euclid's algorithm on naturals, standing for `big.Int.GCD`. It also has the
  left fold that `calcGCD` performs over a list of weights, with proofs that the fold is the GCD of
  the list and that it does not depend on the list's order.
- `Weighted` (`weighted.dfy`):
  - the selector as a class `RoundRobin` whose methods update its fields;
  - `calcGCD` as a method with its accumulator loop;
  - a pure description `Step` of one iteration of `GetNode`'s `for {}` loop.

  `GetNode` is proved to run exactly the iterations `Step` prescribes. The loop terminates from
  every state satisfying `Returns`, and never returns from any other state. Go's 64-bit unsigned
  subtraction is modelled with wrap-around (`Sub64`). The run-time panics are modelled as outcomes:
  `calcGCD` on an empty list, and the dereference of a missing key.
- `Fairness` (`fairness.dfy`): what many calls hand out. The iterations of successive calls form
  one stream. On a registry with keys `0 .. n-1` and a positive step `g`, one cycle from a level
  reset returns each node `weight / g` times. Equivalently, any `sum(weights) / g` successive
  calls from a level reset return each node `weight / g` times. Both are proved, and then
  instantiated on the example program's registry (apple 2, banana 4, grape 4, orange 18).

Four behaviours of the code that a reader might not expect:

- **Selections per cycle.** Each node is selected `weight / g` times per cycle, not `weight` times.
  A cycle of calls from a level reset has `sum(weights) / g` calls: 14 for the example, not 28
  (`Fairness.SessionCycle`, `Fairness.FruitsCalls`).
- **All-zero weights.** When every weight is zero, `nil` is returned only where the cursor wraps.
  Every other call returns the next zero-weight node (`Fairness.ZeroWeightsStep`).
- **Mutations can fail.** Deleting the last node makes `calcGCD` index an empty slice, which
  panics (`Weighted.RoundRobin.DeleteNode`).
- **Termination.** `GetNode`'s loop does not always terminate. From a state with every weight zero
  and a positive level, it never returns (`Weighted.NeverReturns`). `SetNode` and `DeleteNode` can
  leave such a state, because they do not touch the level. A registry whose keys are not
  `0 .. n-1` makes the loop dereference a missing key (`Weighted.CallFacts`).

## Model

| member | source | states |
|---|---|---|
| Euclid.Gcd | weighted.go:96-103 | The result divides both arguments. `gcd(0, n) == n` and `gcd(m, 0) == m`. The result is at most one of the arguments. |
| Euclid.GcdGreatest | weighted.go:96-103 | Every common divisor of the two arguments divides their GCD. |
| Euclid.GcdSelf | weighted.go:89-91 | `gcd(x, x) == x`. So `calcGCD`'s first iteration, which folds `values[0]` into itself, leaves it unchanged. |
| Euclid.GcdOfIsGcd | weighted.go:88-94 | The fold over a list divides every element, and every common divisor of the list divides it. |
| Euclid.GcdOfPermutation | weighted.go:88-94 | Any permutation of the list folds to the same value, so the map's random iteration order does not change the step. |
| Euclid.GcdOfZero | weighted.go:88-94 | The fold is 0 exactly when every element is 0. |
| Euclid.GcdOfBounded | weighted.go:88-94 | With a positive element, the fold is positive and at most that element. |
| Euclid.IsGcdUnique | weighted.go:88-94 | Two greatest common divisors of one list are equal, so the step is determined by the weights. |
| Weighted.Sub64 | weighted.go:68 | Subtraction wraps modulo 2^64: adding the subtrahend back gives the minuend modulo 2^64. |
| Weighted.MaxWeight | weighted.go:105-114 | The value is at least every weight and equals some weight of a non-empty registry. It is 0 for an empty one. |
| Weighted.GcdBelowMax | weighted.go:70-75 | With a positive step that is the weights' GCD, the largest weight is a positive multiple of the step, so the reset never returns `nil`. |
| Weighted.ZeroGcdAllZero | weighted.go:70-75 | A zero step means every weight is zero, so the reset level is 0. |
| Weighted.Step | weighted.go:60-81 | One iteration: on an empty registry it returns `nil` and leaves the cursor as it was. Otherwise the cursor ends on an index in `0 .. n-1`. |
| Weighted.CallFacts | weighted.go:60-81 | One call's result on an empty registry is `nil` after a single iteration, with nothing moved. A returned node is the one under the cursor and meets the level. A panic means a missing key in a registry whose keys are not `0 .. n-1`. `nil` on a non-empty registry means every weight is zero, with the cursor at 0 and the level at 0. |
| Weighted.FullPassStops | weighted.go:78-79 | A whole pass ends the loop unless its level exceeds every weight: a missing key panics, and a node of the largest weight meets any lower level. |
| Weighted.ZeroStops | weighted.go:67-80 | With every weight zero and level 0, every iteration returns. |
| Weighted.ZeroSpins | weighted.go:67-80 | With every weight zero and a positive level, an iteration neither returns nor changes the level. |
| Weighted.ZeroSpinsOn | weighted.go:67-80 | The same holds after any number of iterations. |
| Weighted.NeverReturns | weighted.go:60-81 | From a state outside `Returns` (keys `0 .. n-1`, step 0, level positive), no number of iterations ends the call. |
| Weighted.StepReturns | weighted.go:60-81 | Every iteration keeps the state inside `Returns`. |
| Weighted.StepProgress | weighted.go:60-81 | Every iteration that does not return strictly lowers the termination measure (fruitless passes ahead, then iterations left in the pass). |
| Weighted.CalcGcd | weighted.go:88-94 | It panics (`None`) exactly on an empty list. Otherwise it returns the fold of `gcd` over the list, which is the list's greatest common divisor. |
| Weighted.WeightsGcd | weighted.go:27-31 | Weights read off the registry in any order of its keys fold to the GCD of the registry's weights. |
| Weighted.IndexNodes | weighted.go:14-17 | Key `i` holds the `i`-th node of the list. There are exactly as many keys as nodes, and they are `0 .. n-1`. |
| Weighted.RoundRobin.constructor | weighted.go:13-33 | The map holds the list by position, and the cursor is -1. An empty list leaves the level and the step at 0. Otherwise the level is node 0's weight and the step is the GCD of all weights. The resulting state is one from which `GetNode` returns. |
| Weighted.RoundRobin.GetWeights | weighted.go:116-122 | Returns one weight per key, each key visited exactly once, in the map's iteration order. |
| Weighted.RoundRobin.GetMaxWeight | weighted.go:105-114 | The result bounds every weight and is one of them. It is 0 on an empty registry, and equals `MaxWeight`. |
| Weighted.RoundRobin.SetNode | weighted.go:43-48 | Exactly key `index` is inserted or overwritten, and the step becomes the GCD of the new weights. The cursor and the level are unchanged. |
| Weighted.RoundRobin.DeleteNode | weighted.go:50-55 | Exactly key `index` is removed; an absent key is a no-op. The step becomes the GCD of the remaining weights. Deleting the last node panics in `calcGCD`, leaving the step as it was. The cursor and the level are unchanged. |
| Weighted.RoundRobin.Size | weighted.go:84-86 | Returns the number of nodes. |
| Weighted.RoundRobin.Advance | weighted.go:61-80 | One pass of the loop body changes the cursor and the level exactly as `Step` says, and leaves the registry and the step alone. |
| Weighted.RoundRobin.GetNode | weighted.go:57-82 | The call runs exactly the iterations `Call` describes. It keeps the state one from which the next call returns, and leaves the registry and the step unchanged. It also gives the `CallFacts` guarantees about the result. |
| Fairness.CallHits | weighted.go:60-81 | The iterations of one call end where the call leaves the cursor. The only index they return is the returned node's. |
| Fairness.SessionHits | weighted.go:57-82 | Successive calls return exactly the indices the stream of their iterations returns, and end where that stream ends. |
| Fairness.DenseSelects | weighted.go:70-79 | On a registry with keys `0 .. n-1` and a positive step, every call returns a node. |
| Fairness.StepAligned | weighted.go:65-77 | A level that is a positive multiple of a positive step stays one after an iteration. |
| Fairness.AfterAligned | weighted.go:65-77 | A level that is a positive multiple of a positive step stays one after any number of iterations. |
| Fairness.CallAligned | weighted.go:65-79 | A call from such a state leaves such a state. The node it returns weighs at least the step, so it never returns a zero-weight node. |
| Fairness.AboveCount | weighted.go:78-79 | A pass returns node `k` once if its weight meets the level, and not at all otherwise. |
| Fairness.Pass | weighted.go:65-80 | A whole pass from a wrap returns, in increasing order, the indices whose weight meets the new level, and ends at the last index. |
| Fairness.SweepRun | weighted.go:60-81 | The passes down from a positive multiple of the step return the sweep of their levels and end at a cycle start. |
| Fairness.SweepCount | weighted.go:78-79 | Over a sweep, node `k` is returned once per level its weight meets. |
| Fairness.MetCount | weighted.go:67-75 | A weight that is a multiple of the step meets `min(weight, top) / g` of the levels down from a top level that is also a multiple. |
| Fairness.CycleLength | weighted.go:65-77 | A cycle has `n * max / g` iterations. |
| Fairness.CycleSweep | weighted.go:60-81 | A cycle runs the sweep down from the largest weight and ends at a cycle start. |
| Fairness.Cycle | weighted.go:60-81 | Over one cycle from a level reset, node `k` is returned exactly `weight(k) / g` times, nothing outside the registry is returned, and the cycle ends at another reset. |
| Fairness.TallyTotal | example/main.go:30-35 | For a sequence of indices in `0 .. n-1`, the per-index tallies add up to its length. |
| Fairness.TallyWeights | weighted.go:78-79 | If every node's tally times `g` is its weight, the tallies times `g` add up to the total weight. |
| Fairness.CycleSelections | weighted.go:60-81 | A cycle returns `sum(weights) / g` nodes. |
| Fairness.SessionSelects | weighted.go:57-82 | With keys `0 .. n-1` and a positive step, a session of calls returns one node per call. |
| Fairness.SameLengthRuns | weighted.go:60-81 | Two runs from one cursor that return equally many indices return the same indices. |
| Fairness.SessionCycle | weighted.go:57-82 | From a cycle start, any `sum(weights) / g` successive calls return node `k` exactly `weight(k) / g` times and nothing outside the registry. This holds even when the last call runs past the end of the cycle. |
| Fairness.NewReachesCycle | weighted.go:21-25 | From `New`'s state with node 0's weight `w0` positive, a cycle start is reached after `n * (w0 / g - 1)` iterations. |
| Fairness.ZeroSeedWraps | weighted.go:67-70 | If node 0 weighs 0 and the step is positive, the first wrap lowers the level below zero, to `2^64 - g`. |
| Fairness.HighPassEmpty | weighted.go:67-80 | A pass whose level exceeds every weight returns nothing. |
| Fairness.ZeroWeightsStep | weighted.go:67-80 | With every weight zero, each call runs a single iteration. It returns `nil` where the cursor wraps, and the next (zero-weight) node everywhere else. |
| Fairness.FruitsGcd | example/main.go:11-28 | The example registry's step is 2. |
| Fairness.FruitsDense | example/main.go:11-28 | The example registry has keys `0 .. 3`. |
| Fairness.FruitsTotal | example/main.go:11-28 | The example registry's weights add up to 28. |
| Fairness.FruitsMax | example/main.go:11-28 | The example registry's largest weight is 18. |
| Fairness.FruitsCalls | example/main.go:11-35 | From `New`'s state on the example, any 14 successive calls return a node each: apple once, banana and grape twice each, and orange 9 times. |
| Fairness.FruitsCycle | example/main.go:11-35 | `New`'s state on the example is a cycle start. Each 36-iteration cycle returns 14 nodes: apple once, banana and grape twice each, and orange 9 times. |

## Left out

- The mutex (weighted.go:36, 44-45, 51-52, 58-59): each call is treated as atomic. `Size` reads the map without the lock; the model gives it no meaning beyond `|nodes|`.
- `big.Int.GCD` (weighted.go:97-102) is a foreign library. It is replaced by Euclid's algorithm on naturals, which agrees with it for non-negative arguments (Go 1.14 and later; earlier versions returned 0 when either argument was 0).
- `Node.Value` (`interface{}`) is a type parameter. Nodes are values, so `nil` `*Node` entries are not modelled: a `nil` node passed to `New` or `SetNode`, and two keys aliasing one node. A `nil` entry at key 0 would also make `New` panic. Nor is the caller's aliasing modelled: the caller keeps the `*Node` pointers it passed to `New` or `SetNode` and receives registry pointers from `GetNode`, and writing `Weight` through them changes weights without `weightGCD` being recomputed.
- Go's random map iteration order is a nondeterministic choice of the next key (`:|`) in `GetWeights` and `GetMaxWeight`.
- Go's `int` cursor is unbounded in the model. `lastNodeIndex + 1` cannot overflow, since the cursor stays below the map size.
- Weighted.RoundRobin.GetNode: requires `Live()`: not every weight zero with a positive level on a registry with keys `0 .. n-1`. The code accepts that state too, but the loop then never returns; `Weighted.NeverReturns` proves this for every iteration count. After `SetNode` or `DeleteNode` the model cannot call `GetNode` without re-establishing `Live()`.
- Weighted.RoundRobin.DeleteNode: the panic is returned as `panicked` rather than unwinding. The registry is left without the key and with the old step, as the code leaves it before panicking.
- The state after the first wrap when node 0 weighs 0 (`Fairness.ZeroSeedWraps`) is shown, but the roughly `2^64 / g` fruitless passes that follow are not counted. Fairness is proved from cycle starts, and `Fairness.NewReachesCycle` covers a positive first weight.
- example/main.go's printing, type assertion and tally map are I/O. Its weights are used only as the registry of `Fairness.FruitsCycle` and `Fairness.FruitsCalls`.
