# Fisher–Yates shuffle, modelled and verified in Dafny

This project models `shuffle(vector<int>& a)` from `src/shuffle.cpp`: the
backward Fisher–Yates shuffle (Algorithm P in section 3.4.2 of Knuth's
*The Art of Computer Programming*, Vol. 2). It walks an index `i` from
`a.size() - 1` down to `1`. At each step it draws a `j` uniformly from
`[0, i]` and swaps `a[i]` with `a[j]`, in place.

Everything is in one module, `Shuffle` (`shuffle.dfy`):

- `Shuffle.Shuffle` is the loop itself, over an `array<int>` with
  `modifies a`. The random engine is replaced by an injected sequence of
  draws. `draws[k]` is the `j` drawn on the k-th iteration, the one that
  handles `i == n - 1 - k`. `ValidDraws` states what
  `uniform_int_distribution<int>(0, i)` guarantees: each draw lies in
  `[0, i]`, and there is one draw per iteration.
- `Run` and `Shuffled` are the reference definition the method is proved
  against. `Run(s, draws, i)` applies the iterations for `i, i-1, ..., 1` to
  a sequence. `Shuffled(s, draws)` starts at `i == |s| - 1`.
- Lemmas about `Run` and `Shuffled` cover several properties. The outcome
  is a permutation. Short inputs are untouched. Positions above `i` are
  never written again. Self-draws change nothing.
- Two further results are the combinatorial basis of the algorithm's
  uniformity. First, every permutation of the input is the outcome of some
  valid draw sequence (`DrawsFor`, `DrawsForReaches`, `ReachableIffPermutation`). Second, on
  distinct values, different draw sequences give different outcomes
  (`DrawsDetermineOutcome`). Together they make valid draw sequences and
  permutations correspond one to one for a vector of distinct values.
  Both are statements about the algorithm's draw space, where every draw
  in `[0, i]` is possible. The program's engine cannot produce every such
  draw sequence (see "## Left out").

The loop index is an `int` initialised to `n - 1`, as in the source's
`int i = a.size() - 1`. For an empty vector it starts at `-1` and the loop
does not run.

## Model

| member | source | states |
|---|---|---|
| `Shuffle.Shuffle` | src/shuffle.cpp:7-17 | Each draw `j` satisfies `0 <= j <= i < n`, so both swapped elements are in bounds. Afterwards the array equals `Shuffled(old contents, draws)` and is a permutation of its old contents. Arrays of length 0 or 1 are left exactly unchanged. The indices visited are `n-1, n-2, ..., 1`, in that order, one per draw. |
| `Shuffle.DrawCountIsIterations` | src/shuffle.cpp:12 | `DrawCount(n)`, the number of draws, equals the number of indices the loop visits: those `i` with `1 <= i < n`, as the bounds and guard of the `for` give them. |
| `Shuffle.LoopIndices` | src/shuffle.cpp:12 | An index is visited by the loop exactly when `1 <= i < n`. |
| `Shuffle.ValidDrawsInBounds` | src/shuffle.cpp:13-15 | `ValidDraws` is the whole assumption about the random source. There is one draw per iteration, and the draw for index `i` lies in `[0, i]`, as `uniform_int_distribution<int>(0, i)` promises. Nothing else is assumed: no seed, no engine state, no probabilities. Consequently every draw is an in-bounds index for `a[j]`, and there are fewer draws than elements. |
| `Shuffle.ValidDrawsTail` | src/shuffle.cpp:12-14 | After the first iteration's draw is consumed, the remaining draws are exactly those of a run over one element fewer. |
| `Shuffle.Shuffled` | src/shuffle.cpp:7-17 | The whole function, starting from `i = a.size() - 1`, as a function of the input and the draws. The outcome has the input's length, and an input of length 0 or 1 comes out unchanged. |
| `Shuffle.Swap` | src/shuffle.cpp:15 | `swap(a[i], a[j])` puts the old `a[j]` at `i` and the old `a[i]` at `j`. The length and every other position are unchanged. |
| `Shuffle.SwapIsPermutation` | src/shuffle.cpp:15 | A swap neither loses nor duplicates an element: the multiset is unchanged. |
| `Shuffle.SelfSwap` | src/shuffle.cpp:15 | When the draw is `j == i`, `swap(a[i], a[i])` leaves the vector unchanged. |
| `Shuffle.Run` | src/shuffle.cpp:12-16 | Running the remaining iterations keeps the length of the vector, because only swaps are applied. |
| `Shuffle.RunStep` | src/shuffle.cpp:12-15 | An iteration with `i >= 1` consumes one draw. That draw lies in `[0, i]`, and the remaining draws are valid for index `i - 1`. The outcome is that of swapping `i` with the draw and continuing from `i - 1`. |
| `Shuffle.RunIsPermutation` | src/shuffle.cpp:12-16 | The iterations from any `i` downward keep the multiset of elements: nothing is lost or duplicated. |
| `Shuffle.ShuffledIsPermutation` | src/shuffle.cpp:7-17 | The shuffle's outcome has the input's length and the input's multiset of elements. |
| `Shuffle.ShortInputUnchanged` | src/shuffle.cpp:12 | With 0 or 1 elements there are no draws and the vector is returned unchanged, because the loop guard `i >= 1` fails at once. |
| `Shuffle.SwapTopOfPrefix` | src/shuffle.cpp:15 | Swapping `i` with some `j <= i` inside the prefix `s[..i+1]` matches the same swap on the whole vector. Positions above `i` are left as they were. |
| `Shuffle.RunFreezesSuffix` | src/shuffle.cpp:12-15 | The iterations from `i` downward change only positions `0..i`. The suffix above `i` comes out unchanged, and the prefix is shuffled on its own. So once the iteration for an index is done, that position is never written again. |
| `Shuffle.ShuffledFirstDraw` | src/shuffle.cpp:12-15 | The first draw `j` alone decides the last position, which receives `s[j]`. The remaining draws shuffle the prefix of length `n - 1`. |
| `Shuffle.CountdownStep` | src/shuffle.cpp:12 | Handling index `i` appends `i` to the trace of visited indices. The trace stays `n-1, n-2, ..., i`. |
| `Shuffle.SelfDraws` | src/shuffle.cpp:13-14 | The draw sequence with `j == i` at every iteration is a valid sequence of draws. |
| `Shuffle.SelfDrawsRunUnchanged` | src/shuffle.cpp:13-15 | If every draw picks `j == i`, the iterations from any `i` downward change nothing. |
| `Shuffle.SelfDrawsLeaveUnchanged` | src/shuffle.cpp:13-15 | If every draw picks `j == i`, the shuffle leaves the vector unchanged, since each swap is a self-swap. |
| `Shuffle.DrawsFor` | src/shuffle.cpp:12-14 | For a permutation `t` of `s`, it builds one draw per iteration: at each step, the position holding the element `t` wants last. |
| `Shuffle.DrawsForReaches` | src/shuffle.cpp:12-16 | For every permutation `t` of `s`, the draws `DrawsFor` builds are valid, each within `[0, i]`, and under them the shuffle of `s` yields exactly `t`. |
| `Shuffle.ReachableIffPermutation` | src/shuffle.cpp:7-17 | `t` is the outcome of shuffling `s` under some valid draw sequence if and only if `t` is a permutation of `s`. Both directions are proved. |
| `Shuffle.SwapKeepsDistinct` | src/shuffle.cpp:15 | A swap keeps a vector of distinct values distinct. |
| `Shuffle.RepeatedValuesShareOutcome` | src/shuffle.cpp:12-15 | On `[5, 5]` the two valid draws `[0]` and `[1]` give the same outcome. Without distinct values, the outcome does not determine the draws. |
| `Shuffle.DrawsDetermineOutcome` | src/shuffle.cpp:12-15 | On a vector of distinct values, two valid draw sequences with the same outcome are equal. With `DrawsForReaches`, draw sequences and permutations of a distinct-valued vector correspond one to one. |

## Left out

- The random engine (`random_device`, `mt19937` seeded from it, `uniform_int_distribution`) is not modelled. The draws are a parameter, constrained only to lie in `[0, i]`.
- Uniformity of the output distribution is a probabilistic claim and is not stated. The model proves its combinatorial basis: for a vector of distinct values, draw sequences and permutations correspond one to one. It does not count the `n!` draw sequences, and it does not state that each sequence is equally likely.
- Shuffle.ReachableIffPermutation: reachability and the correspondence hold over the algorithm's draw space, not over what the program can draw. There are two limits. First, with repeated values the correspondence is not one to one: different draw sequences can give the same outcome (for `[5, 5]`, draws `[0]` and `[1]` both give `[5, 5]`). `DrawsDetermineOutcome` therefore requires distinct values. Second, `mt19937 mt(rd())` is seeded with one 32-bit value, so for a given input the program yields at most 2^32 draw sequences and at most 2^32 outcomes. Because 13! > 2^32, the program cannot reach every permutation of a vector of 13 or more distinct values, and uniformity over all permutations fails there.
- The conversion of `a.size() - 1` from `size_t` to `int` is not modelled for vectors longer than the `int` range. The model assumes the length fits in `int`. An empty vector gives `i == -1`, as in the source.
- Concurrency and aliasing of the caller's vector are not modelled: the model is single-threaded.
- `shuffle.h` is not part of this model. It only declares the function.
