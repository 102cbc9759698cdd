/**
  In-place Fisher–Yates shuffle of a vector of ints (Algorithm P of
  Knuth's The Art of Computer Programming, Vol. 2, section 3.4.2).

  The random engine is replaced by an injected sequence of draws:
  draws[k] is the index `j` drawn on the k-th iteration, the one that
  handles position `i == n - 1 - k`, and the uniform distribution over
  [0, i] guarantees `0 <= j <= i`.
 */
module Shuffle {

  /** Number of iterations (and draws) on a vector of length n: one per i = n-1 down to 1. */
  function DrawCount(n: nat): nat {
    if n == 0 then 0 else n - 1
  }

  /** The indices the loop guard `i >= 1` admits on a vector of length n. */
  function LoopIndices(n: nat): (r: set<int>)
    ensures forall i :: i in r <==> 1 <= i < n
  {
    if n <= 1 then {} else LoopIndices(n - 1) + {n - 1}
  }

  /** There is exactly one draw per index the loop visits. */
  lemma {:induction false} DrawCountIsIterations(n: nat)
    ensures DrawCount(n) == |LoopIndices(n)|
  {
    if n >= 2 {
      DrawCountIsIterations(n - 1);
      assert n - 1 !in LoopIndices(n - 1);
    }
  }

  /**
    The draws a run over n elements can make: one per iteration, each within
    [0, i] as uniform_int_distribution<int>(0, i) guarantees. Every draw is
    therefore an index into the vector.
   */
  predicate ValidDraws(draws: seq<int>, n: nat) {
    && |draws| == DrawCount(n)
    && forall k :: 0 <= k < |draws| ==> 0 <= draws[k] <= n - 1 - k
  }

  /** Every valid draw is an index into the vector, and there are fewer draws than elements. */
  lemma ValidDrawsInBounds(draws: seq<int>, n: nat)
    requires ValidDraws(draws, n)
    ensures forall k :: 0 <= k < |draws| ==> 0 <= draws[k] < n
    ensures |draws| < n || n == 0
  {
  }

  /** Dropping the first draw leaves the draws of a run over one element fewer. */
  lemma ValidDrawsTail(draws: seq<int>, n: nat)
    requires n >= 2 && ValidDraws(draws, n)
    ensures ValidDraws(draws[1..], n - 1)
  {
    forall k | 0 <= k < |draws[1..]|
      ensures 0 <= draws[1..][k] <= (n - 1) - 1 - k
    {
      assert draws[1..][k] == draws[k + 1];
    }
  }

  /** Exchange of positions i and j, as std::swap(a[i], a[j]) does; nothing else changes. */
  function Swap(s: seq<int>, i: nat, j: nat): (r: seq<int>)
    requires i < |s| && j < |s|
    ensures |r| == |s|
    ensures r[i] == s[j] && r[j] == s[i]
    ensures forall k :: 0 <= k < |s| && k != i && k != j ==> r[k] == s[k]
  {
    s[i := s[j]][j := s[i]]
  }

  /** A swap neither loses nor duplicates an element. */
  lemma SwapIsPermutation(s: seq<int>, i: nat, j: nat)
    requires i < |s| && j < |s|
    ensures multiset(Swap(s, i, j)) == multiset(s)
  {
  }

  /** A self-swap changes nothing. */
  lemma SelfSwap(s: seq<int>, i: nat)
    requires i < |s|
    ensures Swap(s, i, i) == s
  {
  }

  /**
    The iterations for i, i-1, ..., 1 applied to s, drawing `draws` in order;
    i == -1 is the empty vector's starting index (size() - 1 as an int).
   */
  function Run(s: seq<int>, draws: seq<int>, i: int): (r: seq<int>)
    requires -1 <= i < |s| && ValidDraws(draws, i + 1)
    ensures |r| == |s|
    decreases i + 1
  {
    if i < 1 then s
    else
      ValidDrawsTail(draws, i + 1);
      Run(Swap(s, i, draws[0]), draws[1..], i - 1)
  }

  /** What the shuffle leaves in a vector holding s when the engine draws `draws`. */
  function Shuffled(s: seq<int>, draws: seq<int>): (r: seq<int>)
    requires ValidDraws(draws, |s|)
    ensures |r| == |s|
    ensures |s| <= 1 ==> r == s
  {
    Run(s, draws, |s| - 1)
  }

  /** One iteration, for i >= 1, uses its draw j in [0, i] and hands the rest of the draws on. */
  lemma RunStep(s: seq<int>, draws: seq<int>, i: int)
    requires 1 <= i < |s| && ValidDraws(draws, i + 1)
    ensures 0 <= draws[0] <= i && ValidDraws(draws[1..], i)
    ensures Run(s, draws, i) == Run(Swap(s, i, draws[0]), draws[1..], i - 1)
  {
    ValidDrawsTail(draws, i + 1);
  }

  /** Only swaps are applied: the iterations keep the same elements, none lost or duplicated. */
  lemma {:induction false} RunIsPermutation(s: seq<int>, draws: seq<int>, i: int)
    requires -1 <= i < |s| && ValidDraws(draws, i + 1)
    ensures multiset(Run(s, draws, i)) == multiset(s)
    decreases i + 1
  {
    if i >= 1 {
      RunStep(s, draws, i);
      SwapIsPermutation(s, i, draws[0]);
      RunIsPermutation(Swap(s, i, draws[0]), draws[1..], i - 1);
    }
  }

  /** The outcome is a permutation of the input, of the same length. */
  lemma ShuffledIsPermutation(s: seq<int>, draws: seq<int>)
    requires ValidDraws(draws, |s|)
    ensures |Shuffled(s, draws)| == |s|
    ensures multiset(Shuffled(s, draws)) == multiset(s)
  {
    RunIsPermutation(s, draws, |s| - 1);
  }

  /** On 0 or 1 elements the loop body never runs, so the vector is left exactly as it was. */
  lemma ShortInputUnchanged(s: seq<int>, draws: seq<int>)
    requires ValidDraws(draws, |s|)
    ensures |s| <= 1 ==> Shuffled(s, draws) == s && draws == []
  {
  }

  /**
    Swapping the top i of the live prefix s[..i+1] with some j <= i agrees
    with the same swap on the whole vector below i, and leaves the positions
    above i as they were.
   */
  lemma SwapTopOfPrefix(s: seq<int>, i: nat, j: nat)
    requires j <= i < |s|
    ensures Swap(s[..i + 1], i, j)[..i] == Swap(s, i, j)[..i]
    ensures Swap(s[..i + 1], i, j)[i..] == [Swap(s, i, j)[i]]
    ensures Swap(s, i, j)[i..] == [Swap(s, i, j)[i]] + s[i + 1..]
  {
    var t := Swap(s, i, j);
    var tp := Swap(s[..i + 1], i, j);
    assert tp == t[..i + 1];
  }

  /**
    The iterations from i downward read and write only positions 0..i:
    everything above i is never written again, and the live prefix is
    shuffled on its own.
   */
  lemma {:induction false} RunFreezesSuffix(s: seq<int>, draws: seq<int>, i: int)
    requires -1 <= i < |s| && ValidDraws(draws, i + 1)
    ensures Run(s, draws, i) == Run(s[..i + 1], draws, i) + s[i + 1..]
    decreases i + 1
  {
    if i < 1 {
      assert s == s[..i + 1] + s[i + 1..];
    } else {
      var p := s[..i + 1];
      var t := Swap(s, i, draws[0]);
      var tp := Swap(p, i, draws[0]);
      var rest := draws[1..];
      RunStep(s, draws, i);
      RunStep(p, draws, i);
      SwapTopOfPrefix(s, i, draws[0]);
      calc {
        Run(s, draws, i);
        Run(t, rest, i - 1);
        { RunFreezesSuffix(t, rest, i - 1); }
        Run(t[..i], rest, i - 1) + t[i..];
        Run(tp[..i], rest, i - 1) + ([t[i]] + s[i + 1..]);
        (Run(tp[..i], rest, i - 1) + tp[i..]) + s[i + 1..];
        { RunFreezesSuffix(tp, rest, i - 1); }
        Run(tp, rest, i - 1) + s[i + 1..];
        Run(p, draws, i) + s[i + 1..];
      }
    }
  }

  /**
    The first draw j alone decides the last position (it receives s[j]);
    the remaining draws shuffle the rest of the vector.
   */
  lemma ShuffledFirstDraw(s: seq<int>, draws: seq<int>)
    requires |s| >= 2 && ValidDraws(draws, |s|)
    ensures 0 <= draws[0] < |s| && ValidDraws(draws[1..], |s| - 1)
    ensures Shuffled(s, draws)
         == Shuffled(Swap(s, |s| - 1, draws[0])[..|s| - 1], draws[1..]) + [s[draws[0]]]
  {
    var n := |s|;
    var t := Swap(s, n - 1, draws[0]);
    RunStep(s, draws, n - 1);
    RunFreezesSuffix(t, draws[1..], n - 2);
    assert t[n - 1..] == [s[draws[0]]];
  }

  /**
    The shuffle of src/shuffle.cpp on an array, with the engine's draws
    injected. `visited` records the index i of every iteration: n-1, n-2,
    ..., 1 in that order, one per draw. It only records the loop counter;
    the same order already follows from the definition of Run.
   */
  method Shuffle(a: array<int>, draws: seq<int>) returns (ghost visited: seq<int>)
    requires ValidDraws(draws, a.Length)
    modifies a
    ensures a[..] == Shuffled(old(a[..]), draws)
    ensures multiset(a[..]) == multiset(old(a[..]))
    ensures a.Length <= 1 ==> a[..] == old(a[..])
    ensures |visited| == DrawCount(a.Length)
    ensures forall k :: 0 <= k < |visited| ==> visited[k] == a.Length - 1 - k
  {
    ghost var final := Shuffled(a[..], draws);
    var n := a.Length;
    var i: int := n - 1;
    ghost var rest := draws;
    visited := [];
    while i >= 1
      invariant -1 <= i < n && (i == -1 ==> n == 0)
      invariant rest == draws[n - 1 - i..] && ValidDraws(rest, i + 1)
      invariant final == Run(a[..], rest, i)
      invariant Countdown(visited, n, i)
    {
      var j := draws[n - 1 - i];
      ghost var before := a[..];
      RunStep(before, rest, i);
      a[i], a[j] := a[j], a[i];
      assert a[..] == Swap(before, i, j);
      CountdownStep(visited, n, i);
      visited := visited + [i];
      rest := rest[1..];
      i := i - 1;
    }
    ShuffledIsPermutation(old(a[..]), draws);
    ShortInputUnchanged(old(a[..]), draws);
  }

  /** The trace of a loop over n elements that is about to handle index i: n-1, n-2, ..., i+1. */
  ghost predicate Countdown(visited: seq<int>, n: nat, i: int) {
    && |visited| == n - 1 - i
    && forall k :: 0 <= k < |visited| ==> visited[k] == n - 1 - k
  }

  /** Handling index i extends the trace by i. */
  lemma CountdownStep(visited: seq<int>, n: nat, i: int)
    requires Countdown(visited, n, i)
    ensures Countdown(visited + [i], n, i - 1)
  {
  }

  /** The draws that make every iteration swap position i with itself. */
  function SelfDraws(n: nat): (d: seq<int>)
    ensures ValidDraws(d, n)
    ensures forall k :: 0 <= k < |d| ==> d[k] == n - 1 - k
    decreases n
  {
    if n <= 1 then [] else [n - 1] + SelfDraws(n - 1)
  }

  /** If every draw picks j == i, each swap is a self-swap and the iterations change nothing. */
  lemma {:induction false} SelfDrawsRunUnchanged(s: seq<int>, i: int)
    requires -1 <= i < |s|
    ensures Run(s, SelfDraws(i + 1), i) == s
    decreases i + 1
  {
    if i >= 1 {
      var d := SelfDraws(i + 1);
      RunStep(s, d, i);
      assert d[1..] == SelfDraws(i);
      SelfSwap(s, i);
      SelfDrawsRunUnchanged(s, i - 1);
    }
  }

  /** If every draw picks j == i, the shuffle leaves the vector unchanged. */
  lemma SelfDrawsLeaveUnchanged(s: seq<int>)
    ensures Shuffled(s, SelfDraws(|s|)) == s
  {
    SelfDrawsRunUnchanged(s, |s| - 1);
  }

  /** Position of some occurrence of x in s. */
  function IndexOf(s: seq<int>, x: int): (k: nat)
    requires x in s
    ensures k < |s| && s[k] == x
  {
    if s[0] == x then 0 else 1 + IndexOf(s[1..], x)
  }

  /**
    Draws that turn s into its permutation t: each step draws a position
    holding the element t wants last, then recurses on the prefix.
   */
  function DrawsFor(s: seq<int>, t: seq<int>): (d: seq<int>)
    requires multiset(s) == multiset(t)
    ensures |d| == DrawCount(|s|)
    decreases |s|
  {
    PermutationShape(s, t);
    if |s| <= 1 then
      []
    else
      var n := |s|;
      var j := IndexOf(s, t[n - 1]);
      SplitOffLast(s, t, j);
      [j] + DrawsFor(Swap(s, n - 1, j)[..n - 1], t[..n - 1])
  }

  /** Every permutation t of s is reachable: the draws DrawsFor builds are valid and make the shuffle of s produce exactly t. */
  lemma {:induction false} DrawsForReaches(s: seq<int>, t: seq<int>)
    requires multiset(s) == multiset(t)
    ensures ValidDraws(DrawsFor(s, t), |s|) && Shuffled(s, DrawsFor(s, t)) == t
    decreases |s|
  {
    PermutationShape(s, t);
    if |s| >= 2 {
      var n := |s|;
      var j := IndexOf(s, t[n - 1]);
      SplitOffLast(s, t, j);
      var p := Swap(s, n - 1, j)[..n - 1];
      DrawsForReaches(p, t[..n - 1]);
      var rest := DrawsFor(p, t[..n - 1]);
      assert DrawsFor(s, t) == [j] + rest;
      PutLastThenRest(s, t, j, rest);
    }
  }

  /** Drawing a position that holds t's last element, then draws that shuffle the prefix into t's prefix, yields t. */
  lemma PutLastThenRest(s: seq<int>, t: seq<int>, j: nat, rest: seq<int>)
    requires |s| == |t| >= 2 && j < |s| && s[j] == t[|s| - 1]
    requires ValidDraws(rest, |Swap(s, |s| - 1, j)[..|s| - 1]|)
    requires Shuffled(Swap(s, |s| - 1, j)[..|s| - 1], rest) == t[..|s| - 1]
    ensures ValidDraws([j] + rest, |s|) && Shuffled(s, [j] + rest) == t
  {
    FirstDrawThenRest(s, j, rest);
    SplitLast(t);
  }

  /** A permutation has the same length; a short one is equal, and a longer one's last element occurs in the original. */
  lemma PermutationShape(s: seq<int>, t: seq<int>)
    requires multiset(s) == multiset(t)
    ensures |s| == |t|
    ensures |s| <= 1 ==> s == t
    ensures |t| >= 1 ==> t[|t| - 1] in s
  {
    assert |s| == |multiset(s)| == |multiset(t)| == |t|;
    if |t| >= 1 {
      assert t[|t| - 1] in multiset(t);
    }
    if |s| == 1 {
      assert s[0] in multiset(t);
      assert s == [s[0]] && t == [t[0]];
    }
  }

  /** A non-empty sequence holds its prefix and its last element. */
  lemma MultisetSplitLast(u: seq<int>)
    requires |u| >= 1
    ensures multiset(u) == multiset(u[..|u| - 1]) + multiset{u[|u| - 1]}
  {
    SplitLast(u);
  }

  /** Two permutations of each other that end alike have prefixes that are permutations of each other. */
  lemma PrefixPermutation(u: seq<int>, t: seq<int>)
    requires |u| == |t| >= 1 && multiset(u) == multiset(t) && u[|u| - 1] == t[|t| - 1]
    ensures multiset(u[..|u| - 1]) == multiset(t[..|t| - 1])
  {
    var x := u[|u| - 1];
    MultisetSplitLast(u);
    MultisetSplitLast(t);
    assert multiset(u[..|u| - 1]) == multiset(u) - multiset{x};
    assert multiset(t[..|t| - 1]) == multiset(t) - multiset{x};
  }

  /** After the first step moves t's last element into place, the rest of s is a permutation of the rest of t. */
  lemma SplitOffLast(s: seq<int>, t: seq<int>, j: nat)
    requires multiset(s) == multiset(t) && |s| == |t| >= 1 && j < |s| && s[j] == t[|t| - 1]
    ensures multiset(Swap(s, |s| - 1, j)[..|s| - 1]) == multiset(t[..|t| - 1])
  {
    var u := Swap(s, |s| - 1, j);
    assert |u| == |t| >= 1 && multiset(u) == multiset(t) && u[|u| - 1] == t[|t| - 1] by {
      SwapIsPermutation(s, |s| - 1, j);
    }
    PrefixPermutation(u, t);
  }

  /** The shuffle with first draw j and then `rest`: swap the last position with j, then shuffle the prefix with `rest`. */
  lemma FirstDrawThenRest(s: seq<int>, j: nat, rest: seq<int>)
    requires |s| >= 2 && j < |s| && ValidDraws(rest, |s| - 1)
    ensures ValidDraws([j] + rest, |s|)
    ensures Shuffled(s, [j] + rest) == Shuffled(Swap(s, |s| - 1, j)[..|s| - 1], rest) + [s[j]]
  {
    var n := |s|;
    var d := [j] + rest;
    forall k | 1 <= k < |d| ensures 0 <= d[k] <= n - 1 - k {
      assert d[k] == rest[k - 1];
    }
    assert d[0] == j && d[1..] == rest;
    ShuffledFirstDraw(s, d);
  }

  /** A non-empty sequence is its prefix followed by its last element. */
  lemma SplitLast(t: seq<int>)
    requires |t| >= 1
    ensures t == t[..|t| - 1] + [t[|t| - 1]]
  {
  }

  /**
    A vector t is a possible outcome of shuffling s exactly when t is a
    permutation of s.
   */
  lemma ReachableIffPermutation(s: seq<int>, t: seq<int>)
    ensures (exists d :: ValidDraws(d, |s|) && Shuffled(s, d) == t) <==> multiset(t) == multiset(s)
  {
    if multiset(t) == multiset(s) {
      DrawsForReaches(s, t);
      var d := DrawsFor(s, t);
      assert ValidDraws(d, |s|) && Shuffled(s, d) == t;
    }
    if exists d :: ValidDraws(d, |s|) && Shuffled(s, d) == t {
      var d :| ValidDraws(d, |s|) && Shuffled(s, d) == t;
      ShuffledIsPermutation(s, d);
    }
  }

  /** No value occurs twice. */
  predicate Distinct(s: seq<int>) {
    forall p, q :: 0 <= p < q < |s| ==> s[p] != s[q]
  }

  /** Without distinct values the draws are not determined by the outcome: two draws give the same vector. */
  lemma RepeatedValuesShareOutcome()
    ensures ValidDraws([0], 2) && ValidDraws([1], 2)
    ensures Shuffled([5, 5], [0]) == Shuffled([5, 5], [1]) == [5, 5]
  {
    RunStep([5, 5], [0], 1);
    RunStep([5, 5], [1], 1);
  }

  /** Swapping two positions of a vector of distinct values keeps its values distinct. */
  lemma SwapKeepsDistinct(s: seq<int>, i: nat, j: nat)
    requires i < |s| && j < |s| && Distinct(s)
    ensures Distinct(Swap(s, i, j))
  {
    var r := Swap(s, i, j);
    forall p, q | 0 <= p < q < |s| ensures r[p] != r[q] {
      var sp := if p == i then j else if p == j then i else p;
      var sq := if q == i then j else if q == j then i else q;
      assert r[p] == s[sp] && r[q] == s[sq] && sp != sq;
    }
  }

  /**
    On a vector of distinct values, different draw sequences give different
    outcomes. With DrawsFor this makes the valid draw sequences and the
    permutations of the input correspond one to one.
   */
  lemma {:induction false} DrawsDetermineOutcome(s: seq<int>, d1: seq<int>, d2: seq<int>)
    requires Distinct(s) && ValidDraws(d1, |s|) && ValidDraws(d2, |s|)
    requires Shuffled(s, d1) == Shuffled(s, d2)
    ensures d1 == d2
    decreases |s|
  {
    if |s| >= 2 {
      var n := |s|;
      ShuffledFirstDraw(s, d1);
      ShuffledFirstDraw(s, d2);
      assert Shuffled(s, d1)[n - 1] == s[d1[0]];
      assert Shuffled(s, d2)[n - 1] == s[d2[0]];
      assert d1[0] == d2[0];
      var u := Swap(s, n - 1, d1[0]);
      SwapKeepsDistinct(s, n - 1, d1[0]);
      assert Shuffled(u[..n - 1], d1[1..]) == Shuffled(s, d1)[..n - 1];
      assert Shuffled(u[..n - 1], d2[1..]) == Shuffled(s, d2)[..n - 1];
      assert Distinct(u[..n - 1]);
      DrawsDetermineOutcome(u[..n - 1], d1[1..], d2[1..]);
      assert d1 == [d1[0]] + d1[1..];
      assert d2 == [d2[0]] + d2[1..];
    }
  }
}
