/** The arena of N cells and the forward links that init_links threads through it.
    A cell is named by its index in [0, N); the link of cell i is an index too. */
module Cycle {

  /** size_t arithmetic wraps modulo 2^64. */
  const SizeModulus: nat := 0x1_0000_0000_0000_0000

  /** The forward link init_links gives cell i of an n-cell arena: the next cell,
      except that the tail points back to the head. */
  function Succ(n: nat, i: nat): (j: nat)
    requires i < n
    ensures j < n
  {
    if i < n - 1 then i + 1 else 0
  }

  /** The forward links form one ring: every cell links to its successor. */
  predicate IsRing(forward: seq<nat>)
  {
    1 <= |forward| &&
    forall i :: 0 <= i < |forward| ==> forward[i] == Succ(|forward|, i)
  }

  /** The links of an n-cell arena after init_links, as a value. */
  function Links(n: nat): (forward: seq<nat>)
    requires 1 <= n
    ensures |forward| == n && IsRing(forward)
  {
    seq(n, i requires 0 <= i < n => Succ(n, i))
  }

  /** init_links: link cell i to cell i + 1 for every i < n - 1, then the tail to the
      head. Afterwards cell i links to cell (i + 1) mod n. */
  method InitLinks(n: nat) returns (forward: seq<nat>)
    requires 1 <= n
    ensures |forward| == n && IsRing(forward)
    ensures forall i :: 0 <= i < n ==> forward[i] == (i + 1) % n
  {
    forward := [];
    var i := 0;
    while i < n - 1
      invariant i <= n - 1
      invariant |forward| == i
      invariant forall k :: 0 <= k < i ==> forward[k] == k + 1
    {
      forward := forward + [i + 1];
      i := i + 1;
    }
    forward := forward + [0];
    forall i | 0 <= i < n
      ensures forward[i] == (i + 1) % n
    {
      ModOnce(i + 1, n);
    }
  }

  /** The successor is one step on, modulo n. */
  lemma SuccIsModular(n: nat, i: nat)
    requires i < n
    ensures Succ(n, i) == (i + 1) % n
  {
    ModOnce(i + 1, n);
  }

  /** The cell reached from cell i by following k forward links. */
  function Follow(forward: seq<nat>, i: nat, k: nat): (j: nat)
    requires IsRing(forward) && i < |forward|
    ensures j < |forward|
    decreases k
  {
    if k == 0 then i else Follow(forward, forward[i], k - 1)
  }

  /** The cell k successor steps past cell `from` in an n-cell ring. */
  function Step(n: nat, from: nat, k: nat): (j: nat)
    requires from < n
    ensures j < n
    decreases k
  {
    if k == 0 then from else Step(n, Succ(n, from), k - 1)
  }

  /** How many successor steps lead from cell `from` to cell `to` in an n-cell ring. */
  function Dist(from: nat, to: nat, n: nat): (d: nat)
    requires from < n && to < n
    ensures d < n
  {
    if from <= to then to - from else to + n - from
  }

  lemma ModOnce(x: int, n: nat)
    requires 0 < n && 0 <= x < 2 * n
    ensures x % n == if x < n then x else x - n
  {
    if x >= n {
      assert x == n + (x - n);
    }
  }

  lemma MulMonotone(d: int, n: nat)
    requires 1 <= d
    ensures d * n >= n
  {
    assert d * n == (d - 1) * n + n;
  }

  /** Euclidean division has one quotient and one remainder. */
  lemma DivUnique(x: int, n: nat, q: int, r: int)
    requires 0 < n && 0 <= r < n && x == q * n + r
    ensures x / n == q && x % n == r
  {
    var q0, r0 := x / n, x % n;
    assert x == q0 * n + r0;
    var d := q - q0;
    assert d * n == q * n - q0 * n;
    assert d * n == r0 - r;
    if d >= 1 {
      MulMonotone(d, n);
    }
  }

  lemma ModShift(x: int, n: nat)
    requires 0 < n && 0 <= x
    ensures (x + n) % n == x % n
  {
    DivUnique(x + n, n, x / n + 1, x % n);
  }

  /** k steps from cell `from` land on cell (from + k) mod n, however large k is. */
  lemma {:induction false} StepIsModular(n: nat, from: nat, k: nat)
    requires from < n
    ensures Step(n, from, k) == (from + k) % n
    decreases k
  {
    if k == 0 {
      ModOnce(from, n);
    } else {
      StepIsModular(n, Succ(n, from), k - 1);
      ModOnce(from + 1, n);
      if from + 1 == n {
        ModShift(k - 1, n);
      }
    }
  }

  /** Within one round, stepping is plain addition that wraps at most once. */
  lemma StepWithinRound(n: nat, from: nat, k: nat)
    requires from < n && k <= n
    ensures Step(n, from, k) == if from + k < n then from + k else from + k - n
  {
    StepIsModular(n, from, k);
    ModOnce(from + k, n);
  }

  /** Stepping k cells and then one more is stepping k + 1 cells. */
  lemma {:induction false} StepOnce(n: nat, from: nat, k: nat)
    requires from < n
    ensures Succ(n, Step(n, from, k)) == Step(n, from, k + 1)
    decreases k
  {
    if k > 0 {
      StepOnce(n, Succ(n, from), k - 1);
    }
  }

  /** Following k links of a ring is stepping k cells. */
  lemma {:induction false} FollowIsStep(forward: seq<nat>, i: nat, k: nat)
    requires IsRing(forward) && i < |forward|
    ensures Follow(forward, i, k) == Step(|forward|, i, k)
    decreases k
  {
    if k > 0 {
      FollowIsStep(forward, forward[i], k - 1);
    }
  }

  /** k links from cell i lead to cell (i + k) mod N, however large k is. */
  lemma FollowIsModular(forward: seq<nat>, i: nat, k: nat)
    requires IsRing(forward) && i < |forward|
    ensures Follow(forward, i, k) == (i + k) % |forward|
  {
    FollowIsStep(forward, i, k);
    StepIsModular(|forward|, i, k);
  }

  /** Following N links from any cell comes back to that cell. */
  lemma CycleReturns(forward: seq<nat>, i: nat)
    requires IsRing(forward) && i < |forward|
    ensures Follow(forward, i, |forward|) == i
  {
    FollowIsStep(forward, i, |forward|);
    StepWithinRound(|forward|, i, |forward|);
  }

  /** Every cell is reached within the first N steps from any cell. */
  lemma CycleReachesEveryCell(forward: seq<nat>, i: nat, j: nat)
    requires IsRing(forward) && i < |forward| && j < |forward|
    ensures exists k :: 0 <= k < |forward| && Follow(forward, i, k) == j
  {
    var k := Dist(i, j, |forward|);
    FollowIsStep(forward, i, k);
    StepWithinRound(|forward|, i, k);
  }

  /** No cell is reached twice within the first N steps from any cell. */
  lemma CycleVisitsNoCellTwice(forward: seq<nat>, i: nat, k1: nat, k2: nat)
    requires IsRing(forward) && i < |forward| && k1 < k2 < |forward|
    ensures Follow(forward, i, k1) != Follow(forward, i, k2)
  {
    FollowIsStep(forward, i, k1);
    FollowIsStep(forward, i, k2);
    StepWithinRound(|forward|, i, k1);
    StepWithinRound(|forward|, i, k2);
  }

  /** Stepping Dist(from, to) cells from `from` reaches `to`. */
  lemma StepByDist(n: nat, from: nat, to: nat)
    requires from < n && to < n
    ensures Step(n, from, Dist(from, to, n)) == to
  {
    StepWithinRound(n, from, Dist(from, to, n));
  }

  /** Within one round, stepping k cells from `from` lands at distance k. */
  lemma DistOfStep(n: nat, from: nat, k: nat)
    requires from < n && k < n
    ensures Dist(from, Step(n, from, k), n) == k
  {
    StepWithinRound(n, from, k);
  }

  /** Measured from the successor of `from`, every other cell is one step nearer,
      and `from` itself is the farthest. */
  lemma DistFromSucc(n: nat, from: nat, i: nat)
    requires from < n && i < n
    ensures i != from ==> Dist(from, i, n) == Dist(Succ(n, from), i, n) + 1
    ensures i == from ==> Dist(Succ(n, from), i, n) == n - 1
  {
  }
}
