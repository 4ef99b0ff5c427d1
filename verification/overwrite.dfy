/** What the buffer does when nobody keeps the queue discipline: put on a full buffer
    overwrites in place without moving r, and get keeps reading round the ring. */
module Overwrite {
  import opened Cycle
  import opened RingBuffer
  import opened Fifo

  /** Stepping k1 + k2 cells is stepping k1 cells and then k2 more. */
  lemma {:induction false} StepAdd(n: nat, from: nat, k1: nat, k2: nat)
    requires from < n
    ensures Step(n, from, k1 + k2) == Step(n, Step(n, from, k1), k2)
    decreases k1
  {
    if k1 > 0 {
      StepAdd(n, Succ(n, from), k1 - 1, k2);
    }
  }

  /** Two write positions less than N apart fall on different cells. */
  lemma StepDistinct(n: nat, j: nat, a: nat)
    requires 0 < n && j < a < j + n
    ensures Step(n, 0, j) != Step(n, 0, a)
  {
    var x := Step(n, 0, j);
    StepAdd(n, 0, j, a - j);
    DistOfStep(n, x, a - j);
    assert Dist(x, x, n) == 0;
  }

  /** The facts PutsFromFresh states, for a buffer after the puts of vs: r on cell 0,
      w on the cell |vs| steps on, a cell unread exactly when it has been written, and
      the j-th value in the cell j steps on, for each of the last N values. */
  ghost predicate AfterPuts<T>(b: Buffer<T>, vs: seq<T>)
    requires Valid(b)
  {
    var n := |b.cells|;
    b.r == 0 && b.w == Step(n, 0, |vs|) &&
    (forall i :: 0 <= i < n ==> (b.cells[i].read <==> |vs| <= i)) &&
    (forall j :: 0 <= j < |vs| && |vs| - n <= j ==> b.cells[Step(n, 0, j)].data == vs[j])
  }

  /** One more put keeps AfterPuts, one value longer. */
  lemma PutKeepsAfterPuts<T>(b: Buffer<T>, us: seq<T>, v: T)
    requires Valid(b) && AfterPuts(b, us)
    ensures AfterPuts(Put(b, v), us + [v])
  {
    var n, m, vs, b' := |b.cells|, |us|, us + [v], Put(b, v);
    StepOnce(n, 0, m);
    forall i | 0 <= i < n
      ensures b'.cells[i].read <==> |vs| <= i
    {
      if m < n {
        StepWithinRound(n, 0, m);
      }
    }
    forall j | 0 <= j < |vs| && |vs| - n <= j
      ensures b'.cells[Step(n, 0, j)].data == vs[j]
    {
      if j < m {
        StepDistinct(n, j, m);
        assert b.cells[Step(n, 0, j)].data == us[j];
      }
    }
  }

  /** Any number of puts on a fresh N-cell buffer, full or not, leaves it as AfterPuts
      describes. */
  lemma {:induction false} PutsFromFresh<T>(id: nat, n: nat, init: T, vs: seq<T>)
    requires 1 <= n < SizeModulus
    ensures AfterPuts(PutAll(Create(id, n, init), vs), vs)
    decreases |vs|
  {
    if vs != [] {
      var m := |vs| - 1;
      PutsFromFresh(id, n, init, vs[..m]);
      PutKeepsAfterPuts(PutAll(Create(id, n, init), vs[..m]), vs[..m], vs[m]);
      assert vs[..m] + [vs[m]] == vs;
    }
  }

  /** k gets in a row, with or without unread data, return the payloads of the cells
      k steps round the ring from r, and leave r k cells further on. */
  lemma {:induction false} GetManyReadsRingOrder<T>(b: Buffer<T>, k: nat)
    requires Valid(b)
    ensures forall i :: 0 <= i < k ==> GetMany(b, k).0[i] == b.cells[Step(|b.cells|, b.r, i)].data
    ensures GetMany(b, k).1.r == Step(|b.cells|, b.r, k)
    decreases k
  {
    if k > 0 {
      GetManyReadsRingOrder(Get(b).1, k - 1);
    }
  }

  lemma DivExact(x: nat, n: nat)
    requires 0 < n && x % n == 0
    ensures x == (x / n) * n
  {
  }

  lemma MulPred(q: int, n: int)
    ensures (q - 1) * n == q * n - n
  {
  }

  /** In the last round of a multiple of N writes, the i-th write goes to cell i. */
  lemma LastRoundIndex(m: nat, n: nat, i: nat)
    requires 0 < n <= m && m % n == 0 && i < n
    ensures (m - n + i) % n == i
  {
    var q := m / n;
    DivExact(m, n);
    MulPred(q, n);
    DivUnique(m - n + i, n, q - 1, i);
  }

  /** m >= N puts on a fresh buffer followed by N gets: the gets return the last N values
      put, each at the position of the cell it was written to, because r never left
      cell 0. */
  lemma OverwriteKeepsLastN<T>(id: nat, n: nat, init: T, vs: seq<T>)
    requires 1 <= n < SizeModulus && n <= |vs|
    ensures forall j :: |vs| - n <= j < |vs| ==>
              GetMany(PutAll(Create(id, n, init), vs), n).0[j % n] == vs[j]
  {
    var b := PutAll(Create(id, n, init), vs);
    var out := GetMany(b, n).0;
    assert |b.cells| == n;
    PutsFromFresh(id, n, init, vs);
    assert b.r == 0;
    GetManyReadsRingOrder(b, n);
    forall j | |vs| - n <= j < |vs|
      ensures out[j % n] == vs[j]
    {
      var i := j % n;
      StepIsModular(n, 0, j);
      StepWithinRound(n, 0, i);
      assert Step(n, 0, i) == i == Step(n, 0, j);
      assert out[i] == b.cells[Step(n, b.r, i)].data;
      assert b.cells[Step(n, 0, j)].data == vs[j];
    }
  }

  /** A sequence of N values that holds the j-th of the last N writes at position
      j mod N, when the number of writes is a multiple of N, is those writes in order. */
  lemma LastRoundInOrder<T>(out: seq<T>, vs: seq<T>, n: nat)
    requires 0 < n == |out| <= |vs| && |vs| % n == 0
    requires forall j :: |vs| - n <= j < |vs| ==> out[j % n] == vs[j]
    ensures out == vs[|vs| - n..]
  {
    forall i | 0 <= i < n
      ensures out[i] == vs[|vs| - n + i]
    {
      var j := |vs| - n + i;
      LastRoundIndex(|vs|, n, i);
      assert out[j % n] == vs[j];
    }
  }

  /** When the number of puts is a multiple of N, the N gets return exactly the last N
      values in the order they were put. */
  lemma OverwriteMultipleInPutOrder<T>(id: nat, n: nat, init: T, vs: seq<T>)
    requires 1 <= n < SizeModulus && n <= |vs| && |vs| % n == 0
    ensures GetMany(PutAll(Create(id, n, init), vs), n).0 == vs[|vs| - n..]
  {
    OverwriteKeepsLastN(id, n, init, vs);
    LastRoundInOrder(GetMany(PutAll(Create(id, n, init), vs), n).0, vs, n);
  }
}
