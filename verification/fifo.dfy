/** The buffer used as a queue: as long as put is never called on a full buffer and get
    only while has_unread_data(), the unread cells are exactly the arc that starts at r
    and ends just before w (all N cells when full), and put/get behave as a FIFO queue. */
module Fifo {
  import opened Cycle
  import opened RingBuffer

  /** How many cells the cursors enclose: the arc from r to w, which is empty or the
      whole ring when r == w, as the flag under r decides. */
  function Len<T>(b: Buffer<T>): (len: nat)
    requires Valid(b)
    ensures len <= Capacity(b)
    ensures len == 0 <==> Empty(b)
    ensures len == Capacity(b) <==> Full(b)
  {
    if b.r == b.w then (if b.cells[b.r].read then 0 else |b.cells|)
    else Dist(b.r, b.w, |b.cells|)
  }

  /** The discipline's invariant: a cell is unread exactly when it lies on that arc. */
  predicate Inv<T>(b: Buffer<T>)
  {
    Valid(b) &&
    forall i :: 0 <= i < |b.cells| ==> (b.cells[i].read <==> Len(b) <= Dist(b.r, i, |b.cells|))
  }

  /** The queue the buffer holds: the payloads on the arc, oldest (under r) first. */
  function Contents<T>(b: Buffer<T>): (q: seq<T>)
    requires Valid(b)
    ensures |q| == Len(b)
  {
    seq(Len(b), k requires 0 <= k < Len(b) => b.cells[Step(|b.cells|, b.r, k)].data)
  }

  /** Under the invariant the three state queries read off the queue length:
      empty() iff nothing is queued, full() iff N are, has_unread_data() iff any are. */
  lemma QueriesMatchOccupancy<T>(b: Buffer<T>)
    requires Inv(b)
    ensures Empty(b) <==> |Contents(b)| == 0
    ensures Full(b) <==> |Contents(b)| == Capacity(b)
    ensures HasUnreadData(b) <==> |Contents(b)| > 0
    ensures HasUnreadData(b) <==> !Empty(b)
  {
    assert Dist(b.r, b.r, |b.cells|) == 0;
  }

  /** A freshly constructed buffer keeps the invariant and holds an empty queue. */
  lemma FreshIsEmptyQueue<T>(id: nat, n: nat, init: T)
    requires 1 <= n < SizeModulus
    ensures Inv(Create(id, n, init)) && Contents(Create(id, n, init)) == []
  {
  }

  /** put on a buffer that is not full appends its value to the queue. */
  lemma PutEnqueues<T>(b: Buffer<T>, v: T)
    requires Inv(b) && !Full(b)
    ensures Inv(Put(b, v)) && Contents(Put(b, v)) == Contents(b) + [v]
  {
    var n := |b.cells|;
    var b' := Put(b, v);
    var len := Len(b);
    assert b.w == Step(n, b.r, len) by {
      StepByDist(n, b.r, b.w);
    }
    StepOnce(n, b.r, len);
    assert b'.w == Step(n, b.r, len + 1);
    assert Len(b') == len + 1 by {
      StepWithinRound(n, b.r, len + 1);
      if len + 1 < n {
        DistOfStep(n, b.r, len + 1);
      }
    }
    forall i | 0 <= i < n
      ensures b'.cells[i].read <==> Len(b') <= Dist(b.r, i, n)
    {
      if i == b.w {
        DistOfStep(n, b.r, len);
      }
    }
    forall k | 0 <= k < len
      ensures Step(n, b.r, k) != b.w
    {
      DistOfStep(n, b.r, k);
      DistOfStep(n, b.r, len);
    }
  }

  /** get on a buffer with unread data dequeues the oldest value. */
  lemma GetDequeues<T>(b: Buffer<T>)
    requires Inv(b) && HasUnreadData(b)
    ensures Inv(Get(b).1)
    ensures Get(b).0 == Contents(b)[0] && Contents(Get(b).1) == Contents(b)[1..]
  {
    var n := |b.cells|;
    var b' := Get(b).1;
    var len := Len(b);
    assert Dist(b.r, b.r, n) == 0;
    assert len > 0;
    assert Len(b') == len - 1 by {
      DistFromSucc(n, b.r, b.w);
    }
    forall i | 0 <= i < n
      ensures b'.cells[i].read <==> Len(b') <= Dist(b'.r, i, n)
    {
      DistFromSucc(n, b.r, i);
    }
    forall k | 0 <= k < len - 1
      ensures Step(n, b'.r, k) == Step(n, b.r, k + 1) && Step(n, b.r, k + 1) != b.r
    {
      DistOfStep(n, b.r, k + 1);
    }
  }

  /** put applied to each value of vs in turn. */
  function PutAll<T>(b: Buffer<T>, vs: seq<T>): (b': Buffer<T>)
    requires Valid(b)
    ensures Valid(b') && b'.id == b.id && b'.forward == b.forward && |b'.cells| == |b.cells|
    ensures b'.r == b.r
    decreases |vs|
  {
    if vs == [] then b else Put(PutAll(b, vs[..|vs| - 1]), vs[|vs| - 1])
  }

  /** get called k times in a row: the values returned, in order, and the buffer after. */
  function GetMany<T>(b: Buffer<T>, k: nat): (res: (seq<T>, Buffer<T>))
    requires Valid(b)
    ensures |res.0| == k && Valid(res.1) && res.1.id == b.id && res.1.forward == b.forward
    ensures |res.1.cells| == |b.cells| && res.1.w == b.w
    ensures forall i :: 0 <= i < |b.cells| ==> res.1.cells[i].data == b.cells[i].data
    decreases k
  {
    if k == 0 then ([], b)
    else
      var (v, b1) := Get(b);
      var (vs, b2) := GetMany(b1, k - 1);
      ([v] + vs, b2)
  }

  /** Puts that never meet a full buffer append their values to the queue in order. */
  lemma {:induction false} PutAllEnqueues<T>(b: Buffer<T>, vs: seq<T>)
    requires Inv(b) && Len(b) + |vs| <= Capacity(b)
    ensures Inv(PutAll(b, vs)) && Contents(PutAll(b, vs)) == Contents(b) + vs
    decreases |vs|
  {
    if vs != [] {
      var init := vs[..|vs| - 1];
      PutAllEnqueues(b, init);
      var b1 := PutAll(b, init);
      assert !Full(b1);
      PutEnqueues(b1, vs[|vs| - 1]);
      assert init + [vs[|vs| - 1]] == vs;
    }
  }

  /** Gets that never meet an empty queue take its values from the front, in order. */
  lemma {:induction false} GetManyDequeues<T>(b: Buffer<T>, k: nat)
    requires Inv(b) && k <= Len(b)
    ensures Inv(GetMany(b, k).1)
    ensures GetMany(b, k).0 == Contents(b)[..k] && Contents(GetMany(b, k).1) == Contents(b)[k..]
    decreases k
  {
    if k > 0 {
      QueriesMatchOccupancy(b);
      GetDequeues(b);
      var q := Contents(b);
      var (v, b1) := Get(b);
      GetManyDequeues(b1, k - 1);
      var (vs, b2) := GetMany(b1, k - 1);
      assert GetMany(b, k) == ([v] + vs, b2);
      FrontAndRest(q, k);
    }
  }

  lemma FrontAndRest<T>(q: seq<T>, k: nat)
    requires 0 < k <= |q|
    ensures q[..k] == [q[0]] + q[1..][..k - 1] && q[k..] == q[1..][k - 1..]
  {
    assert q[..k] == [q[0]] + q[1..][..k - 1];
  }

  /** Under the invariant, after j gets (j at most the queue length) there is unread data
      exactly while values remain, and once all are taken the buffer is empty. */
  lemma GetsLeaveUnreadUntilDrained<T>(b: Buffer<T>, j: nat)
    requires Inv(b) && j <= Len(b)
    ensures HasUnreadData(GetMany(b, j).1) <==> j < Len(b)
    ensures j == Len(b) ==> Empty(GetMany(b, j).1)
  {
    GetManyDequeues(b, j);
    QueriesMatchOccupancy(GetMany(b, j).1);
  }

  /** From a fresh buffer, k <= N puts and then k gets return the k values in the order
      they were put; has_unread_data() holds after j of the gets exactly when j < k, and
      after all k the buffer is empty again. */
  lemma {:induction false} FifoRoundTrip<T>(id: nat, n: nat, init: T, vs: seq<T>)
    requires 1 <= n < SizeModulus && |vs| <= n
    ensures GetMany(PutAll(Create(id, n, init), vs), |vs|).0 == vs
    ensures Empty(GetMany(PutAll(Create(id, n, init), vs), |vs|).1)
    ensures forall j :: 0 <= j <= |vs| ==>
              (HasUnreadData(GetMany(PutAll(Create(id, n, init), vs), j).1) <==> j < |vs|)
  {
    var b := PutAll(Create(id, n, init), vs);
    FreshIsEmptyQueue(id, n, init);
    PutAllEnqueues(Create(id, n, init), vs);
    assert Contents(b) == vs;
    GetManyDequeues(b, |vs|);
    assert vs[..|vs|] == vs;
    forall j | 0 <= j <= |vs|
      ensures HasUnreadData(GetMany(b, j).1) <==> j < |vs|
      ensures j == |vs| ==> Empty(GetMany(b, j).1)
    {
      GetsLeaveUnreadUntilDrained(b, j);
    }
  }

  /** Up to N puts on a fresh buffer, with no gets: it is not empty once anything was
      put, it is full exactly after the N-th put, and it has unread data once anything
      was put. */
  lemma PutsWithoutGets<T>(id: nat, n: nat, init: T, vs: seq<T>)
    requires 1 <= n < SizeModulus && |vs| <= n
    ensures Empty(PutAll(Create(id, n, init), vs)) <==> |vs| == 0
    ensures Full(PutAll(Create(id, n, init), vs)) <==> |vs| == n
    ensures HasUnreadData(PutAll(Create(id, n, init), vs)) <==> |vs| > 0
  {
    FreshIsEmptyQueue(id, n, init);
    PutAllEnqueues(Create(id, n, init), vs);
    QueriesMatchOccupancy(PutAll(Create(id, n, init), vs));
  }

  /** `while (cb.has_unread_data()) out += cb.get();`: under the invariant the loop hands
      back exactly the queued values, oldest first, and leaves the buffer empty. */
  method DrainWhileUnread<T>(b: Buffer<T>) returns (out: seq<T>, b': Buffer<T>)
    requires Inv(b)
    ensures out == Contents(b) && Inv(b') && Empty(b') && !HasUnreadData(b')
  {
    out := [];
    b' := b;
    while HasUnreadData(b')
      invariant Inv(b') && out + Contents(b') == Contents(b)
      decreases Len(b')
    {
      GetDequeues(b');
      var q := Contents(b');
      var v;
      v, b' := Get(b').0, Get(b').1;
      assert Contents(b') == q[1..] && v == q[0];
      assert [v] + Contents(b') == q;
      out := out + [v];
    }
    QueriesMatchOccupancy(b');
  }

  /** `while (!cb.full()) cb.put(v);`: under the invariant the loop puts exactly as many
      copies of v as there are free cells, appends them to the queue and stops on a full
      buffer; the result is that many plain puts of v. */
  method PutUntilFull<T>(b: Buffer<T>, v: T) returns (b': Buffer<T>, count: nat)
    requires Inv(b)
    ensures Inv(b') && Full(b') && count == Capacity(b) - Len(b)
    ensures Contents(b') == Contents(b) + seq(count, _ => v)
    ensures b'.r == b.r && b' == PutAll(b, seq(count, _ => v))
  {
    b' := b;
    count := 0;
    while !Full(b')
      invariant Inv(b') && b'.r == b.r && |b'.cells| == |b.cells|
      invariant Len(b') == Len(b) + count
      invariant Contents(b') == Contents(b) + seq(count, _ => v)
      invariant b' == PutAll(b, seq(count, _ => v))
      decreases Capacity(b) - Len(b')
    {
      PutEnqueues(b', v);
      b' := Put(b', v);
      count := count + 1;
      assert seq(count, _ => v) == seq(count - 1, _ => v) + [v];
      assert seq(count, _ => v)[..count - 1] == seq(count - 1, _ => v);
    }
  }
}
