/** What range-based for loops, std::fill and std::copy do with the buffer's iterators,
    and the initializer-list constructor that is built on std::copy. */
module RangeAlgorithms {
  import opened Cycle
  import opened RingBuffer
  import opened Iterators

  /** One more ++ inside a begin()..end() walk: the cell moves one step round the ring
      and the counter, still below 2^64, goes up by one. */
  lemma NextInRange<T>(b: Buffer<T>, k: nat)
    requires Valid(b) && k < Capacity(b)
    ensures Next(b, Iter(b.id, Step(|b.cells|, b.r, k), k)) ==
            Iter(b.id, Step(|b.cells|, b.r, k + 1), k + 1)
  {
    StepOnce(|b.cells|, b.r, k);
    ModOnce(k + 1, SizeModulus);
  }

  /** `for (auto x : cb) out += x;`: the payloads of all N cells, starting at r and
      going round the ring once. */
  method CollectRange<T>(b: Buffer<T>) returns (vs: seq<T>)
    requires Valid(b)
    ensures |vs| == Capacity(b)
    ensures forall k :: 0 <= k < |vs| ==> vs[k] == b.cells[Step(|b.cells|, b.r, k)].data
  {
    var it := Begin(b);
    var last := End(b);
    vs := [];
    while Ne(it, last, false)
      invariant |vs| <= Capacity(b)
      invariant it == Iter(b.id, Step(|b.cells|, b.r, |vs|), |vs|)
      invariant forall k :: 0 <= k < |vs| ==> vs[k] == b.cells[Step(|b.cells|, b.r, k)].data
      decreases Capacity(b) - |vs|
    {
      vs := vs + [Deref(b, it)];
      NextInRange(b, |vs| - 1);
      it := Next(b, it);
    }
  }

  /** `for (auto& x : cb) x = f(x);`: every payload is replaced by its image under f;
      flags, links and both cursors stay as they were. */
  method TransformRange<T>(b: Buffer<T>, f: T -> T) returns (b': Buffer<T>)
    requires Valid(b)
    ensures Valid(b') && b'.id == b.id && b'.forward == b.forward
    ensures b'.r == b.r && b'.w == b.w && |b'.cells| == |b.cells|
    ensures forall i :: 0 <= i < |b.cells| ==> b'.cells[i] == Cell(f(b.cells[i].data), b.cells[i].read)
  {
    var n := |b.cells|;
    var it := Begin(b);
    var last := End(b);
    b' := b;
    while Ne(it, last, false)
      invariant Valid(b') && b'.id == b.id && b'.forward == b.forward
      invariant b'.r == b.r && b'.w == b.w && |b'.cells| == n
      invariant it.cnt <= n && it == Iter(b.id, Step(n, b.r, it.cnt), it.cnt)
      invariant forall i :: 0 <= i < n ==>
        b'.cells[i] == if Dist(b.r, i, n) < it.cnt then Cell(f(b.cells[i].data), b.cells[i].read)
                       else b.cells[i]
      decreases n - it.cnt
    {
      var k := it.cnt;
      DistOfStep(n, b.r, k);
      b' := Store(b', it, f(Deref(b', it)));
      NextInRange(b, k);
      it := Next(b', it);
    }
  }

  /** std::fill(begin(cb), end(cb), v): every cell's payload becomes v; flags, links and
      cursors stay. */
  method FillRange<T>(b: Buffer<T>, v: T) returns (b': Buffer<T>)
    requires Valid(b)
    ensures Valid(b') && b'.id == b.id && b'.forward == b.forward
    ensures b'.r == b.r && b'.w == b.w && |b'.cells| == |b.cells|
    ensures forall i :: 0 <= i < |b.cells| ==> b'.cells[i] == Cell(v, b.cells[i].read)
  {
    b' := TransformRange(b, _ => v);
  }

  /** std::copy(first, last, it) from a list `src` into the buffer: *it = src[0], ++it,
      and so on. Only payloads change. */
  function CopyInto<T>(b: Buffer<T>, it: Iter, src: seq<T>): (b': Buffer<T>)
    requires Valid(b) && Over(b, it)
    ensures Valid(b') && b'.id == b.id && b'.forward == b.forward
    ensures b'.r == b.r && b'.w == b.w && |b'.cells| == |b.cells|
    ensures forall i :: 0 <= i < |b.cells| ==> b'.cells[i].read == b.cells[i].read
    decreases |src|
  {
    if src == [] then b else CopyInto(Store(b, it, src[0]), Next(b, it), src[1..])
  }

  /** Copying at most N values from iterator `it` puts src[k] in the cell k steps past
      it and leaves the payloads of the other cells alone. */
  lemma {:induction false} CopyIntoWrites<T>(b: Buffer<T>, it: Iter, src: seq<T>)
    requires Valid(b) && Over(b, it) && |src| <= Capacity(b)
    ensures forall i :: 0 <= i < |b.cells| ==>
      CopyInto(b, it, src).cells[i].data ==
        if Dist(it.pos, i, |b.cells|) < |src| then src[Dist(it.pos, i, |b.cells|)]
        else b.cells[i].data
    decreases |src|
  {
    if src != [] {
      var n := |b.cells|;
      var b1 := Store(b, it, src[0]);
      var it1 := Next(b, it);
      assert it1.pos == Succ(n, it.pos);
      CopyIntoWrites(b1, it1, src[1..]);
      forall i | 0 <= i < n
        ensures CopyInto(b, it, src).cells[i].data ==
          if Dist(it.pos, i, n) < |src| then src[Dist(it.pos, i, n)] else b.cells[i].data
      {
        DistFromSucc(n, it.pos, i);
      }
    }
  }

  /** CircularBuffer(il) with il.size() == N: init_links, then std::copy of the list
      through begin(). Cell i gets il[i], but no flag is cleared and no cursor moves, so
      the buffer still reports empty(). The payloads the cells hold before the copy (T's
      default value) are all overwritten, so il[0] stands in for them. */
  function FromList<T>(id: nat, n: nat, il: seq<T>): (b: Buffer<T>)
    requires 1 <= n < SizeModulus && |il| == n
    ensures Valid(b) && b.id == id && Capacity(b) == n
    ensures forall i :: 0 <= i < n ==> b.cells[i] == Cell(il[i], true)
    ensures b.r == 0 && b.w == 0 && Empty(b) && !HasUnreadData(b)
  {
    var b0 := Create(id, n, il[0]);
    CopyIntoWrites(b0, Begin(b0), il);
    CopyInto(b0, Begin(b0), il)
  }
}
