/** SLL<T>::iterator and SLL<T>::const_iterator over a buffer's cells. An iterator is a
    raw cell position (which buffer, which cell) plus a size_t step counter. */
module Iterators {
  import opened Cycle
  import opened RingBuffer

  datatype Iter = Iter(buf: nat, pos: nat, cnt: nat)

  /** The iterator points into buffer b and its counter is a size_t. */
  predicate Over<T>(b: Buffer<T>, it: Iter)
  {
    it.buf == b.id && it.pos < |b.cells| && it.cnt < SizeModulus
  }

  /** begin(): the read cursor's cell with the counter reset to 0. */
  function Begin<T>(b: Buffer<T>): (it: Iter)
    requires Valid(b)
    ensures Over(b, it) && it.pos == b.r && it.cnt == 0
  {
    Iter(b.id, b.r, 0)
  }

  /** end(): the write cursor's cell with the counter set to N. */
  function End<T>(b: Buffer<T>): (it: Iter)
    requires Valid(b)
    ensures Over(b, it) && it.pos == b.w && it.cnt == Capacity(b)
  {
    Iter(b.id, b.w, |b.cells|)
  }

  /** ++it: bump the counter (modulo 2^64) and follow the cell's forward link. */
  function Next<T>(b: Buffer<T>, it: Iter): (it': Iter)
    requires Valid(b) && Over(b, it)
    ensures Over(b, it')
    ensures it'.pos == Succ(|b.cells|, it.pos) && it'.cnt == (it.cnt + 1) % SizeModulus
  {
    Iter(it.buf, b.forward[it.pos], (it.cnt + 1) % SizeModulus)
  }

  /** it++: the iterator is advanced as by ++it, but the copy handed back is taken after
      the counter was bumped and before the link was followed: it still names the old
      cell, yet carries the new counter. */
  function PostNext<T>(b: Buffer<T>, it: Iter): (res: (Iter, Iter))
    requires Valid(b) && Over(b, it)
    ensures res.0 == Next(b, it)
    ensures Over(b, res.1) && res.1.pos == it.pos && res.1.cnt == res.0.cnt
  {
    var bumped := it.(cnt := (it.cnt + 1) % SizeModulus);
    (Iter(it.buf, b.forward[it.pos], bumped.cnt), bumped)
  }

  /** *it read as a value. */
  function Deref<T>(b: Buffer<T>, it: Iter): T
    requires Valid(b) && Over(b, it)
  {
    b.cells[it.pos].data
  }

  /** *it = v: only the payload of the iterator's cell changes; flags, links and both
      cursors are untouched. */
  function Store<T>(b: Buffer<T>, it: Iter, v: T): (b': Buffer<T>)
    requires Valid(b) && Over(b, it)
    ensures Valid(b') && b'.id == b.id && b'.forward == b.forward
    ensures b'.r == b.r && b'.w == b.w && |b'.cells| == |b.cells|
    ensures b'.cells[it.pos] == Cell(v, b.cells[it.pos].read)
    ensures forall i :: 0 <= i < |b.cells| && i != it.pos ==> b'.cells[i] == b.cells[i]
  {
    b.(cells := b.cells[it.pos := b.cells[it.pos].(data := v)])
  }

  /** lhs == rhs. `aliased` says that rhs is the very object lhs is (`this == &rhs`),
      which can only be so when the two are identical. */
  predicate Eq(lhs: Iter, rhs: Iter, aliased: bool)
    requires aliased ==> lhs == rhs
  {
    lhs.cnt == rhs.cnt && (aliased || (lhs.buf == rhs.buf && lhs.pos == rhs.pos))
  }

  /** lhs != rhs, with `aliased` as for Eq. */
  predicate Ne(lhs: Iter, rhs: Iter, aliased: bool)
    requires aliased ==> lhs == rhs
  {
    lhs.cnt != rhs.cnt && (!aliased || lhs.buf != rhs.buf || lhs.pos != rhs.pos)
  }

  /** == holds exactly when counter and cell agree; whether the operands are one object
      makes no difference. */
  lemma EqIsSameCounterAndCell(lhs: Iter, rhs: Iter, aliased: bool)
    requires aliased ==> lhs == rhs
    ensures Eq(lhs, rhs, aliased) <==> lhs == rhs
  {
  }

  /** != between distinct objects compares counters only, and an iterator is never !=
      to itself. */
  lemma NeComparesCountersOnly(lhs: Iter, rhs: Iter)
    ensures Ne(lhs, rhs, false) <==> lhs.cnt != rhs.cnt
    ensures !Ne(lhs, lhs, true)
  {
  }

  /** != is not the negation of ==: two iterators with the same counter on different
      cells are neither equal nor unequal. */
  lemma NeIsNotNegatedEq(lhs: Iter, rhs: Iter)
    requires lhs.cnt == rhs.cnt && lhs.pos != rhs.pos
    ensures !Eq(lhs, rhs, false) && !Ne(lhs, rhs, false)
  {
  }

  /** Iterators of two different buffers are never ==. */
  lemma DifferentBuffersNeverEqual<T>(a: Buffer<T>, b: Buffer<T>, ia: Iter, ib: Iter)
    requires a.id != b.id && Over(a, ia) && Over(b, ib)
    ensures !Eq(ia, ib, false)
  {
  }

  /** The iterator after k applications of ++ (std::advance with a non-negative count). */
  function Advance<T>(b: Buffer<T>, it: Iter, k: nat): (it': Iter)
    requires Valid(b) && Over(b, it)
    ensures Over(b, it')
    decreases k
  {
    if k == 0 then it else Advance(b, Next(b, it), k - 1)
  }

  /** k increments move the cell k steps round the ring and add k to the counter
      modulo 2^64. */
  lemma {:induction false} AdvanceIsStep<T>(b: Buffer<T>, it: Iter, k: nat)
    requires Valid(b) && Over(b, it)
    ensures Advance(b, it, k) == Iter(it.buf, Step(|b.cells|, it.pos, k), (it.cnt + k) % SizeModulus)
    decreases k
  {
    if k == 0 {
      ModOnce(it.cnt, SizeModulus);
    } else {
      AdvanceIsStep(b, Next(b, it), k - 1);
      CounterAdd(it.cnt, k);
    }
  }

  /** The same in modular terms: the cell is (pos + k) mod N, so walking past end()
      simply keeps cycling. */
  lemma AdvanceIsModular<T>(b: Buffer<T>, it: Iter, k: nat)
    requires Valid(b) && Over(b, it)
    ensures Advance(b, it, k) ==
            Iter(it.buf, (it.pos + k) % |b.cells|, (it.cnt + k) % SizeModulus)
  {
    AdvanceIsStep(b, it, k);
    StepIsModular(|b.cells|, it.pos, k);
  }

  lemma CounterAdd(c: nat, k: nat)
    requires c < SizeModulus && 1 <= k
    ensures ((c + 1) % SizeModulus + (k - 1)) % SizeModulus == (c + k) % SizeModulus
  {
    ModOnce(c + 1, SizeModulus);
    if c + 1 == SizeModulus {
      ModShift(k - 1, SizeModulus);
    }
  }

  /** k steps from begin(): the cell is k cells past r and, for k up to N, the counter
      is k. The loop `it != end()` therefore stops after exactly N increments, even when
      r == w and begin() and end() name the same cell. */
  lemma BeginEndLoopTakesCapacitySteps<T>(b: Buffer<T>, k: nat)
    requires Valid(b) && k <= Capacity(b)
    ensures Advance(b, Begin(b), k).pos == (b.r + k) % Capacity(b)
    ensures Advance(b, Begin(b), k).cnt == k
    ensures Ne(Advance(b, Begin(b), k), End(b), false) <==> k != Capacity(b)
  {
    AdvanceIsModular(b, Begin(b), k);
    ModOnce(k, SizeModulus);
  }

  /** After its N increments the range loop's iterator stands on r again, not on w:
      it is == end() only when the cursors coincide. */
  lemma LoopEndsOnReader<T>(b: Buffer<T>)
    requires Valid(b)
    ensures Advance(b, Begin(b), Capacity(b)).pos == b.r
    ensures Eq(Advance(b, Begin(b), Capacity(b)), End(b), false) <==> b.r == b.w
  {
    AdvanceIsStep(b, Begin(b), Capacity(b));
    StepWithinRound(Capacity(b), b.r, Capacity(b));
    ModOnce(Capacity(b), SizeModulus);
  }

  /** Going round once more lands on the same cell. */
  lemma AdvanceKeepsCycling<T>(b: Buffer<T>, it: Iter, k: nat)
    requires Valid(b) && Over(b, it)
    ensures Advance(b, it, k + Capacity(b)).pos == Advance(b, it, k).pos
  {
    AdvanceIsModular(b, it, k);
    AdvanceIsModular(b, it, k + Capacity(b));
    ModShift(it.pos + k, Capacity(b));
  }

  /** On a freshly constructed buffer begin() and end() name the same cell, yet
      begin() != end() and not begin() == end(); two begin() calls give == iterators. */
  lemma FreshBeginDiffersFromEnd<T>(id: nat, n: nat, init: T)
    requires 1 <= n < SizeModulus
    ensures var b := Create(id, n, init);
            Begin(b).pos == End(b).pos && Ne(Begin(b), End(b), false) &&
            !Eq(Begin(b), End(b), false) && Eq(Begin(b), Begin(b), false)
  {
  }

  /** Storing through an iterator leaves empty(), full() and has_unread_data() as they were. */
  lemma StoreKeepsQueries<T>(b: Buffer<T>, it: Iter, v: T)
    requires Valid(b) && Over(b, it)
    ensures Empty(Store(b, it, v)) == Empty(b)
    ensures Full(Store(b, it, v)) == Full(b)
    ensures HasUnreadData(Store(b, it, v)) == HasUnreadData(b)
    ensures Capacity(Store(b, it, v)) == Capacity(b)
  {
  }

  /** const_iterator: a raw cell position and a counter that nothing compares. */
  datatype ConstIter = ConstIter(buf: nat, pos: nat, cnt: nat)

  /** cbegin(): a const iterator on r (its counter starts at 0). */
  function CBegin<T>(b: Buffer<T>): (it: ConstIter)
    requires Valid(b)
    ensures it.buf == b.id && it.pos == b.r
  {
    ConstIter(b.id, b.r, 0)
  }

  /** cend(): a const iterator on w (its counter starts at 0 too). */
  function CEnd<T>(b: Buffer<T>): (it: ConstIter)
    requires Valid(b)
    ensures it.buf == b.id && it.pos == b.w
  {
    ConstIter(b.id, b.w, 0)
  }

  /** ++it on a const iterator. */
  function CNext<T>(b: Buffer<T>, it: ConstIter): (it': ConstIter)
    requires Valid(b) && it.buf == b.id && it.pos < |b.cells|
    ensures it'.buf == b.id && it'.pos == Succ(|b.cells|, it.pos)
  {
    ConstIter(it.buf, b.forward[it.pos], (it.cnt + 1) % SizeModulus)
  }

  /** it++ on a const iterator: advanced as by ++it; the copy handed back still names
      the old cell. */
  function CPostNext<T>(b: Buffer<T>, it: ConstIter): (res: (ConstIter, ConstIter))
    requires Valid(b) && it.buf == b.id && it.pos < |b.cells|
    ensures res.0 == CNext(b, it)
    ensures CEq(res.1, it) && res.1.cnt == res.0.cnt
  {
    var bumped := it.(cnt := (it.cnt + 1) % SizeModulus);
    (ConstIter(it.buf, b.forward[it.pos], bumped.cnt), bumped)
  }

  /** *it on a const iterator: a copy of the payload. */
  function CDeref<T>(b: Buffer<T>, it: ConstIter): T
    requires Valid(b) && it.buf == b.id && it.pos < |b.cells|
  {
    b.cells[it.pos].data
  }

  /** const_iterator's != compares the raw cell positions only. */
  predicate CNe(lhs: ConstIter, rhs: ConstIter)
  {
    lhs.buf != rhs.buf || lhs.pos != rhs.pos
  }

  /** const_iterator's == compares the raw cell positions only. */
  predicate CEq(lhs: ConstIter, rhs: ConstIter)
  {
    lhs.buf == rhs.buf && lhs.pos == rhs.pos
  }

  function CAdvance<T>(b: Buffer<T>, it: ConstIter, k: nat): (it': ConstIter)
    requires Valid(b) && it.buf == b.id && it.pos < |b.cells|
    ensures it'.buf == b.id && it'.pos < |b.cells|
    decreases k
  {
    if k == 0 then it else CAdvance(b, CNext(b, it), k - 1)
  }

  /** A `cbegin() != cend()` loop walks the arc from r up to w: it stops after
      Dist(r, w) increments, which is none at all when r == w (an empty or a full
      buffer), not after N. */
  lemma ConstLoopWalksReaderToWriter<T>(b: Buffer<T>, k: nat)
    requires Valid(b) && k <= Dist(b.r, b.w, Capacity(b))
    ensures CAdvance(b, CBegin(b), k).pos == (b.r + k) % Capacity(b)
    ensures CNe(CAdvance(b, CBegin(b), k), CEnd(b)) <==> k < Dist(b.r, b.w, Capacity(b))
  {
    ConstAdvanceIsStep(b, CBegin(b), k);
    StepIsModular(Capacity(b), b.r, k);
    StepWithinRound(Capacity(b), b.r, k);
  }

  lemma {:induction false} ConstAdvanceIsStep<T>(b: Buffer<T>, it: ConstIter, k: nat)
    requires Valid(b) && it.buf == b.id && it.pos < |b.cells|
    ensures CAdvance(b, it, k).pos == Step(|b.cells|, it.pos, k)
    decreases k
  {
    if k > 0 {
      ConstAdvanceIsStep(b, CNext(b, it), k - 1);
    }
  }
}
