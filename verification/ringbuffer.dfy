/** CircularBuffer<T, N>: N cells, each a value and a read flag, pre-linked into one
    ring, with a read cursor r and a write cursor w that move forward independently. */
module RingBuffer {
  import opened Cycle

  /** One SLL node without its link: the payload and whether it has been consumed.
      The link lives in the buffer's `forward` arena. */
  datatype Cell<T> = Cell(data: T, read: bool)

  /** A buffer value. `id` stands for the address of the cell array, so two buffers
      alive at the same time have different ids; r and w are cell indices. */
  datatype Buffer<T> = Buffer(id: nat, cells: seq<Cell<T>>, forward: seq<nat>, r: nat, w: nat)

  /** What construction establishes and every operation keeps: at least one cell,
      a size_t capacity, the ring links of init_links, and both cursors on a cell. */
  predicate Valid<T>(b: Buffer<T>)
  {
    |b.cells| < SizeModulus && |b.forward| == |b.cells| && IsRing(b.forward) &&
    b.r < |b.cells| && b.w < |b.cells|
  }

  /** capacity(): the template parameter N. */
  function Capacity<T>(b: Buffer<T>): (n: nat)
    requires Valid(b)
    ensures 1 <= n < SizeModulus
  {
    |b.cells|
  }

  /** The default constructor: N cells, every flag "read", both cursors on cell 0
      (the first element), links from init_links. The payloads are whatever default
      initialisation leaves in them; the model takes one value `init` for all of them. */
  function Create<T>(id: nat, n: nat, init: T): (b: Buffer<T>)
    requires 1 <= n < SizeModulus
    ensures Valid(b) && b.id == id && Capacity(b) == n
    ensures b.r == 0 && b.w == 0
    ensures Empty(b) && !Full(b) && !HasUnreadData(b)
    ensures forall i :: 0 <= i < n ==> b.cells[i] == Cell(init, true)
  {
    Buffer(id, seq(n, _ => Cell(init, true)), Links(n), 0, 0)
  }

  /** put(v): store v in the cell under w, mark it unread and move w one cell on.
      There is no check against r: on a full buffer this overwrites the cell under r
      and r stays where it is. */
  function Put<T>(b: Buffer<T>, v: T): (b': Buffer<T>)
    requires Valid(b)
    ensures Valid(b') && b'.id == b.id && b'.forward == b.forward
    ensures |b'.cells| == |b.cells| && b'.cells[b.w] == Cell(v, false)
    ensures forall i :: 0 <= i < |b.cells| && i != b.w ==> b'.cells[i] == b.cells[i]
    ensures b'.w == Succ(|b.cells|, b.w) && b'.r == b.r
  {
    b.(cells := b.cells[b.w := Cell(v, false)], w := b.forward[b.w])
  }

  /** get(): mark the cell under r read, move r one cell on and return the payload
      the cell held. There is no guard: on an empty buffer it returns a stale payload
      and r moves past w. */
  function Get<T>(b: Buffer<T>): (res: (T, Buffer<T>))
    requires Valid(b)
    ensures res.0 == b.cells[b.r].data
    ensures Valid(res.1) && res.1.id == b.id && res.1.forward == b.forward
    ensures |res.1.cells| == |b.cells| && res.1.cells[b.r] == Cell(b.cells[b.r].data, true)
    ensures forall i :: 0 <= i < |b.cells| && i != b.r ==> res.1.cells[i] == b.cells[i]
    ensures res.1.r == Succ(|b.cells|, b.r) && res.1.w == b.w
  {
    (b.cells[b.r].data, b.(cells := b.cells[b.r := b.cells[b.r].(read := true)], r := b.forward[b.r]))
  }

  /** has_unread_data(): the cell under r holds a payload not yet consumed. */
  predicate HasUnreadData<T>(b: Buffer<T>)
    requires Valid(b)
  {
    !b.cells[b.r].read
  }

  /** empty(): the cursors coincide and the shared cell has been read. */
  predicate Empty<T>(b: Buffer<T>)
    requires Valid(b)
  {
    b.r == b.w && b.cells[b.r].read
  }

  /** full(): the cursors coincide and the shared cell is unread. */
  predicate Full<T>(b: Buffer<T>)
    requires Valid(b)
  {
    b.r == b.w && !b.cells[b.r].read
  }

  /** When the cursors coincide exactly one of empty() and full() holds; otherwise neither. */
  lemma EmptyOrFullExactlyWhenCursorsMeet<T>(b: Buffer<T>)
    requires Valid(b)
    ensures !(Empty(b) && Full(b))
    ensures b.r == b.w <==> Empty(b) || Full(b)
    ensures Full(b) ==> HasUnreadData(b)
    ensures Empty(b) ==> !HasUnreadData(b)
  {
  }

  /** put on a full buffer overwrites the oldest unread payload in place and leaves the
      buffer reading from that same cell, which now holds the new payload. */
  lemma PutOnFullOverwritesUnderReader<T>(b: Buffer<T>, v: T)
    requires Valid(b) && Full(b)
    ensures Put(b, v).r == b.r && Put(b, v).cells[b.r] == Cell(v, false)
    ensures HasUnreadData(Put(b, v)) && !Full(Put(b, v)) == (|b.cells| > 1)
  {
  }

  /** get on an empty buffer returns the stale payload under r, marks nothing new, and
      (with more than one cell) leaves r one cell past w, so the buffer is neither empty
      nor full. */
  lemma GetOnEmptyPassesWriter<T>(b: Buffer<T>)
    requires Valid(b) && Empty(b)
    ensures Get(b).0 == b.cells[b.r].data && Get(b).1.cells == b.cells
    ensures |b.cells| > 1 ==> Get(b).1.r != Get(b).1.w && !Empty(Get(b).1) && !Full(Get(b).1)
    ensures |b.cells| == 1 ==> Empty(Get(b).1)
  {
    assert Get(b).1.cells == b.cells;
  }
}
