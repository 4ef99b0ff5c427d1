# CircularBuffer<T, N> in Dafny

A model of `circularbuffer.hpp`, a header-only, fixed-capacity circular buffer for
embedded C++. The buffer owns an array of N `SLL<T>` nodes. Each node holds a payload,
a `read` flag (initially true) and a forward pointer. `init_links` threads the nodes
into one ring. Two cyclic iterators, `r` (read cursor) and `w` (write cursor), walk
that ring:

- `put` writes under `w`, clears the flag and moves `w` on;
- `get` sets the flag under `r`, returns the payload and moves `r` on;
- `empty()`, `full()` and `has_unread_data()` read the flag under `r` and compare the
  two cursors.

The iterators carry a `size_t` step counter. It is what makes
`for (auto x : cb)` visit exactly N cells even when `begin()` and `end()` name the
same cell.

The model is functional. A buffer is an immutable value:

- `cells` holds a payload and a flag per node;
- `forward` holds the links, as indices into `cells`;
- `r` and `w` are cell indices;
- `id` stands for the address of the node array.

Every operation is a pure function from a buffer to a buffer. Iterators are values
too: a buffer id, a cell index and a counter.

The modules follow the structure of the header:

- `Cycle`: the links `init_links` builds, and stepping round the ring.
- `RingBuffer`: the buffer, its constructor, `put`, `get`, the three queries and
  `capacity()`.
- `Iterators`: `SLL<T>::iterator` (`++` in both forms, `*`, `==`, `!=`, `begin()`,
  `end()`) and `SLL<T>::const_iterator` (`cbegin()`, `cend()`).
- `RangeAlgorithms`: what a range-based `for`, `std::fill` and `std::copy` do through
  those iterators, and the initializer-list constructor built on `std::copy`.
- `Fifo`: the queue discipline. If `put` is never called on a full buffer and `get`
  only while `has_unread_data()`, the buffer is a FIFO queue of at most N values,
  and the queries report its occupancy.
- `Overwrite`: what happens without that discipline. Writing past a full buffer
  overwrites in place and `r` never moves. Reading goes on round the ring.
- `Scenarios`: the repository's unit tests, stated as facts about the model.

Two points where a reading of the buffer as a "classic" ring disagrees with the code.
The model follows the code in both.

- `put` on a full buffer does not advance `r` to drop the oldest entry. It overwrites
  the cell under `r`, and `r` stays. So after ten `'o'` then `'a'`, `'b'` on ten cells,
  ten gets read `"aboooooooo"`. The repository's own test expects exactly that.
- The initializer-list constructor does not go through `put`. It copies through
  `begin()` with `std::copy`, so every flag stays "read" and the new buffer reports
  `empty()`.

## Model

| member | source | states |
|---|---|---|
| Cycle.InitLinks | circularbuffer.hpp:122-127 | after the loop every cell i links to cell i + 1 and the tail links back to the head, i.e. cell i links to (i + 1) mod N, and the links form one ring |
| Cycle.SuccIsModular | circularbuffer.hpp:123-126 | the link init_links gives a cell is the next index modulo N |
| Cycle.FollowIsModular | circularbuffer.hpp:122-127 | following k links from cell i, for any k, reaches cell (i + k) mod N |
| Cycle.CycleReturns | circularbuffer.hpp:126 | because the tail points back to the head, N links from any cell return to that cell |
| Cycle.CycleReachesEveryCell | circularbuffer.hpp:122-127 | from any cell, every cell is reached within fewer than N links |
| Cycle.CycleVisitsNoCellTwice | circularbuffer.hpp:122-127 | within fewer than N links from a cell, no cell is visited twice |
| RingBuffer.Capacity | circularbuffer.hpp:108 | capacity() is the template parameter N: at least 1 and a size_t |
| RingBuffer.Create | circularbuffer.hpp:88 | the default constructor gives N cells, every flag read (line 13), both cursors on the first element, cell 0 (lines 119-120), and ring links, so the buffer is empty, not full and has no unread data; every payload is one value `init` (see Left out) |
| RingBuffer.HasUnreadData | circularbuffer.hpp:104 | has_unread_data() is true exactly when the flag of the cell under r is clear |
| RingBuffer.Empty | circularbuffer.hpp:105 | empty() is true exactly when r and w name the same cell and that cell's flag is set |
| RingBuffer.Full | circularbuffer.hpp:106 | full() is true exactly when r and w name the same cell and that cell's flag is clear |
| RingBuffer.Put | circularbuffer.hpp:92-93 | put stores the value under w and marks it unread, changes no other cell, moves w to the next cell and leaves r where it is |
| RingBuffer.Get | circularbuffer.hpp:94 | get returns the payload under r, marks that cell read, changes no other cell, moves r to the next cell and leaves w where it is |
| RingBuffer.EmptyOrFullExactlyWhenCursorsMeet | circularbuffer.hpp:104-106 | empty() and full() never hold together, one of them holds exactly when r and w name the same cell, full() implies has_unread_data() and empty() excludes it |
| RingBuffer.PutOnFullOverwritesUnderReader | circularbuffer.hpp:92 | put on a full buffer overwrites the oldest unread cell in place: r stays on it, it holds the new value unread, and the buffer is no longer full unless N is 1 |
| RingBuffer.GetOnEmptyPassesWriter | circularbuffer.hpp:94 | get on an empty buffer returns the stale payload under r, changes no cell, and (for N > 1) leaves r past w so the buffer is neither empty nor full |
| Iterators.Begin | circularbuffer.hpp:97 | begin() is an iterator on the read cursor's cell with its counter reset to 0 |
| Iterators.End | circularbuffer.hpp:98 | end() is an iterator on the write cursor's cell with its counter set to N |
| Iterators.Next | circularbuffer.hpp:31 | ++it moves to the cell the current cell links to and adds 1 to the size_t counter, wrapping at 2^64 |
| Iterators.Deref | circularbuffer.hpp:32 | `*it` read as a value is the payload of the iterator's cell |
| Iterators.Eq | circularbuffer.hpp:35 | == holds when the counters are equal and either the operands are one object or they name the same cell of the same buffer |
| Iterators.Ne | circularbuffer.hpp:36 | != holds when the counters differ and either the operands are different objects or they name different cells |
| Iterators.Advance | test/test.cpp:215 | std::advance(it, k) with k >= 0 applies ++ k times |
| Iterators.PostNext | circularbuffer.hpp:30 | it++ advances the iterator as ++it does, but the copy it returns names the old cell and already carries the incremented counter |
| Iterators.Store | circularbuffer.hpp:32 | writing through `*it` changes only the payload of that iterator's cell; flags, links and both cursors stay |
| Iterators.EqIsSameCounterAndCell | circularbuffer.hpp:35 | == holds exactly when the counters are equal and the iterators name the same cell, whether or not the operands are one object |
| Iterators.NeComparesCountersOnly | circularbuffer.hpp:36 | between two distinct iterator objects != compares only the counters, and an iterator is never != itself |
| Iterators.NeIsNotNegatedEq | circularbuffer.hpp:35-36 | two iterators with equal counters on different cells are neither == nor != |
| Iterators.DifferentBuffersNeverEqual | circularbuffer.hpp:35 | iterators into two different buffers are never == |
| Iterators.AdvanceIsModular | circularbuffer.hpp:30-31 | k increments move the iterator to cell (pos + k) mod N and add k to its size_t counter modulo 2^64 |
| Iterators.BeginEndLoopTakesCapacitySteps | circularbuffer.hpp:97-98 | after k <= N increments from begin() the iterator is k cells past r with counter k, and it != end() holds exactly until k reaches N, also when r == w |
| Iterators.LoopEndsOnReader | circularbuffer.hpp:97-98 | after its N increments the begin() iterator is back on r, and it is == end() exactly when r == w |
| Iterators.AdvanceKeepsCycling | circularbuffer.hpp:31 | going N more increments round lands on the same cell: iteration never stops by itself |
| Iterators.FreshBeginDiffersFromEnd | circularbuffer.hpp:97-98 | on a fresh buffer begin() and end() name the same cell, yet begin() != end() holds, begin() == end() does not, and two begin() results are == |
| Iterators.StoreKeepsQueries | circularbuffer.hpp:104-108 | writing through an iterator leaves empty(), full(), has_unread_data() and capacity() as they were |
| Iterators.CBegin | circularbuffer.hpp:101 | cbegin() is a const_iterator on the read cursor's cell |
| Iterators.CEnd | circularbuffer.hpp:102 | cend() is a const_iterator on the write cursor's cell |
| Iterators.CNext | circularbuffer.hpp:62 | ++it on a const_iterator moves to the cell the current cell links to |
| Iterators.CDeref | circularbuffer.hpp:63 | `*it` on a const_iterator is a copy of the payload of its cell |
| Iterators.CEq | circularbuffer.hpp:66 | const_iterator's == compares the cell positions only, never the counters |
| Iterators.CNe | circularbuffer.hpp:67 | const_iterator's != is true exactly when the cell positions differ |
| Iterators.CPostNext | circularbuffer.hpp:61 | const_iterator's it++ advances as ++it does and returns a copy that is == to the old iterator |
| Iterators.ConstAdvanceIsStep | circularbuffer.hpp:61-62 | k increments of a const_iterator move it k cells round the ring |
| Iterators.ConstLoopWalksReaderToWriter | circularbuffer.hpp:66-67 | since const_iterator compares cell positions only, a `cbegin() != cend()` loop stops after the distance from r to w, which is zero when r == w, not after N |
| RangeAlgorithms.CollectRange | circularbuffer.hpp:96-98 | a range-based for loop over the buffer reads N payloads, the k-th from the cell k steps past r |
| RangeAlgorithms.TransformRange | circularbuffer.hpp:96-98 | `for (auto& x : cb) x = f(x)` replaces every payload by its image under f and changes no flag, link or cursor |
| RangeAlgorithms.FillRange | test/test.cpp:224 | std::fill over begin()..end() sets every payload to the value and changes no flag, link or cursor |
| RangeAlgorithms.CopyInto | circularbuffer.hpp:86 | std::copy through an iterator changes payloads only: every flag, the links and both cursors stay |
| RangeAlgorithms.CopyIntoWrites | circularbuffer.hpp:86 | copying at most N values from an iterator puts the k-th value in the cell k steps past it and leaves the other payloads alone |
| RangeAlgorithms.FromList | circularbuffer.hpp:83-87 | the initializer-list constructor puts il[i] in cell i, clears no flag and moves no cursor, so the buffer is empty and has no unread data |
| Fifo.Len | circularbuffer.hpp:105-106 | the number of cells the cursors enclose is at most N, zero exactly when empty() and N exactly when full() |
| Fifo.QueriesMatchOccupancy | circularbuffer.hpp:104-106 | under the queue discipline empty(), full() and has_unread_data() report a queue of 0, N and more than 0 values, and has_unread_data() is !empty() |
| Fifo.FreshIsEmptyQueue | circularbuffer.hpp:88 | a freshly constructed buffer keeps the queue invariant and holds no values |
| Fifo.PutEnqueues | circularbuffer.hpp:92 | put on a buffer that is not full keeps the invariant and appends the value to the back of the queue |
| Fifo.GetDequeues | circularbuffer.hpp:94 | get on a buffer with unread data keeps the invariant, returns the front of the queue and removes it |
| Fifo.GetMany | circularbuffer.hpp:94 | k gets return k values and change no payload and not w |
| Fifo.PutAllEnqueues | circularbuffer.hpp:92-93 | puts that never meet a full buffer append their values to the queue in order |
| Fifo.GetManyDequeues | circularbuffer.hpp:94 | gets that never meet an empty buffer return the front of the queue in order and leave the rest |
| Fifo.GetsLeaveUnreadUntilDrained | circularbuffer.hpp:104 | after j gets from a queue of length L (j <= L), has_unread_data() holds exactly when j < L, and after L gets the buffer is empty |
| Fifo.FifoRoundTrip | circularbuffer.hpp:92-94 | from a fresh buffer, k <= N puts then k gets return the values in the order they were put, has_unread_data() holds after j of the gets exactly when j < k, and the buffer ends empty |
| Fifo.PutsWithoutGets | circularbuffer.hpp:105-106 | up to N puts on a fresh buffer: empty exactly when nothing was put, full exactly after N puts, unread data once anything was put |
| Fifo.DrainWhileUnread | test/test.cpp:103-105 | `while (has_unread_data()) out += get()` returns exactly the queued values, oldest first, and leaves the buffer empty |
| Fifo.PutUntilFull | test/test.cpp:83-84 | `while (!full()) put(v)` appends one copy of v per free cell and stops on a full buffer with r unchanged; the result is exactly that many puts of v |
| Overwrite.PutKeepsAfterPuts | circularbuffer.hpp:92 | one more put on a buffer filled from fresh writes the j-th value to the cell j steps from the head, whether or not the buffer was full |
| Overwrite.PutsFromFresh | circularbuffer.hpp:92-93 | any number of puts on a fresh buffer leave r on cell 0, w as many cells on as there were puts, a cell unread exactly when written, and each of the last N values in the cell its index reaches |
| Overwrite.GetManyReadsRingOrder | circularbuffer.hpp:94 | k gets, with or without unread data, return the payloads of the k cells from r round the ring and leave r k cells on |
| Overwrite.OverwriteKeepsLastN | circularbuffer.hpp:92-94 | after m >= N puts on a fresh buffer, N gets return each of the last N values at position (its index mod N), because r never left cell 0 |
| Overwrite.OverwriteMultipleInPutOrder | circularbuffer.hpp:92-94 | when the number of puts is a multiple of N, the N gets return exactly the last N values in put order |
| Scenarios.PutAndGetInts | test/test.cpp:11-17 | on two cells, put 1, put 2, get, get returns 1 then 2 |
| Scenarios.FullOrEmpty | test/test.cpp:19-30 | a fresh five-cell buffer is empty; after one put it is neither empty nor full; after five puts it is full |
| Scenarios.CircularStructure | test/test.cpp:33-50 | ten puts on five cells, then five gets return "six" to "ten" |
| Scenarios.TwoOverwritesOnFull | test/test.cpp:83-91 | n puts of o on n cells followed by a and c, then n gets, return a, c and n - 2 copies of o |
| Scenarios.CapacityAndFull | test/test.cpp:77-93 | a fresh ten-cell buffer is empty and not full; the `while (!full()) put('o')` loop puts exactly ten o's; two more puts and then `capacity()` gets read "aboooooooo" |
| Scenarios.HasUnreadDataLoop | test/test.cpp:95-107 | puts of a, b, c then get while has_unread_data() read "abc" |
| Scenarios.MutateElements | test/test.cpp:60-74 | "HELLO" incremented element by element through references (`it + 1` on an 8-bit char) reads "IFMMP" |
| Scenarios.PreAndPostIncrement | test/test.cpp:110-117 | on two cells holding a, b: `*it++` reads a, `*++it` reads a, the next `*++it` reads b |
| Scenarios.BeginAndEnd | test/test.cpp:120-136 | two begin()..end() loops with != over "HELLO" both read "HELLO" |
| Scenarios.IteratorComparisons | test/test.cpp:139-159 | begin() and end() of a fresh buffer are != and not ==; two begin() are ==, two end() are ==, and a begin() is not == to a second end() |
| Scenarios.IteratorsOfTwoBuffers | test/test.cpp:186-194 | the begin() iterators of two fresh buffers are not ==, and an iterator is == to itself |
| Scenarios.OutputThroughIterator | test/test.cpp:162-172 | storing g and h through a walking iterator on two cells and walking on reads g then h, and the buffer still reports empty |
| Scenarios.OutputOperations | test/test.cpp:198-208 | `*it = 'a'; *++it = 'b'` on a buffer holding a, b, then `*++it` reads a and the next `*++it` reads b |
| Scenarios.AdvanceTwo | test/test.cpp:211-218 | std::advance(begin(), 2) on a buffer holding a, b, c reads c |
| Scenarios.Fill | test/test.cpp:221-229 | std::fill with 'a' over a fresh three-cell buffer, then a range loop, reads "aaa" |
| Scenarios.InitializerList | test/test.cpp:231-238 | a buffer built from {'H','E','Y'} read by a range loop gives "HEY" |

## Left out

- `operator<<` (circularbuffer.hpp:110-116) is debug-only stream output. The N gets it performs are `Fifo.GetMany(b, N)`; the stream itself is not modelled.
- The `NDEBUG` guard around `<iostream>` (circularbuffer.hpp:1-3) only affects the build.
- The deleted move constructor and copy assignment (circularbuffer.hpp:89-90) are compile-time restrictions. Dafny values are immutable, and a buffer's identity is its `id`.
- The iterators' default constructors (circularbuffer.hpp:27, 58) leave the cell pointer uninitialised. Nothing can be said about such an iterator, so it is not modelled.
- `operator->` (circularbuffer.hpp:33, 64) hands out the node itself. Reading and writing the payload through `*` is modelled (`Deref`, `Store`, `CDeref`); touching the flag or link through the node pointer is not.
- `put(T&&)` (circularbuffer.hpp:93) differs from `put(const T&)` only in moving instead of copying. Both are `RingBuffer.Put`.
- The counters of the cursors `r` and `w` are never observable. `begin()` and `end()` overwrite them before handing out copies, and `put`/`get` never compare them. The model keeps no counter on the cursors.
- RingBuffer.Create: `SLL<T> elements[N]` (circularbuffer.hpp:118) default-initialises each payload (circularbuffer.hpp:14). For a class type T that is T's default value. For a scalar T such as `int` or `char` it is indeterminate, may differ from cell to cell, and reading it is undefined behaviour in C++. The model fixes every fresh payload to one arbitrary value `init` and does not model that undefined behaviour, so a `get` on a fresh buffer returns `init`.
- Object identity (`this == &rhs` in circularbuffer.hpp:35-36) is an explicit `aliased` argument of `Eq`/`Ne`. It may only be true when both operands are the same value.
- RangeAlgorithms.FromList: requires `il.size() == N`, the condition the `assert` at circularbuffer.hpp:85 checks in debug builds. A release build given a list of another length is not modelled.
- Fifo.DrainWhileUnread: the loop is stated under the queue invariant `Fifo.Inv`, which every buffer reached from a fresh one by disciplined puts and gets keeps. A loop started on a buffer that was overwritten without that discipline is described only by `Overwrite`.
- Fifo.PutUntilFull: the loop is stated under the queue invariant `Fifo.Inv`, for the same reason. A loop started on a buffer that was overwritten without that discipline is not described.
- Iterators.ConstLoopWalksReaderToWriter: states the `cbegin() != cend()` loop only for up to Dist(r, w) increments, which is where it stops. Walking further is `Iterators.ConstAdvanceIsStep`.
- The program in `tests/test.cpp` calls `is_full()` and `clear()` (tests/test.cpp:12, 47), which the header does not declare. The program in `tests/test2.cpp` assigns to `i.data` through a `char&` (tests/test2.cpp:25), so it does not compile either. Neither is part of this model.
- The `is_copy_constructible` test (test/test.cpp:52-57) is a compile-time property.
- Iterators.Next: `size_t` is taken as 64 bits, so the iterator counter wraps at 2^64 (`Cycle.SizeModulus`). On a platform with a 32-bit `size_t`, common in the embedded systems the header targets, it wraps at 2^32; the model does not cover other widths.
- Iterators.AdvanceIsModular: the counter arithmetic is modulo 2^64 for the same 64-bit `size_t` assumption.
- RingBuffer.Capacity: N is bounded by 2^64, the range of a 64-bit `size_t`, for the same reason.
