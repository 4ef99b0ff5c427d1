/** The repository's test cases, stated as facts about the model. */
module Scenarios {
  import opened Cycle
  import opened RingBuffer
  import opened Iterators
  import opened RangeAlgorithms
  import opened Fifo
  import opened Overwrite

  /** CircularBuffer<int, 2>: put 1, put 2, then two gets return 1 and 2. */
  lemma PutAndGetInts()
    ensures GetMany(PutAll(Create(0, 2, 0), [1, 2]), 2).0 == [1, 2]
  {
    FifoRoundTrip(0, 2, 0, [1, 2]);
  }

  /** CircularBuffer<std::string, 5>: empty at first; one put makes it neither empty nor
      full; five puts make it full. */
  lemma FullOrEmpty()
    ensures Empty(Create(0, 5, ""))
    ensures !Empty(PutAll(Create(0, 5, ""), ["new-string"]))
    ensures !Full(PutAll(Create(0, 5, ""), ["new-string"]))
    ensures Full(PutAll(Create(0, 5, ""), ["new-string"] + seq(4, _ => "not empty anymore")))
  {
    PutsWithoutGets(0, 5, "", ["new-string"]);
    PutsWithoutGets(0, 5, "", ["new-string"] + seq(4, _ => "not empty anymore"));
  }

  /** CircularBuffer<std::string, 5>: ten puts, then five gets return the last five
      values in order. */
  lemma CircularStructure()
    ensures GetMany(PutAll(Create(0, 5, ""), ["one", "two", "three", "four", "five",
                                              "six", "seven", "eight", "nine", "ten"]), 5).0
            == ["six", "seven", "eight", "nine", "ten"]
  {
    var vs := ["one", "two", "three", "four", "five", "six", "seven", "eight", "nine", "ten"];
    OverwriteMultipleInPutOrder(0, 5, "", vs);
    assert vs[5..] == ["six", "seven", "eight", "nine", "ten"];
  }

  /** n puts of o on a fresh n-cell buffer, then a and c: a and c overwrite cells 0 and
      1 while r stays on cell 0, so n gets return a, c and n - 2 o's. */
  lemma TwoOverwritesOnFull<T>(n: nat, init: T, o: T, a: T, c: T)
    requires 2 <= n < SizeModulus
    ensures GetMany(PutAll(Create(0, n, init), seq(n, _ => o) + [a, c]), n).0 ==
            [a, c] + seq(n - 2, _ => o)
  {
    var vs := seq(n, _ => o) + [a, c];
    var b := PutAll(Create(0, n, init), vs);
    var out := GetMany(b, n).0;
    assert |b.cells| == n && |vs| == n + 2;
    PutsFromFresh(0, n, init, vs);
    GetManyReadsRingOrder(b, n);
    StepWithinRound(n, 0, n);
    StepOnce(n, 0, n);
    assert b.cells[Step(n, 0, n)].data == a;
    assert b.cells[Step(n, 0, n + 1)].data == c;
    forall i | 0 <= i < n
      ensures out[i] == ([a, c] + seq(n - 2, _ => o))[i]
    {
      StepWithinRound(n, 0, i);
      if 2 <= i {
        assert b.cells[Step(n, 0, i)].data == vs[i];
      }
    }
  }

  /** Two puts after the puts of us are the puts of us followed by those two values. */
  lemma TwoMorePuts<T>(b: Buffer<T>, us: seq<T>, a: T, c: T)
    requires Valid(b)
    ensures PutAll(b, us + [a, c]) == Put(Put(PutAll(b, us), a), c)
  {
    var vs := us + [a, c];
    assert vs[..|vs| - 1] == us + [a] && vs[|vs| - 1] == c;
    assert (us + [a])[..|us|] == us;
  }

  /** CircularBuffer<char, 10>: a fresh buffer is empty and not full; `while (!full())
      put('o')` puts exactly ten o's; then 'a' and 'b' overwrite cells 0 and 1 while r
      stays on cell 0, so ten gets read "aboooooooo"; capacity() is 10 throughout. */
  method CapacityAndFull() returns (puts: nat, str: string)
    ensures Empty(Create(0, 10, ' ')) && !Full(Create(0, 10, ' '))
    ensures puts == 10 && str == "aboooooooo"
  {
    var cb := Create(0, 10, ' ');
    FreshIsEmptyQueue(0, 10, ' ');
    cb, puts := PutUntilFull(cb, 'o');
    assert puts == 10;
    TwoMorePuts(Create(0, 10, ' '), seq(10, _ => 'o'), 'a', 'b');
    cb := Put(Put(cb, 'a'), 'b');
    TwoOverwritesOnFull(10, ' ', 'o', 'a', 'b');
    str := GetMany(cb, 10).0;
    ReadsAbThenEightO();
  }

  lemma ReadsAbThenEightO()
    ensures ['a', 'b'] + seq(8, _ => 'o') == "aboooooooo"
  {
    assert seq(8, _ => 'o') == "oooooooo";
  }

  /** CircularBuffer<char, 5>: put 'a', 'b', 'c', then get while has_unread_data()
      yields "abc". */
  method HasUnreadDataLoop() returns (s: string)
    ensures s == "abc"
  {
    var b := PutAll(Create(0, 5, ' '), "abc");
    FreshIsEmptyQueue(0, 5, ' ');
    PutAllEnqueues(Create(0, 5, ' '), "abc");
    var rest;
    s, rest := DrainWhileUnread(b);
  }

  /** The payloads of a buffer after a few puts on a fresh buffer, from cell 0. */
  lemma PayloadsAfterPuts<T>(n: nat, init: T, vs: seq<T>)
    requires 1 <= n < SizeModulus && |vs| == n
    ensures PutAll(Create(0, n, init), vs).r == 0
    ensures forall i :: 0 <= i < n ==> PutAll(Create(0, n, init), vs).cells[i] == Cell(vs[i], false)
  {
    var b := PutAll(Create(0, n, init), vs);
    assert |b.cells| == n;
    PutsFromFresh(0, n, init, vs);
    forall i | 0 <= i < n
      ensures b.cells[i].data == vs[i]
    {
      StepWithinRound(n, 0, i);
      assert b.cells[Step(n, 0, i)].data == vs[i];
    }
  }

  /** From cell 0, the k-th step of the first round is cell k. */
  lemma StepsFromHead(n: nat)
    requires 1 <= n
    ensures forall k :: 0 <= k < n ==> Step(n, 0, k) == k
  {
    forall k | 0 <= k < n
      ensures Step(n, 0, k) == k
    {
      StepWithinRound(n, 0, k);
    }
  }

  /** `it + 1` stored back into a char, taking char as an 8-bit unsigned code: the
      next code, wrapping from 255 to 0. */
  function NextChar(c: char): (d: char)
    ensures c as int < 255 ==> d as int == c as int + 1
    ensures c as int == 255 ==> d as int == 0
  {
    ((c as int + 1) % 256) as char
  }

  /** CircularBuffer<char, 5> holding "HELLO": `for (auto& x : cb) x = x + 1;` and then a
      range loop reads "IFMMP". */
  method MutateElements() returns (s: string)
    ensures s == "IFMMP"
  {
    var b := PutAll(Create(0, 5, ' '), "HELLO");
    PayloadsAfterPuts(5, ' ', "HELLO");
    b := TransformRange(b, NextChar);
    s := CollectRange(b);
    StepsFromHead(5);
  }

  /** CircularBuffer<char, 5> holding "HELLO": a begin()..end() loop with != reads
      "HELLO", and a second one reads it again. */
  method BeginAndEnd() returns (s1: string, s2: string)
    ensures s1 == "HELLO" && s2 == "HELLO"
  {
    var b := PutAll(Create(0, 5, ' '), "HELLO");
    PayloadsAfterPuts(5, ' ', "HELLO");
    StepsFromHead(5);
    s1 := CollectRange(b);
    s2 := CollectRange(b);
  }

  /** std::fill over begin()..end() of a fresh CircularBuffer<char, 3> with 'a', then a
      range loop reads "aaa". */
  method Fill() returns (s: string)
    ensures s == "aaa"
  {
    var b := Create(0, 3, ' ');
    b := FillRange(b, 'a');
    s := CollectRange(b);
  }

  /** CircularBuffer<char, 3> cb = {'H','E','Y'}: a range loop reads "HEY". */
  method InitializerList() returns (s: string)
    ensures s == "HEY"
  {
    var b := FromList(0, 3, "HEY");
    s := CollectRange(b);
    StepsFromHead(3);
  }

  /** A fresh CircularBuffer<char, 5>: begin() and end() are not == but are !=; two
      begin() calls give == iterators, as do two end() calls, while a begin() and a
      second end() call are not ==. */
  lemma IteratorComparisons()
    ensures var a := Create(1, 5, ' ');
            !Eq(Begin(a), End(a), false) && Ne(Begin(a), End(a), false) &&
            Eq(Begin(a), Begin(a), false) && Eq(End(a), End(a), false)
  {
  }

  /** Two fresh CircularBuffer<char, 2>: their begin() iterators are not ==, and an
      iterator is == to itself (the very same object). */
  lemma IteratorsOfTwoBuffers()
    ensures var a := Create(2, 2, ' '); var b := Create(3, 2, ' ');
            !Eq(Begin(a), Begin(b), false) && Eq(Begin(a), Begin(a), true)
  {
  }

  /** CircularBuffer<char, 2> holding 'a','b': `*it++` reads 'a', then `*++it` reads
      'a' (the walk wrapped round) and the next `*++it` reads 'b'. */
  lemma PreAndPostIncrement()
    ensures var b := PutAll(Create(0, 2, ' '), "ab");
            var (it1, copy) := PostNext(b, Begin(b));
            var it2 := Next(b, it1);
            var it3 := Next(b, it2);
            Deref(b, copy) == 'a' && Deref(b, it2) == 'a' && Deref(b, it3) == 'b'
  {
    PayloadsAfterPuts(2, ' ', "ab");
  }

  /** A fresh CircularBuffer<char, 2>: `*it = 'g'; it++; *it = 'h'; it++;` and then
      `*it++` reads 'g' and the next `*it++` reads 'h'; the buffer still reports empty. */
  lemma OutputThroughIterator()
    ensures var b0 := Create(0, 2, ' ');
            var it0 := Begin(b0);
            var b1 := Store(b0, it0, 'g');
            var it1 := PostNext(b1, it0).0;
            var b2 := Store(b1, it1, 'h');
            var it2 := PostNext(b2, it1).0;
            var (it3, c3) := PostNext(b2, it2);
            var (_, c4) := PostNext(b2, it3);
            Deref(b2, c3) == 'g' && Deref(b2, c4) == 'h' && Empty(b2)
  {
  }

  /** CircularBuffer<char, 2> holding 'a','b': `*it = 'a'; *++it = 'b';` and then `*++it`
      reads 'a' and the next `*++it` reads 'b'. */
  lemma OutputOperations()
    ensures var b0 := PutAll(Create(0, 2, ' '), "ab");
            var it0 := Begin(b0);
            var b1 := Store(b0, it0, 'a');
            var it1 := Next(b1, it0);
            var b2 := Store(b1, it1, 'b');
            var it2 := Next(b2, it1);
            var it3 := Next(b2, it2);
            Deref(b2, it2) == 'a' && Deref(b2, it3) == 'b'
  {
    PayloadsAfterPuts(2, ' ', "ab");
  }

  /** CircularBuffer<char, 3> holding 'a','b','c': std::advance(begin(), 2) reads 'c'. */
  lemma AdvanceTwo()
    ensures var b := PutAll(Create(0, 3, ' '), "abc");
            Deref(b, Advance(b, Begin(b), 2)) == 'c'
  {
    var b := PutAll(Create(0, 3, ' '), "abc");
    PayloadsAfterPuts(3, ' ', "abc");
    AdvanceIsModular(b, Begin(b), 2);
  }
}
