/**
 * The overwrite-oldest ring of recent samples that feeds the waveform view
 * (circular_buffer.c). A `Ring` is the value of the C struct's `buffer`,
 * `head` and `tail`; `Push` and `WriteAll` say on values what one iteration
 * and one call of `writeToCircularBuffer` do; the class mirrors the C struct
 * and its functions, with the mutex left out.
 */
module CircularBuffer {
  import opened ModArith

  /** The samples, the next write position and the oldest valid position. */
  datatype Ring = Ring(buf: seq<real>, head: int, tail: int) {
    predicate Valid() { |buf| >= 1 && 0 <= head < |buf| && 0 <= tail < |buf| }
  }

  /**
   * Number of valid samples. The C computes `(head - tail + size) % size`; the
   * argument is below `2 * size`, so that is `Wrap` of it (ModArith.ModWrap).
   */
  function Available(r: Ring): (n: int)
    requires r.Valid()
    ensures 0 <= n <= |r.buf| - 1
  {
    Wrap(r.head - r.tail + |r.buf|, |r.buf|)
  }

  /** The window is at its `size - 1` bound exactly when `head` sits just behind `tail`. */
  lemma AvailableAtBound(r: Ring)
    requires r.Valid()
    ensures Available(r) == |r.buf| - 1 <==> (r.head + 1) % |r.buf| == r.tail
  {
    ModWrap(r.head + 1, |r.buf|);
  }

  /** The valid samples, oldest first: the `Available` slots ending just before `head`. */
  function Window(r: Ring): (w: seq<real>)
    requires r.Valid()
    ensures |w| == Available(r)
  {
    Span(r.buf, r.head, Available(r))
  }

  /** The `a` slots of `buf` ending just before `end`, walking backwards round the ring. */
  function Span(buf: seq<real>, end: int, a: int): (s: seq<real>)
    requires 0 <= end < |buf| && 0 <= a <= |buf|
    ensures |s| == a
    decreases a
  {
    if a == 0 then []
    else
      var last := Wrap(end - 1 + |buf|, |buf|);
      Span(buf, last, a - 1) + [buf[last]]
  }

  /** Element `k` of a span is the slot `a - k` places behind `end`. */
  lemma {:induction false} SpanAt(buf: seq<real>, end: int, a: int, k: int)
    requires 0 <= end < |buf| && 0 <= a <= |buf| && 0 <= k < a
    ensures Span(buf, end, a)[k] == buf[Wrap(end + |buf| - a + k, |buf|)]
    decreases a
  {
    var n := |buf|;
    var last := Wrap(end - 1 + n, n);
    if k < a - 1 {
      SpanAt(buf, last, a - 1, k);
      assert Wrap(last + n - (a - 1) + k, n) == Wrap(end + n - a + k, n);
    }
  }

  /** Element `k` of the window is the slot `Available - k` places behind `head`. */
  lemma WindowAt(r: Ring, k: int)
    requires r.Valid() && 0 <= k < Available(r)
    ensures Window(r)[k] == r.buf[Wrap(r.head + |r.buf| - Available(r) + k, |r.buf|)]
  {
    SpanAt(r.buf, r.head, Available(r), k);
  }

  /** The last `Min(|h|, n)` elements of `h`, in their original order. */
  function Recent(h: seq<real>, n: nat): (s: seq<real>)
    ensures |s| == Min(|h|, n)
  {
    h[|h| - Min(|h|, n)..]
  }

  /**
   * One iteration of the write loop: store at `head`, advance it, and push `tail` on
   * when `head` catches it. Each `Wrap(i + 1, size)` is the C's `(i + 1) % size`.
   */
  function Push(r: Ring, x: real): (r': Ring)
    requires r.Valid()
    ensures r'.Valid() && |r'.buf| == |r.buf|
    ensures Available(r') == Min(Available(r) + 1, |r.buf| - 1)
  {
    var size := |r.buf|;
    var head := Wrap(r.head + 1, size);
    Ring(r.buf[r.head := x], head, if head == r.tail then Wrap(r.tail + 1, size) else r.tail)
  }

  /** A whole call of `writeToCircularBuffer`: `Push` each value in turn. */
  function WriteAll(r: Ring, xs: seq<real>): (r': Ring)
    requires r.Valid()
    ensures r'.Valid() && |r'.buf| == |r.buf|
    ensures Available(r') == Min(Available(r) + |xs|, |r.buf| - 1)
    decreases |xs|
  {
    if xs == [] then r else Push(WriteAll(r, xs[..|xs| - 1]), xs[|xs| - 1])
  }

  /** Keeping a bounded suffix commutes with appending one more value. */
  lemma RecentAppend(h: seq<real>, x: real, n: nat)
    ensures Recent(Recent(h, n) + [x], n) == Recent(h + [x], n)
  {
    var r := Recent(h, n);
    assert h == h[..|h| - |r|] + r;
    var hx := h + [x];
    assert hx == h[..|h| - |r|] + (r + [x]);
    if |r| < n {
      assert |h| <= n;
    } else {
      assert (r + [x])[1..] == hx[|hx| - n..];
    }
  }

  /** A suffix of a bounded suffix is a suffix of the whole. */
  lemma RecentOfRecent(h: seq<real>, m: nat, n: nat)
    requires m <= n
    ensures Recent(Recent(h, n), m) == Recent(h, m)
  {
  }

  /** While there is room, `Push` appends to the window. */
  lemma PushWithRoom(r: Ring, x: real)
    requires r.Valid() && Available(r) < |r.buf| - 1
    ensures Window(Push(r, x)) == Window(r) + [x]
  {
    var a := Available(r);
    var r' := Push(r, x);
    assert r'.tail == r.tail;
    assert Available(r') == a + 1;
    var w, w' := Window(r), Window(r');
    forall k | 0 <= k < a + 1
      ensures w'[k] == (w + [x])[k]
    {
      var n := |r.buf|;
      var i := Wrap(r.head + n - a + k, n);
      WindowAt(r', k);
      assert Wrap(r'.head + n - (a + 1) + k, n) == i;
      if k < a {
        WindowAt(r, k);
        assert i != r.head;
      }
    }
  }

  /** On a full window, `Push` drops the oldest value and appends `x`. */
  lemma PushWhenFull(r: Ring, x: real)
    requires r.Valid() && Available(r) == |r.buf| - 1
    ensures Window(Push(r, x)) == (Window(r) + [x])[1..]
  {
    var n := |r.buf|;
    var r' := Push(r, x);
    assert r'.head == r.tail;
    assert Available(r') == n - 1;
    var w, w' := Window(r), Window(r');
    forall k | 0 <= k < n - 1
      ensures w'[k] == (w + [x])[k + 1]
    {
      var i := Wrap(r.head + 2 + k, n);
      WindowAt(r', k);
      assert Wrap(r'.head + 1 + k, n) == i;
      if k < n - 2 {
        WindowAt(r, k + 1);
        assert i != r.head;
      }
    }
  }

  /** After one `Push` the window is the old window with `x` appended, trimmed to `size - 1`. */
  lemma PushWindow(r: Ring, x: real)
    requires r.Valid()
    ensures Window(Push(r, x)) == Recent(Window(r) + [x], |r.buf| - 1)
  {
    if Available(r) < |r.buf| - 1 {
      PushWithRoom(r, x);
    } else {
      PushWhenFull(r, x);
    }
  }

  /** After a whole write, the window is the last `size - 1` of old window plus written values. */
  lemma {:induction false} WriteAllWindow(r: Ring, xs: seq<real>)
    requires r.Valid()
    ensures Window(WriteAll(r, xs)) == Recent(Window(r) + xs, |r.buf| - 1)
    decreases |xs|
  {
    if xs == [] {
      assert Window(r) + xs == Window(r);
    } else {
      var init, x := xs[..|xs| - 1], xs[|xs| - 1];
      WriteAllWindow(r, init);
      PushRecent(WriteAll(r, init), Window(r) + init, x);
      assert Window(r) + init + [x] == Window(r) + xs;
    }
  }

  /** A ring whose window is the capped history `h` still is after a `Push` of `x` onto both. */
  lemma PushRecent(r: Ring, h: seq<real>, x: real)
    requires r.Valid() && Window(r) == Recent(h, |r.buf| - 1)
    ensures Window(Push(r, x)) == Recent(h + [x], |r.buf| - 1)
  {
    PushWindow(r, x);
    RecentAppend(h, x, |r.buf| - 1);
  }

  /** A write moves `head` forward by the number of values written, round the ring. */
  lemma {:induction false} WriteAllHead(r: Ring, xs: seq<real>)
    requires r.Valid()
    ensures WriteAll(r, xs).head == (r.head + |xs|) % |r.buf|
    decreases |xs|
  {
    if xs == [] {
      ModWrap(r.head, |r.buf|);
    } else {
      var init := xs[..|xs| - 1];
      WriteAllHead(r, init);
      HeadStep(r.head + |init|, WriteAll(r, init).head, |r.buf|);
    }
  }

  /** Advancing a reduced index by one, as `Push` does, reduces the advanced index. */
  lemma HeadStep(x: int, head: int, n: int)
    requires n > 0 && 0 <= head < n && head == x % n
    ensures Wrap(head + 1, n) == (x + 1) % n
  {
    ModWrap(head + 1, n);
    ModNext(x, n);
  }

  /** A slot further from `head` than the number of values written keeps its sample. */
  lemma {:induction false} WriteAllUntouched(r: Ring, xs: seq<real>, j: int)
    requires r.Valid() && 0 <= j < |r.buf|
    requires Dist(r.head, j, |r.buf|) >= |xs|
    ensures WriteAll(r, xs).buf[j] == r.buf[j]
    decreases |xs|
  {
    if xs != [] {
      var init := xs[..|xs| - 1];
      WriteAllUntouched(r, init, j);
      WriteAllHead(r, init);
      ModDistinct(r.head + |init|, r.head + Dist(r.head, j, |r.buf|), |r.buf|);
    }
  }

  /** Each of the last `size` values written sits at its successive position from the old `head`. */
  lemma {:induction false} WriteAllStores(r: Ring, xs: seq<real>, i: int)
    requires r.Valid() && 0 <= i < |xs| && |xs| - i <= |r.buf|
    ensures WriteAll(r, xs).buf[(r.head + i) % |r.buf|] == xs[i]
    decreases |xs|
  {
    var n, init := |r.buf|, xs[..|xs| - 1];
    var before := WriteAll(r, init);
    assert WriteAll(r, xs) == Push(before, xs[|xs| - 1]);
    WriteAllHead(r, init);
    var j := (r.head + i) % n;
    if i < |xs| - 1 {
      WriteAllStores(r, init, i);
      ModDistinct(r.head + i, r.head + |init|, n);
      assert j != before.head;
    } else {
      assert j == before.head;
    }
  }

  /** Appending several values to a bounded suffix and trimming again keeps the same suffix. */
  lemma RecentAppendAll(h: seq<real>, xs: seq<real>, n: nat)
    ensures Recent(Recent(h, n) + xs, n) == Recent(h + xs, n)
  {
    var r := Recent(h, n);
    if |r| == n {
      var p := h[..|h| - n];
      assert h == p + r;
      assert h + xs == p + (r + xs);
    } else {
      assert r == h;
    }
  }

  /** The ring holds exactly the last `size - 1` values of the history `h` (or all of them). */
  predicate Tracks(r: Ring, h: seq<real>) {
    r.Valid() && Window(r) == Recent(h, |r.buf| - 1)
  }

  /** A ring whose window grew from `r`'s by `xs` (trimmed) tracks the history grown by `xs`. */
  lemma TracksAppend(r: Ring, r': Ring, h: seq<real>, xs: seq<real>)
    requires Tracks(r, h) && r'.Valid() && |r'.buf| == |r.buf|
    requires Window(r') == Recent(Window(r) + xs, |r.buf| - 1)
    ensures Tracks(r', h + xs)
  {
    RecentAppendAll(h, xs, |r.buf| - 1);
  }

  /** A write keeps the window equal to the capped history when the values join the history. */
  lemma WriteKeepsHistory(r: Ring, h: seq<real>, xs: seq<real>)
    requires Tracks(r, h)
    ensures Tracks(WriteAll(r, xs), h + xs)
  {
    WriteAllWindow(r, xs);
    TracksAppend(r, WriteAll(r, xs), h, xs);
  }

  /**
   * What a read of `m` values returns, the last `m` of the window, is the last `m` values
   * of the history; and the number of valid samples is the history length capped at `size - 1`.
   */
  lemma ReadKeepsHistory(r: Ring, h: seq<real>, m: int)
    requires Tracks(r, h) && 0 <= m <= Available(r)
    ensures Recent(Window(r), m) == Recent(h, m)
    ensures Available(r) == Min(|h|, |r.buf| - 1)
  {
    RecentOfRecent(h, m, |r.buf| - 1);
  }

  /** The `m` slots just before `head`, read in order, are the last `m` samples of the window. */
  lemma WindowSuffix(r: Ring, m: int, d: seq<real>)
    requires r.Valid() && 0 <= m <= Available(r) && |d| == m
    requires forall k :: 0 <= k < m ==> d[k] == r.buf[Wrap(r.head + |r.buf| - m + k, |r.buf|)]
    ensures d == Recent(Window(r), m)
  {
    var n, a, w := |r.buf|, Available(r), Window(r);
    forall k | 0 <= k < m
      ensures d[k] == Recent(w, m)[k]
    {
      WindowAt(r, a - m + k);
      assert r.head + n - a + (a - m + k) == r.head + n - m + k;
    }
  }

  /** Writing one more value of `data` is one more `Push`. */
  lemma WriteAllExtend(r: Ring, data: seq<real>, i: int)
    requires r.Valid() && 0 <= i < |data|
    ensures WriteAll(r, data[..i + 1]) == Push(WriteAll(r, data[..i]), data[i])
  {
    assert data[..i + 1][..i] == data[..i];
  }

  /** The C struct: `buffer` is fixed at creation, `head` and `tail` move. */
  class CircularBuffer {
    const size: int
    const buffer: array<real>
    var head: int
    var tail: int

    ghost predicate Valid()
      reads this, buffer
    {
      buffer.Length == size && State().Valid()
    }

    function State(): (r: Ring)
      reads this, buffer
      ensures |r.buf| == buffer.Length
    {
      Ring(buffer[..], head, tail)
    }

    /** `createCircularBuffer`: zeroed storage, empty window. */
    constructor (size: int)
      requires size >= 1
      ensures Valid() && fresh(buffer) && this.size == size
      ensures State() == Ring(seq(size, _ => 0.0), 0, 0)
      ensures Tracks(State(), [])
    {
      this.size := size;
      buffer := new real[size](_ => 0.0);
      head, tail := 0, 0;
    }

    /** `writeToCircularBuffer`: the first `count` values of `data`, in order. */
    method Write(data: seq<real>, count: int)
      requires Valid() && count <= |data|
      modifies this, buffer
      ensures Valid()
      ensures State() == WriteAll(old(State()), data[..Max(count, 0)])
    {
      var i := 0;
      while i < count
        invariant 0 <= i <= Max(count, 0)
        invariant Valid()
        invariant State() == WriteAll(old(State()), data[..i])
      {
        Put(data[i]);
        WriteAllExtend(old(State()), data, i);
        i := i + 1;
      }
    }

    /** The body of the loop in `writeToCircularBuffer`, for one value `x`. */
    method Put(x: real)
      requires Valid()
      modifies this, buffer
      ensures Valid()
      ensures State() == Push(old(State()), x)
    {
      ghost var before := State();
      buffer[head] := x;
      ModWrap(head + 1, size);
      ModWrap(tail + 1, size);
      head := (head + 1) % size;
      if head == tail {
        tail := (tail + 1) % size;
      }
      assert buffer[..] == before.buf[before.head := x];
    }

    /**
     * `readFromCircularBuffer`: copies the most recent `Min(count, available)` samples,
     * oldest first, into `data` and returns how many; nothing of the buffer changes.
     */
    method Read(data: array<real>, count: int) returns (toRead: int)
      requires Valid() && data != buffer
      requires Min(count, Available(State())) <= data.Length
      modifies data
      ensures State() == old(State())
      ensures toRead == Min(count, Available(State()))
      ensures toRead >= 0 ==> data[..toRead] == Recent(Window(State()), toRead)
      ensures data[Max(toRead, 0)..] == old(data[Max(toRead, 0)..])
    {
      ModWrap(head - tail + size, size);
      var available := (head - tail + size) % size;
      toRead := if count < available then count else available;
      var readIndex := (head - toRead + size) % size;
      ghost var r, base := State(), head + size - Max(toRead, 0);
      if toRead >= 0 {
        ModWrap(base, size);
      }
      var i := 0;
      while i < toRead
        invariant 0 <= i <= Max(toRead, 0)
        invariant toRead >= 0 ==> readIndex == Wrap(base + i, size)
        invariant forall k :: 0 <= k < i ==> data[k] == r.buf[Wrap(base + k, size)]
        invariant data[i..] == old(data[i..])
      {
        data[i] := buffer[readIndex];
        ModWrap(readIndex + 1, size);
        readIndex := (readIndex + 1) % size;
        i := i + 1;
      }
      assert State() == r by {
        assert buffer[..] == r.buf;
      }
      if toRead >= 0 {
        WindowSuffix(r, toRead, data[..toRead]);
      }
    }

    /** `getAvailableData`: the number of valid samples, the bound `Read` uses. */
    method GetAvailable() returns (available: int)
      requires Valid()
      ensures available == Available(State()) == |Window(State())|
    {
      ModWrap(head - tail + size, size);
      available := (head - tail + size) % size;
    }

    /** `clearCircularBuffer`: zero every slot and reset both indices. */
    method Clear()
      requires Valid()
      modifies this, buffer
      ensures Valid()
      ensures State() == Ring(seq(size, _ => 0.0), 0, 0)
      ensures Tracks(State(), [])
    {
      forall k | 0 <= k < size {
        buffer[k] := 0.0;
      }
      head, tail := 0, 0;
    }
  }

  /** Two reads with no write between them return the same count and the same samples. */
  method ReadTwice(cb: CircularBuffer, a1: array<real>, a2: array<real>, count: int)
    returns (n1: int, n2: int)
    requires cb.Valid() && a1 != cb.buffer && a2 != cb.buffer && a1 != a2
    requires Min(count, Available(cb.State())) <= a1.Length && Min(count, Available(cb.State())) <= a2.Length
    modifies a1, a2
    ensures n1 == n2 && n1 <= a1.Length && n2 <= a2.Length
    ensures n1 >= 0 ==> a1[..n1] == a2[..n2]
  {
    n1 := cb.Read(a1, count);
    n2 := cb.Read(a2, count);
  }
}
