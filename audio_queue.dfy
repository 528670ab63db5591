/**
 * The bounded FIFO of sample chunks between the audio callback and the beat tracker
 * (audio_queue.c). A `Queue` is the value of the C struct's `frames`, `head` and
 * `tail`; `Enqueued`, `Dequeued` and `Cleared` say on values what the three
 * operations do, and `Resident` is the abstract sequence of queued frames. The class
 * mirrors the C struct with its mutex and condition variable left out: a wait for
 * space or for a frame becomes a precondition.
 */
module AudioQueue {
  import opened ModArith

  /**
   * One slot: the copied samples and their number. A slot whose `data` is NULL (after
   * `calloc` or a clear) holds the empty sequence.
   */
  datatype AudioFrame = AudioFrame(data: seq<real>, frameCount: nat)

  /** A zeroed slot: NULL data and no samples. */
  const Blank := AudioFrame([], 0)

  /** The frames array with the next frame to hand out (`head`) and the next free slot (`tail`). */
  datatype Queue = Queue(frames: seq<AudioFrame>, head: int, tail: int) {
    predicate Valid() { |frames| >= 1 && 0 <= head < |frames| && 0 <= tail < |frames| }
  }

  /**
   * Number of queued frames, `(tail - head + capacity) % capacity`; the argument is below
   * `2 * capacity`, so that is `Wrap` of it (ModArith.ModWrap).
   */
  function Count(q: Queue): (c: int)
    requires q.Valid()
    ensures 0 <= c <= |q.frames| - 1
  {
    Wrap(q.tail - q.head + |q.frames|, |q.frames|)
  }

  /**
   * The C's test for a full queue, `(tail + 1) % capacity == head`: one slot is kept
   * open, so the queue is full exactly when it holds `capacity - 1` frames.
   */
  predicate Full(q: Queue): (full: bool)
    requires q.Valid()
    ensures full <==> Count(q) == |q.frames| - 1
  {
    Wrap(q.tail + 1, |q.frames|) == q.head
  }

  /** The queue is empty exactly when `head == tail`, the C's test in `dequeueAudioFrame`. */
  lemma EmptyIffCount(q: Queue)
    requires q.Valid()
    ensures q.head == q.tail <==> Count(q) == 0
  {
  }

  /** The queued frames, oldest first: the `Count` slots starting at `head`. */
  function Resident(q: Queue): (s: seq<AudioFrame>)
    requires q.Valid()
    ensures |s| == Count(q)
  {
    var n, c := |q.frames|, Count(q);
    seq(c, k requires 0 <= k < c => q.frames[Wrap(q.head + k, n)])
  }

  /** Whether slot `j` holds a queued frame: it is fewer than `Count` steps on from `head`. */
  predicate InQueue(q: Queue, j: int)
    requires q.Valid() && 0 <= j < |q.frames|
  {
    Dist(q.head, j, |q.frames|) < Count(q)
  }

  /** `enqueueAudioFrame` once there is room: fill slot `tail` and step `tail` on. */
  function Enqueued(q: Queue, f: AudioFrame): (q': Queue)
    requires q.Valid()
    ensures q'.Valid() && |q'.frames| == |q.frames|
  {
    Queue(q.frames[q.tail := f], q.head, Wrap(q.tail + 1, |q.frames|))
  }

  /** `dequeueAudioFrame` once a frame is there: step `head` on; the slots stay as they are. */
  function Dequeued(q: Queue): (q': Queue)
    requires q.Valid()
    ensures q'.Valid() && q'.frames == q.frames
  {
    Queue(q.frames, Wrap(q.head + 1, |q.frames|), q.tail)
  }

  /** `clearAudioQueue`: blank every queued slot, keep the others, and reset both indices. */
  function Cleared(q: Queue): (q': Queue)
    requires q.Valid()
    ensures q'.Valid() && |q'.frames| == |q.frames|
  {
    var n := |q.frames|;
    Queue(seq(n, j requires 0 <= j < n => if InQueue(q, j) then Blank else q.frames[j]), 0, 0)
  }

  /** Enqueueing into a queue with room appends the frame at the back. */
  lemma EnqueueAppends(q: Queue, f: AudioFrame)
    requires q.Valid() && !Full(q)
    ensures Count(Enqueued(q, f)) == Count(q) + 1
    ensures Resident(Enqueued(q, f)) == Resident(q) + [f]
  {
    var n, c, q' := |q.frames|, Count(q), Enqueued(q, f);
    assert Count(q') == c + 1;
    forall k | 0 <= k < c + 1
      ensures Resident(q')[k] == (Resident(q) + [f])[k]
    {
      var i := Wrap(q.head + k, n);
      if k < c {
        assert i != q.tail;
      } else {
        assert i == q.tail;
      }
    }
  }

  /** Dequeueing from a non-empty queue hands out the front frame and removes it. */
  lemma DequeueRemovesFront(q: Queue)
    requires q.Valid() && q.head != q.tail
    ensures q.frames[q.head] == Resident(q)[0]
    ensures Count(Dequeued(q)) == Count(q) - 1
    ensures Resident(Dequeued(q)) == Resident(q)[1..]
  {
    var n, c, q' := |q.frames|, Count(q), Dequeued(q);
    assert c > 0 && Wrap(q.head + 0, n) == q.head;
    assert Count(q') == c - 1;
    forall k | 0 <= k < c - 1
      ensures Resident(q')[k] == Resident(q)[k + 1]
    {
      assert Wrap(q'.head + k, n) == Wrap(q.head + (k + 1), n);
    }
  }

  /** A cleared queue is empty, its queued slots are blank and the other slots are untouched. */
  lemma ClearEmpties(q: Queue)
    requires q.Valid()
    ensures Resident(Cleared(q)) == []
    ensures forall j :: 0 <= j < |q.frames| ==>
      Cleared(q).frames[j] == if InQueue(q, j) then Blank else q.frames[j]
  {
  }

  /**
   * The C struct. `contents` is the abstract FIFO: the frames enqueued and not yet
   * dequeued, oldest first.
   */
  class AudioQueue {
    const capacity: int
    const frames: array<AudioFrame>
    var head: int
    var tail: int
    ghost var contents: seq<AudioFrame>

    ghost predicate Valid()
      reads this, frames
    {
      frames.Length == capacity && State().Valid() && contents == Resident(State())
    }

    function State(): (q: Queue)
      reads this, frames
      ensures |q.frames| == frames.Length
    {
      Queue(frames[..], head, tail)
    }

    /** `createAudioQueue`: every slot zeroed, nothing queued. */
    constructor (capacity: int)
      requires capacity >= 1
      ensures Valid() && fresh(frames) && this.capacity == capacity
      ensures State() == Queue(seq(capacity, _ => Blank), 0, 0)
      ensures contents == []
    {
      this.capacity := capacity;
      frames := new AudioFrame[capacity](_ => Blank);
      head, tail := 0, 0;
      contents := [];
    }

    /**
     * `enqueueAudioFrame` on a queue with room: slot `tail` gets a copy of the first
     * `frameCount` samples of `data`, and the frame joins the back of the FIFO.
     */
    method Enqueue(data: seq<real>, frameCount: nat)
      requires Valid() && !Full(State()) && frameCount <= |data|
      modifies this, frames
      ensures Valid()
      ensures State() == Enqueued(old(State()), AudioFrame(data[..frameCount], frameCount))
      ensures contents == old(contents) + [AudioFrame(data[..frameCount], frameCount)]
    {
      ghost var before := State();
      ModWrap(tail + 1, capacity);
      var next := (tail + 1) % capacity;
      var frame := AudioFrame(data[..frameCount], frameCount);
      frames[tail] := frame;
      tail := next;
      assert State() == Enqueued(before, frame) by {
        assert frames[..] == before.frames[before.tail := frame];
      }
      EnqueueAppends(before, frame);
      contents := contents + [frame];
    }

    /** `dequeueAudioFrame` on a non-empty queue: hands out the front frame of the FIFO. */
    method Dequeue() returns (frame: AudioFrame)
      requires Valid() && head != tail
      modifies this
      ensures Valid()
      ensures State() == Dequeued(old(State()))
      ensures frame == old(contents)[0] && contents == old(contents)[1..]
    {
      ghost var before := State();
      frame := frames[head];
      ModWrap(head + 1, capacity);
      head := (head + 1) % capacity;
      DequeueRemovesFront(before);
      contents := contents[1..];
    }

    /**
     * `clearAudioQueue`: walks `current` from `head` to `tail` blanking each queued
     * slot, then resets both indices; the FIFO is empty afterwards.
     */
    method Clear()
      requires Valid()
      modifies this, frames
      ensures Valid()
      ensures State() == Cleared(old(State())) && contents == []
    {
      ghost var before := State();
      ghost var steps := 0;
      var current := head;
      while current != tail
        invariant head == before.head && tail == before.tail && |before.frames| == capacity
        invariant 0 <= steps <= Count(before) && current == Wrap(head + steps, capacity)
        invariant forall j :: 0 <= j < capacity ==>
          frames[j] == if Dist(head, j, capacity) < steps then Blank else before.frames[j]
        decreases Count(before) - steps
      {
        Reaches(before, steps);
        frames[current] := Blank;
        ModWrap(current + 1, capacity);
        current := (current + 1) % capacity;
        StepDist(before, steps);
        steps := steps + 1;
      }
      Reaches(before, steps);
      head, tail := 0, 0;
      contents := [];
      assert frames[..] == Cleared(before).frames;
    }
  }

  /** Walking from `head`, `tail` is first met after exactly `Count` steps. */
  lemma Reaches(q: Queue, steps: int)
    requires q.Valid() && 0 <= steps <= Count(q)
    ensures Wrap(q.head + steps, |q.frames|) == q.tail <==> steps == Count(q)
  {
    var n := |q.frames|;
    ModWrap(q.head + steps, n);
    ModWrap(q.head + Count(q), n);
    if steps < Count(q) {
      ModDistinct(q.head + steps, q.head + Count(q), n);
    }
  }

  /** The slots fewer than `steps + 1` steps from `head` are those fewer than `steps`, plus one. */
  lemma StepDist(q: Queue, steps: int)
    requires q.Valid() && 0 <= steps < |q.frames|
    ensures forall j :: 0 <= j < |q.frames| ==>
      (Dist(q.head, j, |q.frames|) < steps + 1 <==>
        Dist(q.head, j, |q.frames|) < steps || j == Wrap(q.head + steps, |q.frames|))
  {
  }

  /** Frames come out in the order they went in: two enqueues then two dequeues on an empty queue. */
  method FifoOrder(q: AudioQueue, a: seq<real>, b: seq<real>) returns (first: AudioFrame, second: AudioFrame)
    requires q.Valid() && q.head == q.tail && q.capacity >= 3
    modifies q, q.frames
    ensures first == AudioFrame(a, |a|) && second == AudioFrame(b, |b|)
    ensures q.Valid() && q.contents == []
  {
    EmptyIffCount(q.State());
    q.Enqueue(a, |a|);
    q.Enqueue(b, |b|);
    assert a[..|a|] == a && b[..|b|] == b;
    first := q.Dequeue();
    second := q.Dequeue();
  }
}
