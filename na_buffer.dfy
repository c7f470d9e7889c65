/**
 * The device's circular word buffer, `struct buffer`: a `head` index (next
 * word to read), a `tail` index (next free slot) and BUFSIZE data slots.
 * Both indices advance modulo BUFSIZE; `head == tail` means empty, so one
 * slot always stays unused and at most CAPACITY words are outstanding.
 */
module NaBuffer {
  import opened MachineWords
  import opened NaQueue

  const BUFSIZE: int := 4096
  /** Most words a buffer can hold at once. */
  const CAPACITY: int := BUFSIZE - 1

  /** One `struct buffer`: C structs are values, so this is a datatype. */
  datatype Buffer = Buffer(head: int, tail: int, data: seq<u32>)

  /** The slots array has BUFSIZE words and both indices point into it. */
  ghost predicate Valid(b: Buffer)
  {
    |b.data| == BUFSIZE && 0 <= b.head < BUFSIZE && 0 <= b.tail < BUFSIZE
  }

  /** The outstanding words, oldest first: from `head` up to `tail`, wrapping around. */
  ghost function Contents(b: Buffer): (q: seq<u32>)
    requires Valid(b)
    ensures |q| == (b.tail - b.head) % BUFSIZE
    ensures |q| <= CAPACITY
  {
    if b.head <= b.tail then b.data[b.head..b.tail]
    else b.data[b.head..] + b.data[..b.tail]
  }

  /** The k-th outstanding word sits k slots after `head`, wrapping around. */
  lemma ContentsAt(b: Buffer)
    requires Valid(b)
    ensures forall k :: 0 <= k < |Contents(b)| ==> Contents(b)[k] == b.data[(b.head + k) % BUFSIZE]
  {
  }

  /** `buffer_empty`. */
  function Empty(b: Buffer): (r: bool)
    requires Valid(b)
    ensures r <==> Contents(b) == []
  {
    b.head == b.tail
  }

  /** `buffer_full`. */
  function Full(b: Buffer): (r: bool)
    requires Valid(b)
    ensures r <==> |Contents(b)| == CAPACITY
  {
    (b.tail + 1) % BUFSIZE == b.head
  }

  /** The push steps of `buffer_write`, without any guard: store at `tail`, advance `tail`. */
  function Pushed(b: Buffer, w: u32): (r: Buffer)
    requires Valid(b)
    ensures Valid(r) && r.head == b.head
  {
    b.(data := b.data[b.tail := w], tail := (b.tail + 1) % BUFSIZE)
  }

  /** The pop step of `buffer_read`: advance `head`. */
  function Popped(b: Buffer): (r: Buffer)
    requires Valid(b)
    ensures Valid(r) && r.tail == b.tail && r.data == b.data
  {
    b.(head := (b.head + 1) % BUFSIZE)
  }

  /** Pushing onto a buffer that is not full appends the word to its contents. */
  lemma PushAppends(b: Buffer, w: u32)
    requires Valid(b) && !Full(b)
    ensures Contents(Pushed(b, w)) == Contents(b) + [w]
  {
  }

  /**
   * Pushing onto a full buffer without a guard wraps `tail` onto `head`: the
   * buffer then reads as empty and every outstanding word is lost.
   */
  lemma PushOnFullEmpties(b: Buffer, w: u32)
    requires Valid(b) && Full(b)
    ensures |Contents(b)| == CAPACITY
    ensures Empty(Pushed(b, w)) && Contents(Pushed(b, w)) == []
  {
  }

  /** Popping a non-empty buffer yields the oldest word and removes it. */
  lemma PopTakesFront(b: Buffer)
    requires Valid(b) && !Empty(b)
    ensures Contents(b) != [] && b.data[b.head] == Contents(b)[0]
    ensures Contents(Popped(b)) == Contents(b)[1..]
  {
    var q, r := Contents(b), Contents(Popped(b));
    ContentsAt(b);
    ContentsAt(Popped(b));
    assert q[0] == b.data[b.head];
    assert |r| == |q| - 1;
    forall k | 0 <= k < |r|
      ensures r[k] == q[k + 1]
    {
      assert ((b.head + 1) % BUFSIZE + k) % BUFSIZE == (b.head + (k + 1)) % BUFSIZE;
    }
  }

  /**
   * `buffer_write` with the overflow guard testing the buffer that is pushed
   * onto: a word sent to a full buffer is dropped and nothing changes.
   */
  function Send(b: Buffer, w: u32): (r: Buffer)
    requires Valid(b)
    ensures Valid(r) && r.head == b.head
    ensures Contents(r) == QueueSend(Contents(b), w, CAPACITY)
    ensures Full(b) ==> r == b
  {
    if Full(b) then b else PushAppends(b, w); Pushed(b, w)
  }

  /**
   * `buffer_write` as written: the overflow guard tests `guard`, a buffer
   * other than the one pushed onto.
   */
  function SendGuardedBy(b: Buffer, guard: Buffer, w: u32): (r: Buffer)
    requires Valid(b) && Valid(guard)
    ensures Valid(r)
    ensures Full(guard) ==> r == b
    ensures !Full(guard) && !Full(b) ==> Contents(r) == Contents(b) + [w]
    ensures !Full(guard) && Full(b) ==> Contents(r) == []
  {
    if Full(guard) then b
    else if Full(b) then PushOnFullEmpties(b, w); Pushed(b, w)
    else PushAppends(b, w); Pushed(b, w)
  }

  /**
   * `buffer_read`'s buffer part: the oldest word and the popped buffer, or 0
   * and no change at all when the buffer is empty.
   */
  function Receive(b: Buffer): (r: (Buffer, u32))
    requires Valid(b)
    ensures Valid(r.0) && r.0.tail == b.tail && r.0.data == b.data
    ensures (Contents(r.0), r.1) == QueueReceive(Contents(b))
    ensures Empty(b) ==> r == (b, 0)
  {
    if Empty(b) then (b, 0)
    else PopTakesFront(b); (Popped(b), b.data[b.head])
  }
}
