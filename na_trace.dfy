/**
 * Sequences of guest accesses to one endpoint's data register, replayed on
 * its inbound buffer. A write pushes into the buffer (loopback) and a read
 * drains it. Relates the buffer to the reference queue and shows what the
 * overflow guard as written does to a 4096th outstanding word.
 */
module NaTrace {
  import opened MachineWords
  import opened NaQueue
  import opened NaBuffer

  datatype Access = Write(word: u32) | Read

  /** The words written by a trace, in order. */
  function Written(acc: seq<Access>): seq<u32>
  {
    if acc == [] then []
    else (if acc[0].Write? then [acc[0].word] else []) + Written(acc[1..])
  }

  /** A trace of writes only. */
  function WritesOf(ws: seq<u32>): (acc: seq<Access>)
    ensures |acc| == |ws|
    ensures forall k :: 0 <= k < |ws| ==> acc[k] == Write(ws[k])
  {
    if ws == [] then [] else [Write(ws[0])] + WritesOf(ws[1..])
  }

  /** Replays a trace on a buffer with the corrected guard; returns the final buffer and the words read. */
  function Run(b: Buffer, acc: seq<Access>): (r: (Buffer, seq<u32>))
    requires Valid(b)
    ensures Valid(r.0)
    decreases |acc|
  {
    if acc == [] then (b, [])
    else match acc[0]
      case Write(w) => Run(Send(b, w), acc[1..])
      case Read =>
        var (b1, w) := Receive(b);
        var (b2, out) := Run(b1, acc[1..]);
        (b2, [w] + out)
  }

  /** Replays a trace as the code is written: writes are guarded by the idle `out` buffer. */
  function RunAsWritten(b: Buffer, out: Buffer, acc: seq<Access>): (r: (Buffer, seq<u32>))
    requires Valid(b) && Valid(out)
    ensures Valid(r.0)
    decreases |acc|
  {
    if acc == [] then (b, [])
    else match acc[0]
      case Write(w) => RunAsWritten(SendGuardedBy(b, out, w), out, acc[1..])
      case Read =>
        var (b1, w) := Receive(b);
        var (b2, words) := RunAsWritten(b1, out, acc[1..]);
        (b2, [w] + words)
  }

  /** Replays a trace on the reference queue. */
  function RunQueue(q: seq<u32>, acc: seq<Access>, cap: nat): (seq<u32>, seq<u32>)
    decreases |acc|
  {
    if acc == [] then (q, [])
    else match acc[0]
      case Write(w) => RunQueue(QueueSend(q, w, cap), acc[1..], cap)
      case Read =>
        var (q1, w) := QueueReceive(q);
        var (q2, out) := RunQueue(q1, acc[1..], cap);
        (q2, [w] + out)
  }

  /** No write meets a full queue and no read meets an empty one. */
  ghost predicate Lossless(q: seq<u32>, acc: seq<Access>, cap: nat)
    decreases |acc|
  {
    acc == [] ||
    match acc[0]
      case Write(w) => |q| < cap && Lossless(q + [w], acc[1..], cap)
      case Read => q != [] && Lossless(q[1..], acc[1..], cap)
  }

  /** The buffer, driven by any trace, behaves exactly as the reference queue of capacity 4095. */
  lemma {:induction false} RunRefinesQueue(b: Buffer, acc: seq<Access>)
    requires Valid(b)
    ensures Contents(Run(b, acc).0) == RunQueue(Contents(b), acc, CAPACITY).0
    ensures Run(b, acc).1 == RunQueue(Contents(b), acc, CAPACITY).1
    decreases |acc|
  {
    if acc != [] {
      match acc[0]
      case Write(w) =>
        RunRefinesQueue(Send(b, w), acc[1..]);
      case Read =>
        RunRefinesQueue(Receive(b).0, acc[1..]);
    }
  }

  /** FIFO order: without loss, the words read followed by those left are the words held and written, in order. */
  lemma {:induction false} QueueFifo(q: seq<u32>, acc: seq<Access>, cap: nat)
    requires Lossless(q, acc, cap)
    ensures RunQueue(q, acc, cap).1 + RunQueue(q, acc, cap).0 == q + Written(acc)
    decreases |acc|
  {
    if acc != [] {
      match acc[0]
      case Write(w) =>
        QueueFifo(q + [w], acc[1..], cap);
      case Read =>
        QueueFifo(q[1..], acc[1..], cap);
        var (q2, out) := RunQueue(q[1..], acc[1..], cap);
        assert RunQueue(q, acc, cap) == (q2, [q[0]] + out);
        assert Written(acc) == Written(acc[1..]);
        calc {
          ([q[0]] + out) + q2;
          [q[0]] + (out + q2);
          [q[0]] + (q[1..] + Written(acc[1..]));
          ([q[0]] + q[1..]) + Written(acc[1..]);
          { assert [q[0]] + q[1..] == q; }
          q + Written(acc);
        }
    }
  }

  /**
   * Interleaved writes and reads on one endpoint return the words in FIFO
   * order while no more than 4095 are outstanding and no read finds it empty.
   */
  lemma BufferFifo(b: Buffer, acc: seq<Access>)
    requires Valid(b) && Lossless(Contents(b), acc, CAPACITY)
    ensures Run(b, acc).1 + Contents(Run(b, acc).0) == Contents(b) + Written(acc)
  {
    RunRefinesQueue(b, acc);
    QueueFifo(Contents(b), acc, CAPACITY);
  }

  /**
   * On a lossless trace the as-written replay and the corrected one coincide:
   * with the outbound buffer idle the guard as written never fires, and no
   * write meets a full inbound buffer.
   */
  lemma {:induction false} AsWrittenAgreesWhenLossless(b: Buffer, out: Buffer, acc: seq<Access>)
    requires Valid(b) && Valid(out) && Empty(out) && Lossless(Contents(b), acc, CAPACITY)
    ensures RunAsWritten(b, out, acc) == Run(b, acc)
    decreases |acc|
  {
    if acc != [] {
      match acc[0]
      case Write(w) =>
        PushAppends(b, w);
        AsWrittenAgreesWhenLossless(Send(b, w), out, acc[1..]);
      case Read =>
        AsWrittenAgreesWhenLossless(Receive(b).0, out, acc[1..]);
    }
  }

  /**
   * FIFO order for the code as written: interleaved writes and reads on one
   * endpoint return the words in the order written while no more than 4095
   * are outstanding and no read finds the buffer empty.
   */
  lemma BufferFifoAsWritten(b: Buffer, out: Buffer, acc: seq<Access>)
    requires Valid(b) && Valid(out) && Empty(out) && Lossless(Contents(b), acc, CAPACITY)
    ensures RunAsWritten(b, out, acc).1 + Contents(RunAsWritten(b, out, acc).0) == Contents(b) + Written(acc)
  {
    AsWrittenAgreesWhenLossless(b, out, acc);
    BufferFifo(b, acc);
  }

  /** With the corrected guard, words past the 4095th outstanding one are dropped and the rest kept. */
  lemma {:induction false} GuardedWritesKeepPrefix(b: Buffer, ws: seq<u32>)
    requires Valid(b) && |Contents(b)| + |ws| >= CAPACITY
    ensures Contents(Run(b, WritesOf(ws)).0) == (Contents(b) + ws)[..CAPACITY]
    ensures Run(b, WritesOf(ws)).1 == []
    decreases |ws|
  {
    var acc := WritesOf(ws);
    if ws == [] {
      PrefixOfAppend(Contents(b), ws);
    } else {
      assert acc[0] == Write(ws[0]) && acc[1..] == WritesOf(ws[1..]);
      var b1 := Send(b, ws[0]);
      assert Run(b, acc) == Run(b1, acc[1..]);
      GuardedWritesKeepPrefix(b1, ws[1..]);
      if |Contents(b)| < CAPACITY {
        AppendFirst(Contents(b), ws);
      } else {
        PrefixOfAppend(Contents(b), ws[1..]);
        PrefixOfAppend(Contents(b), ws);
      }
    }
  }

  /** Appending to `q` does not change its first |q| words. */
  lemma PrefixOfAppend(q: seq<u32>, ws: seq<u32>)
    ensures (q + ws)[..|q|] == q
  {
  }

  /** Moving the first word of `ws` onto the end of `q` leaves the concatenation unchanged. */
  lemma AppendFirst(q: seq<u32>, ws: seq<u32>)
    requires ws != []
    ensures (q + [ws[0]]) + ws[1..] == q + ws
  {
  }

  /** As written, with the guard never firing, writes keep appending until the buffer is full. */
  lemma {:induction false} UnguardedWritesAppend(b: Buffer, out: Buffer, ws: seq<u32>)
    requires Valid(b) && Valid(out) && Empty(out)
    requires |Contents(b)| + |ws| <= CAPACITY
    ensures Contents(RunAsWritten(b, out, WritesOf(ws)).0) == Contents(b) + ws
    ensures RunAsWritten(b, out, WritesOf(ws)).1 == []
    decreases |ws|
  {
    var acc := WritesOf(ws);
    if ws == [] {
      assert Contents(b) + ws == Contents(b);
    } else {
      assert acc[0] == Write(ws[0]) && acc[1..] == WritesOf(ws[1..]);
      var b1 := SendGuardedBy(b, out, ws[0]);
      assert !Full(out);
      assert b1 == Pushed(b, ws[0]);
      assert RunAsWritten(b, out, acc) == RunAsWritten(b1, out, acc[1..]);
      assert !Full(b);
      PushAppends(b, ws[0]);
      UnguardedWritesAppend(b1, out, ws[1..]);
      AppendFirst(Contents(b), ws);
    }
  }

  /**
   * The overflow guard as written tests the `out` buffer, which stays empty,
   * so it never fires: the write that would be the 4096th outstanding word
   * wraps `tail` onto `head` and the buffer then reads as empty.
   */
  lemma {:induction false} AsWrittenOverflowEmpties(b: Buffer, out: Buffer, ws: seq<u32>)
    requires Valid(b) && Valid(out) && Empty(out)
    requires |Contents(b)| + |ws| == BUFSIZE
    ensures Contents(RunAsWritten(b, out, WritesOf(ws)).0) == []
    decreases |ws|
  {
    var acc := WritesOf(ws);
    assert ws != [];
    assert acc[0] == Write(ws[0]) && acc[1..] == WritesOf(ws[1..]);
    var b1 := SendGuardedBy(b, out, ws[0]);
    if |Contents(b)| == CAPACITY {
      PushOnFullEmpties(b, ws[0]);
      assert ws[1..] == [];
    } else {
      PushAppends(b, ws[0]);
      AsWrittenOverflowEmpties(b1, out, ws[1..]);
    }
  }

  /**
   * Concretely: 4096 writes to an empty endpoint followed by one read. As
   * written the read returns 0 and all words are lost; with the corrected
   * guard it returns the first word and 4095 words are kept.
   */
  lemma OverflowCounterexample(b: Buffer, out: Buffer, ws: seq<u32>)
    requires Valid(b) && Empty(b) && Valid(out) && Empty(out)
    requires |ws| == BUFSIZE && ws[0] != 0
    ensures Receive(RunAsWritten(b, out, WritesOf(ws)).0).1 == 0
    ensures Receive(Run(b, WritesOf(ws)).0).1 == ws[0]
    ensures Contents(Run(b, WritesOf(ws)).0) == ws[..CAPACITY]
  {
    AsWrittenOverflowEmpties(b, out, ws);
    GuardedWritesKeepPrefix(b, ws);
    assert Contents(b) + ws == ws;
  }
}
