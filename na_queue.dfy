/**
 * Reference semantics of one endpoint channel, independent of any ring
 * buffer layout: a FIFO queue holding at most `cap` words, where a send to a
 * full queue is dropped and a receive from an empty queue yields 0.
 */
module NaQueue {
  import opened MachineWords

  /** Sending `w`: appended when there is room, dropped otherwise. */
  function QueueSend(q: seq<u32>, w: u32, cap: nat): seq<u32>
  {
    if |q| < cap then q + [w] else q
  }

  /** Receiving: the oldest word and the rest of the queue, or 0 and no change. */
  function QueueReceive(q: seq<u32>): (seq<u32>, u32)
  {
    if q == [] then (q, 0) else (q[1..], q[0])
  }
}
