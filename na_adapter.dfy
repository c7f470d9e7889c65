/**
 * The OpTiMSoC NoC adapter in loopback mode: 16 endpoints, each with an
 * inbound and an outbound ring buffer held in two global arrays, reached by
 * the guest through the memory-mapped read and write callbacks. A write to
 * an endpoint's data offset pushes the word into that endpoint's own inbound
 * buffer, where a later read finds it.
 */
module NaAdapter {
  import opened Wrappers
  import opened MachineWords
  import opened NaBuffer
  import opened NaDecode

  /** The data slots of a buffer in zero-initialised static storage. */
  function ZeroData(): (d: seq<u32>)
    ensures |d| == BUFSIZE
  {
    seq(BUFSIZE, _ => 0)
  }

  /** `buffer_init`: resets `head` and `tail` of one buffer of `buffers`; the data slots are kept. */
  method BufferInit(buffers: array<Buffer>, i: int)
    requires 0 <= i < buffers.Length && |buffers[i].data| == BUFSIZE
    modifies buffers
    ensures buffers[..] == old(buffers[..])[i := old(buffers[i]).(head := 0, tail := 0)]
    ensures NaBuffer.Valid(buffers[i]) && Empty(buffers[i])
  {
    buffers[i] := buffers[i].(head := 0, tail := 0);
  }

  class Adapter {
    /** `info.base`: where the register window sits in the guest address space. */
    var base: u64
    /** `in_buffers`: inbound buffer of each endpoint. */
    const inBuffers: array<Buffer>
    /** `out_buffers`: outbound buffer of each endpoint (only ever reset). */
    const outBuffers: array<Buffer>

    /** One buffer per endpoint in each direction, each with BUFSIZE data slots. */
    ghost predicate Shaped()
      reads this, inBuffers, outBuffers
    {
      inBuffers.Length == NUMEP && outBuffers.Length == NUMEP && inBuffers != outBuffers
      && (forall i :: 0 <= i < NUMEP ==> |inBuffers[i].data| == BUFSIZE)
      && (forall i :: 0 <= i < NUMEP ==> |outBuffers[i].data| == BUFSIZE)
    }

    /** Every buffer keeps its indices within its data slots. */
    ghost predicate Valid()
      reads this, inBuffers, outBuffers
    {
      Shaped()
      && (forall i :: 0 <= i < NUMEP ==> NaBuffer.Valid(inBuffers[i]))
      && (forall i :: 0 <= i < NUMEP ==> NaBuffer.Valid(outBuffers[i]))
    }

    /** No outbound buffer holds a word: nothing but initialisation touches them. */
    ghost predicate OutBuffersIdle()
      reads this, inBuffers, outBuffers
      requires Valid()
    {
      forall i :: 0 <= i < NUMEP ==> Empty(outBuffers[i])
    }

    /** The device's static storage before initialisation: every field zero, `info.numep` 16. */
    constructor ()
      ensures Valid() && OutBuffersIdle() && base == 0
      ensures fresh(inBuffers) && fresh(outBuffers)
      ensures forall i :: 0 <= i < NUMEP ==> Contents(inBuffers[i]) == []
    {
      base := 0;
      inBuffers := new Buffer[NUMEP](_ => Buffer(0, 0, ZeroData()));
      outBuffers := new Buffer[NUMEP](_ => Buffer(0, 0, ZeroData()));
    }

    /**
     * `optimsoc_na_mm_init`: records the base address and resets the in and
     * out buffer of every endpoint; the region registration is not modelled.
     */
    method MmInit(newBase: u64)
      requires Shaped()
      modifies this, inBuffers, outBuffers
      ensures Valid() && OutBuffersIdle() && base == newBase
      ensures forall i :: 0 <= i < NUMEP ==>
        inBuffers[i] == old(inBuffers[i]).(head := 0, tail := 0)
        && outBuffers[i] == old(outBuffers[i]).(head := 0, tail := 0)
      ensures forall i :: 0 <= i < NUMEP ==> Contents(inBuffers[i]) == []
    {
      base := newBase;
      for i := 0 to NUMEP
        invariant Shaped() && base == newBase
        invariant forall j :: 0 <= j < i ==>
          inBuffers[j] == old(inBuffers[j]).(head := 0, tail := 0)
          && outBuffers[j] == old(outBuffers[j]).(head := 0, tail := 0)
        invariant forall j :: i <= j < NUMEP ==> inBuffers[j] == old(inBuffers[j]) && outBuffers[j] == old(outBuffers[j])
      {
        BufferInit(inBuffers, i);
        BufferInit(outBuffers, i);
      }
    }

    /**
     * `buffer_read` with the endpoint index bounds-checked: pops the oldest
     * word of the addressed endpoint's inbound buffer, or yields 0 and changes
     * nothing when that buffer is empty or the offset names no endpoint.
     */
    method BufferRead(addr: u64) returns (word: u32)
      requires Valid()
      modifies inBuffers
      ensures Valid()
      ensures DecodeEndpoint(addr).None? ==> word == 0 && inBuffers[..] == old(inBuffers[..])
      ensures DecodeEndpoint(addr).Some? ==>
        var ep := DecodeEndpoint(addr).value;
        (inBuffers[ep], word) == Receive(old(inBuffers[ep]))
        && inBuffers[..] == old(inBuffers[..])[ep := inBuffers[ep]]
    {
      var dec := DecodeEndpoint(addr);
      if dec.None? {
        return 0;
      }
      var ep := dec.value;
      if Empty(inBuffers[ep]) {
        return 0;
      }
      var i := inBuffers[ep].head;
      word := inBuffers[ep].data[i];
      inBuffers[ep] := inBuffers[ep].(head := (inBuffers[ep].head + 1) % BUFSIZE);
    }

    /**
     * `buffer_write` with the endpoint index bounds-checked and the overflow
     * guard testing the inbound buffer it pushes onto: a word for a full
     * buffer, or for an offset that names no endpoint, is dropped.
     */
    method BufferWrite(addr: u64, word: u32)
      requires Valid()
      modifies inBuffers
      ensures Valid()
      ensures DecodeEndpoint(addr).None? ==> inBuffers[..] == old(inBuffers[..])
      ensures DecodeEndpoint(addr).Some? ==>
        var ep := DecodeEndpoint(addr).value;
        inBuffers[..] == old(inBuffers[..])[ep := Send(old(inBuffers[ep]), word)]
    {
      var dec := DecodeEndpoint(addr);
      if dec.None? {
        return;
      }
      var ep := dec.value;
      if Full(inBuffers[ep]) {
        return;
      }
      var i := inBuffers[ep].tail;
      inBuffers[ep] := inBuffers[ep].(data := inBuffers[ep].data[i := word]);
      inBuffers[ep] := inBuffers[ep].(tail := (inBuffers[ep].tail + 1) % BUFSIZE);
    }

    /**
     * `buffer_write` as written: the index is not bounds-checked (the caller
     * must keep it in range) and the guard tests the outbound buffer. While
     * the outbound buffers are idle the guard never fires and the push is
     * unconditional, even onto a full inbound buffer.
     */
    method BufferWriteAsWritten(addr: u64, word: u32)
      requires Valid()
      requires 0 <= EpIndex(addr) < NUMEP
      modifies inBuffers
      ensures Valid()
      ensures inBuffers[..] == old(inBuffers[..])[EpIndex(addr) :=
        SendGuardedBy(old(inBuffers[EpIndex(addr)]), outBuffers[EpIndex(addr)], word)]
      ensures OutBuffersIdle() ==> inBuffers[EpIndex(addr)] == Pushed(old(inBuffers[EpIndex(addr)]), word)
    {
      var ep := EpIndex(addr);
      if Full(outBuffers[ep]) {
        return;
      }
      var i := inBuffers[ep].tail;
      inBuffers[ep] := inBuffers[ep].(data := inBuffers[ep].data[i := word]);
      inBuffers[ep] := inBuffers[ep].(tail := (inBuffers[ep].tail + 1) % BUFSIZE);
    }

    /**
     * `optimsoc_na_mm_read`: offset 0 reads the endpoint count and touches no
     * buffer; any other offset is a `buffer_read`. An access size other than
     * 4 is only logged, so `size` does not affect the outcome.
     */
    method MmRead(addr: u64, size: u32) returns (r: u64)
      requires Valid()
      modifies inBuffers
      ensures Valid()
      ensures addr == REG_NUMEP ==> r as int == NUMEP && inBuffers[..] == old(inBuffers[..])
      ensures addr != REG_NUMEP && DecodeEndpoint(addr).None? ==> r == 0 && inBuffers[..] == old(inBuffers[..])
      ensures addr != REG_NUMEP && DecodeEndpoint(addr).Some? ==>
        var ep := DecodeEndpoint(addr).value;
        inBuffers[ep] == Receive(old(inBuffers[ep])).0 && r == Receive(old(inBuffers[ep])).1 as u64
        && inBuffers[..] == old(inBuffers[..])[ep := inBuffers[ep]]
    {
      if addr == REG_NUMEP {
        return NUMEP as u64;
      }
      var word := BufferRead(addr);
      r := word as u64;
    }

    /**
     * `optimsoc_na_mm_write`: the bus value is truncated to a 32-bit word
     * and handed to `buffer_write`; every offset, 0 included, is decoded as
     * an endpoint data register. An access size other than 4 is only logged.
     */
    method MmWrite(addr: u64, value: u64, size: u32)
      requires Valid()
      modifies inBuffers
      ensures Valid()
      ensures DecodeEndpoint(addr).None? ==> inBuffers[..] == old(inBuffers[..])
      ensures DecodeEndpoint(addr).Some? ==>
        var ep := DecodeEndpoint(addr).value;
        inBuffers[..] == old(inBuffers[..])[ep := Send(old(inBuffers[ep]), Truncate32(value))]
    {
      BufferWrite(addr, Truncate32(value));
    }
  }
}
