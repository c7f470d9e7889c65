/**
 * Address decoding of the adapter's register window: offset 0 is the
 * endpoint-count register, and endpoint `ep` owns the REGSIZE bytes starting
 * at NUMEP + ep * REGSIZE (the code subtracts the endpoint count, not
 * REGSIZE, from the offset before dividing by the stride).
 */
module NaDecode {
  import opened Wrappers
  import opened MachineWords

  /** OPTIMSOC_NA_NUMEP, also the initial value of `info.numep`. */
  const NUMEP: int := 16
  /** OPTIMSOC_NA_REGSIZE: the byte stride between two endpoints. */
  const REGSIZE: int := 0x2000
  /** Size of the region registered by `optimsoc_na_mm_init`. */
  const WINDOW_SIZE: int := NUMEP * (REGSIZE + 1)
  /** OPTIMSOC_NA_REG_NUMEP. */
  const REG_NUMEP: u64 := 0

  /**
   * The endpoint index as the code computes it: `(addr - info.numep) /
   * OPTIMSOC_NA_REGSIZE` in unsigned 64-bit arithmetic, stored into an `int`.
   */
  function EpIndex(addr: u64): (ep: int)
    ensures INT32_MIN <= ep <= INT32_MAX
    ensures NUMEP <= addr as int ==> (ep - (addr as int - NUMEP) / REGSIZE) % TWO32 == 0
    ensures addr as int < NUMEP ==> (ep - (TWO64 + addr as int - NUMEP) / REGSIZE) % TWO32 == 0
  {
    ToInt32(Sub64(addr, NUMEP as u64) / REGSIZE as u64)
  }

  /** Every offset of the registered window from NUMEP on decodes to an endpoint in range. */
  lemma EpIndexInWindow(addr: u64)
    requires NUMEP <= addr as int < WINDOW_SIZE
    ensures 0 <= EpIndex(addr) < NUMEP
    ensures NUMEP + EpIndex(addr) * REGSIZE <= addr as int < NUMEP + (EpIndex(addr) + 1) * REGSIZE
  {
  }

  /**
   * Offsets below NUMEP make the unsigned subtraction wrap to nearly 2^64;
   * divided by the stride that is 2^51 - 1, which becomes -1 as an `int`:
   * an index before the start of the buffer arrays.
   */
  lemma EpIndexUnderflow(addr: u64)
    requires addr as int < NUMEP
    ensures EpIndex(addr) == -1
  {
  }

  /**
   * Bounds-checked endpoint decoding: the index of the endpoint whose stride
   * contains `addr`, or None when that index would be out of range. Inside
   * the window it agrees with `EpIndex`.
   */
  function DecodeEndpoint(addr: u64): (r: Option<nat>)
    ensures r.Some? <==> NUMEP <= addr as int < WINDOW_SIZE
    ensures r.Some? ==> r.value < NUMEP && r.value == EpIndex(addr)
    ensures r.Some? ==> NUMEP + r.value * REGSIZE <= addr as int < NUMEP + (r.value + 1) * REGSIZE
  {
    if addr as int < NUMEP then None
    else
      var ep := (addr as int - NUMEP) / REGSIZE;
      if ep < NUMEP then Some(ep) else None
  }
}
