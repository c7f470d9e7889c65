# OpTiMSoC NoC adapter (loopback mode), modelled in Dafny

This project models the QEMU emulation of the OpTiMSoC network-on-chip
adapter in loopback mode (`contrib/qemu-2.9.0/hw/char/optimsoc-na.c`). The
device has 16 endpoints. Each endpoint has an inbound and an outbound
circular buffer of 4096 32-bit words (`struct buffer`: `head`, `tail`,
`data[4096]`). The buffers live in two global arrays, `in_buffers` and
`out_buffers`. The guest reaches the device through two memory-mapped
callbacks:

- a read at offset 0 returns the endpoint count (16);
- a read at any other offset is decoded to an endpoint index and pops a
  word from that endpoint's inbound buffer, or returns 0 when it is empty;
- a write at any offset is decoded the same way and pushes the word onto
  that endpoint's inbound buffer (hence "loopback").

The endpoint index is `(addr - numep) / 0x2000`, computed on 64-bit unsigned
`hwaddr` values and stored into a 32-bit `int`. So endpoint `ep` owns the
0x2000 bytes starting at `16 + ep * 0x2000`. The registered window is
`16 * (0x2000 + 1)` = 131088 bytes, which ends exactly where endpoint 16
would begin.

Files (one module each):

- `machine_words.dfy` (`MachineWords`): `uint32_t` and `hwaddr` as newtypes,
  plus the C conversions the code relies on (wrapping subtraction,
  truncation to 32 bits, conversion to `int`).
- `na_queue.dfy` (`NaQueue`): the reference semantics of one channel. It is
  a FIFO of bounded capacity that drops on full and yields 0 on empty.
- `na_buffer.dfy` (`NaBuffer`): `struct buffer` as a datatype, with:
  - its invariant, its abstract contents (oldest word first),
    `buffer_empty` and `buffer_full`;
  - the push and pop steps, and the guarded send and receive proved
    against the reference queue.
- `na_trace.dfy` (`NaTrace`): sequences of guest writes and reads on one
  endpoint. It proves FIFO order and exhibits the overflow defect.
- `na_decode.dfy` (`NaDecode`): offset decoding.
  - It states the index formula exactly as the code computes it,
    including the 64-bit underflow.
  - It also gives the bounds-checked decoder used by the device model.
- `na_adapter.dfy` (`NaAdapter`): the device itself.
  - A class `Adapter` holds the two global buffer arrays as `array<Buffer>`
    and updates them in place.
  - Its methods model `buffer_init`, `buffer_read`, `buffer_write`,
    `optimsoc_na_mm_read`, `optimsoc_na_mm_write` and `optimsoc_na_mm_init`.

Some names in the source promise more than the code does. The model
follows the code:

- `OPTIMSOC_NA_EP_BASE` is one register stride and `OPTIMSOC_NA_REG_ENABLE`
  names an enable register (lines 54-79). Neither macro is used: the code
  decodes from the endpoint count (16), and no enable flag exists.
- The `irq` field is stored (lines 106 and 253) but never raised.

The device methods `BufferRead`, `BufferWrite`, `MmRead` and `MmWrite`
depart from the code in two places, both recorded under Findings and
"Left out":

- They use the bounds-checked decoder.
- `BufferWrite` and `MmWrite` guard against overflow on the inbound buffer
  they push onto. The code tests the outbound buffer (line 186).
  `BufferWriteAsWritten` models the write with the code's own guard.

## Model

| member | source | states |
|---|---|---|
| MachineWords.Truncate32 | contrib/qemu-2.9.0/hw/char/optimsoc-na.c:222-230 | the 64-bit bus value passed as a `uint32_t` word keeps its low 32 bits and is unchanged when it fits |
| MachineWords.Sub64 | contrib/qemu-2.9.0/hw/char/optimsoc-na.c:160 | `hwaddr` subtraction is exact when no borrow occurs and wraps by 2^64 when the subtrahend is larger |
| MachineWords.ToInt32 | contrib/qemu-2.9.0/hw/char/optimsoc-na.c:157-160 | storing the unsigned quotient into `int ep` gives a value in the 32-bit range congruent to it modulo 2^32, and small values are kept |
| NaBuffer.Contents | contrib/qemu-2.9.0/hw/char/optimsoc-na.c:87-92 | a valid buffer holds `(tail - head) mod 4096` words, never more than 4095 |
| NaBuffer.ContentsAt | contrib/qemu-2.9.0/hw/char/optimsoc-na.c:87-92 | the k-th outstanding word is stored at slot `(head + k) mod 4096` |
| NaBuffer.Empty | contrib/qemu-2.9.0/hw/char/optimsoc-na.c:134-137 | `head == tail` holds exactly when the buffer holds no word |
| NaBuffer.Full | contrib/qemu-2.9.0/hw/char/optimsoc-na.c:144-147 | `(tail + 1) % 4096 == head` holds exactly when 4095 words are outstanding (one slot is sacrificed) |
| NaBuffer.Pushed | contrib/qemu-2.9.0/hw/char/optimsoc-na.c:192-194 | storing at `tail` and advancing it modulo 4096 keeps both indices in `[0, 4096)` and leaves `head` alone |
| NaBuffer.Popped | contrib/qemu-2.9.0/hw/char/optimsoc-na.c:168 | advancing `head` modulo 4096 keeps it in range and leaves `tail` and the data slots unchanged |
| NaBuffer.PushAppends | contrib/qemu-2.9.0/hw/char/optimsoc-na.c:192-194 | pushing onto a buffer that is not full appends the word to its contents |
| NaBuffer.PushOnFullEmpties | contrib/qemu-2.9.0/hw/char/optimsoc-na.c:192-194 | pushing onto a full buffer makes `tail == head`, so all 4095 outstanding words read as gone |
| NaBuffer.PopTakesFront | contrib/qemu-2.9.0/hw/char/optimsoc-na.c:166-170 | on a non-empty buffer `data[head]` is the oldest word, and advancing `head` removes exactly that word |
| NaBuffer.Send | contrib/qemu-2.9.0/hw/char/optimsoc-na.c:185-194 | with the guard on the buffer pushed onto, the contents follow the reference queue: the word is appended, or dropped with no state change when full |
| NaBuffer.SendGuardedBy | contrib/qemu-2.9.0/hw/char/optimsoc-na.c:185-194 | the write as coded, guarded by another buffer. When that buffer is full nothing changes. Otherwise the word is appended if the target is not full, and a full target is left reading as empty with every word lost |
| NaBuffer.Receive | contrib/qemu-2.9.0/hw/char/optimsoc-na.c:162-170 | the oldest word is returned and removed as by the reference queue, and an empty buffer yields 0 with nothing changed; `tail` and data are never touched |
| NaTrace.Run | contrib/qemu-2.9.0/hw/char/optimsoc-na.c:154-195 | any sequence of corrected writes and reads keeps the buffer's indices in range |
| NaTrace.RunAsWritten | contrib/qemu-2.9.0/hw/char/optimsoc-na.c:178-195 | any sequence of as-written writes and reads keeps the buffer's indices in range |
| NaTrace.RunRefinesQueue | contrib/qemu-2.9.0/hw/char/optimsoc-na.c:154-195 | for every access sequence the buffer returns the same words and ends with the same contents as the reference queue of capacity 4095 |
| NaTrace.QueueFifo | contrib/qemu-2.9.0/hw/char/optimsoc-na.c:166-194 | on the reference queue, when no write meets a full queue and no read an empty one, the words read then left are the words held then written, in order |
| NaTrace.BufferFifo | contrib/qemu-2.9.0/hw/char/optimsoc-na.c:166-194 | interleaved writes and reads on one endpoint return words in FIFO order while at most 4095 are outstanding and no read finds the buffer empty |
| NaTrace.AsWrittenAgreesWhenLossless | contrib/qemu-2.9.0/hw/char/optimsoc-na.c:178-195 | with the outbound buffer idle, the as-written replay of any trace equals the corrected one, provided no write meets a full buffer and no read an empty one |
| NaTrace.BufferFifoAsWritten | contrib/qemu-2.9.0/hw/char/optimsoc-na.c:166-194 | the code as written, with the outbound buffer idle, returns interleaved writes and reads in FIFO order while at most 4095 words are outstanding and no read finds the buffer empty |
| NaTrace.GuardedWritesKeepPrefix | contrib/qemu-2.9.0/hw/char/optimsoc-na.c:185-194 | with the corrected guard, a burst of writes keeps the first 4095 outstanding words and drops the rest |
| NaTrace.UnguardedWritesAppend | contrib/qemu-2.9.0/hw/char/optimsoc-na.c:185-194 | as written, while the outbound buffer is idle, writes append as long as at most 4095 words are outstanding |
| NaTrace.AsWrittenOverflowEmpties | contrib/qemu-2.9.0/hw/char/optimsoc-na.c:186 | as written, the write that would be the 4096th outstanding word leaves the inbound buffer reading as empty |
| NaTrace.OverflowCounterexample | contrib/qemu-2.9.0/hw/char/optimsoc-na.c:185-194 | after 4096 writes to an empty endpoint the next read returns 0 as written, but returns the first word with the corrected guard |
| NaDecode.EpIndex | contrib/qemu-2.9.0/hw/char/optimsoc-na.c:160 | the stored index is a 32-bit `int` congruent modulo 2^32 to `(addr - 16) / 0x2000`. Below offset 16 the difference is taken modulo 2^64 |
| NaDecode.EpIndexInWindow | contrib/qemu-2.9.0/hw/char/optimsoc-na.c:160 | every offset in `[16, 16 * (0x2000 + 1))` decodes to an endpoint in `[0, 16)` whose stride contains the offset |
| NaDecode.EpIndexUnderflow | contrib/qemu-2.9.0/hw/char/optimsoc-na.c:183 | for offsets 0 to 15 the unsigned subtraction underflows and the stored index is -1 |
| NaDecode.DecodeEndpoint | contrib/qemu-2.9.0/hw/char/optimsoc-na.c:160 | the bounds-checked decoder finds an endpoint exactly for offsets inside the registered window from 16 on; there it equals the code's index, is below 16 and names the stride containing the offset |
| NaAdapter.BufferInit | contrib/qemu-2.9.0/hw/char/optimsoc-na.c:123-127 | `head` and `tail` become 0, so the buffer is valid and empty; its data slots and every other buffer are unchanged |
| NaAdapter.Adapter.constructor | contrib/qemu-2.9.0/hw/char/optimsoc-na.c:97-112 | the zero-initialised static storage: every buffer valid and empty |
| NaAdapter.Adapter.MmInit | contrib/qemu-2.9.0/hw/char/optimsoc-na.c:245-261 | records the base address and resets the in and out buffer of all 16 endpoints, keeping their data |
| NaAdapter.Adapter.BufferRead | contrib/qemu-2.9.0/hw/char/optimsoc-na.c:154-171 | pops the addressed endpoint's inbound buffer as `Receive` does (0 and no change when empty); no other endpoint and no outbound buffer changes |
| NaAdapter.Adapter.BufferWrite | contrib/qemu-2.9.0/hw/char/optimsoc-na.c:178-195 | with the corrected guard (on the inbound buffer, not line 186's outbound one), pushes onto the addressed endpoint's inbound buffer as `Send` does, dropping the word when that buffer is full; nothing else changes |
| NaAdapter.Adapter.BufferWriteAsWritten | contrib/qemu-2.9.0/hw/char/optimsoc-na.c:178-195 | the write as coded: guarded by the outbound buffer, so while outbound buffers are idle the push is unconditional |
| NaAdapter.Adapter.MmRead | contrib/qemu-2.9.0/hw/char/optimsoc-na.c:204-217 | offset 0 returns 16 and mutates nothing; other offsets behave as `BufferRead`; the access size has no effect |
| NaAdapter.Adapter.MmWrite | contrib/qemu-2.9.0/hw/char/optimsoc-na.c:222-231 | the value truncated to 32 bits is written as by `BufferWrite` (corrected guard) at every offset, 0 included; the access size has no effect |

## Findings

| source | as written | input that shows it | evidently intended | confidence | as-written member | corrected member |
|---|---|---|---|---|---|---|
| contrib/qemu-2.9.0/hw/char/optimsoc-na.c:186 | the overflow guard tests `out_buffers[ep]`, which is never advanced after initialisation, while the word is pushed into `in_buffers[ep]` | 4096 writes to one endpoint with no read in between: the last write makes `tail == head`, and the next read returns 0 | test `in_buffers[ep]`, so a write to a full buffer is dropped with no state change | high (not executed) | NaTrace.AsWrittenOverflowEmpties | NaTrace.GuardedWritesKeepPrefix |
| contrib/qemu-2.9.0/hw/char/optimsoc-na.c:160 | `(addr - info.numep) / 0x2000` has no bounds check; for offsets 1 to 15 on read and 0 to 15 on write the unsigned subtraction underflows and `ep` becomes -1 | a read at offset 1, or a write at offset 0, indexes `in_buffers[-1]` | reject offsets whose index is outside `[0, 16)`: a read returns 0 and a write is dropped | high (not executed) | NaDecode.EpIndexUnderflow | NaDecode.DecodeEndpoint |

The device model (`MmRead`, `MmWrite`, `BufferRead`, `BufferWrite`) uses the
corrected guard and the bounds-checked decoder. Inside the window from
offset 16 on, the corrected decoder gives exactly the code's index. So the
model differs from the code only where the code drops data or reads
outside its arrays. `BufferWriteAsWritten` and `RunAsWritten` keep the
code's guard, so the first defect can be stated.

## Left out

- NaAdapter.Adapter.BufferWriteAsWritten: requires the endpoint index to be in `[0, 16)`. The code does not check this, and outside that range its out-of-bounds access to `in_buffers[-1]` has no defined meaning to model.
- NaAdapter.Adapter.BufferRead: for offsets below 16 the code reads `in_buffers[-1]`. The model returns 0 and changes nothing, as the bounds-checked decoder dictates.
- NaAdapter.Adapter.BufferWrite: guards on the inbound buffer it pushes onto, so a word for a full buffer is dropped. The code tests `out_buffers[ep]` (line 186), so it pushes the 4096th outstanding word and loses the buffer's contents. `NaAdapter.Adapter.BufferWriteAsWritten` is the write with the code's guard. For offsets below 16 the code writes into `in_buffers[-1]`; the model drops the word.
- NaAdapter.Adapter.MmRead: for offsets 1 to 15 the code reads `in_buffers[-1]`. The model returns 0 instead.
- NaAdapter.Adapter.MmWrite: inherits `BufferWrite`'s corrected guard. The code as written pushes onto a full inbound buffer (see `BufferWriteAsWritten`). For offsets 0 to 15 the code writes into `in_buffers[-1]`; the model drops the word.
- QEMU region plumbing (`memory_region_init_io`, `memory_region_add_subregion`, the `MemoryRegionOps` table) and the `assert(addrspace != NULL)` are not modelled. These are calls into the emulator. Only the window size is kept, as `WINDOW_SIZE`.
- The `addrspace`, `io` and `irq` fields of `info` are left out. The interrupt handle is stored but never raised, so there is no interrupt behaviour.
- `DEBUG` logging (bad access size, overflow, read/write traces) is modelled as a no-op. The size parameter is accepted and ignored.
- `info.numep` is modelled as the constant 16. The code never assigns it after its static initialiser.
- The `OPTIMSOC_NA_REG_SEND`/`RECV`/`ENABLE` macros are unused and refer to an undefined stride. No enable flag exists, so none is modelled.
- Concurrency is not modelled. QEMU serialises the callbacks for one region.
- The conversion of an out-of-range unsigned value to `int` follows GCC's modulo-2^32 rule. C leaves it implementation-defined.
- `lisnoc.c`, `init/main.c`, the kernel module and the generated toolchain and ACPI headers are not part of this model.
