# Memory-trace decoder model

This is a Dafny model of the decoder library for the raw memory traces
recorded by the logging FPGA (`decoder/memtrace.c`, `decoder/memtrace.h`),
together with proofs about it. A trace is a stream of fixed-size packets. The
decoder reads them through a 64 KiB read-ahead window and assembles READ and
WRITE bursts. It applies every data packet that joins a burst to a 16 MiB
shadow copy of the target's memory and advances a 64-bit clock by each accepted packet's
duration. Each `MemTrace_Next` call ends with one memory operation, or with
EOF or an error code.

The project has five files:

- `memtrace_types.dfy` (module `MemTraceTypes`):
  - the `uint32_t`/`uint64_t` arithmetic, written out as wrap-around;
  - the shadow-memory constants and the mask;
  - the byte lanes of a bus word;
  - `MemOpType`, `MemOp` and `MemTraceResult` with their C enumerator values.
- `memtrace_fmt.dfy` (module `MemTraceFmt`): the packet accessors. Their bit
  layout is defined elsewhere, so a packet format is a parameter: a positive
  width and an arbitrary decoding function.
- `memtrace_spec.dfy` (module `MemTraceSpec`): the reference functions.
  - `DataMerge` is one `MemTraceData` call.
  - `PacketStep` is one iteration of the loop of `MemTrace_Next`.
  - `Run` and `NextOutcome` are the loop run to its end.
- `memtrace.dfy` (module `MemTrace`):
  - the imperative model, a class `MemTraceState` with the fields of the C
    record, `fileBuf` and `memory` as arrays;
  - `ReadBuffered` (compaction, `fread`, the copy loop), `Data` (in-place
    stores), `Iteration` and `Next` (the `while (!done)` loop);
  - the error-string table.

  `Next` is proved to produce exactly `NextOutcome`; each `Iteration` is
  proved to be exactly `PacketStep`.
- `memtrace_props.dfy` (module `MemTraceProps`): the properties of the
  reference functions.
  - How a call ends, and what it consumes.
  - What it does to the clock.
  - The rule for each kind of packet.
  - Word bursts, worked scenarios, and the two places where the code
    differs from what it evidently intends.

How the model treats the inputs:

- The trace file is a byte sequence with a read position. `fread` behaves
  as on a regular file: it returns the bytes asked for, or all that remain
  if fewer.
- `MemTrace_Open` is modelled by the constructor `Open`, which receives the
  file contents and the packet format.

Behaviour the code has, modelled as written and worth knowing:

- **A width-mixing BADBURST fills in `*nextOp`.** A byte-wide packet after
  data in the same burst (memtrace.c:257-260) returns `done` with
  `result == MEMTR_ERR_BADBURST`. The loop then exits normally and copies
  `op` to `*nextOp` (:221-223). This contradicts the comment at :141-142,
  which says no operation is written on an error. `WidthMix` and
  `ScenarioWidthMix` state this behaviour. A type-mixing BADBURST
  (:204-206, :212-214) returns early and writes nothing (`TypeMix`).
- **An error does not undo earlier stores.** The stores of earlier word
  packets in the same call stay in shadow memory: a CHECKSUM or SYNC error
  does not roll them back (`ScenarioChecksumAfterWord`).
- **A packet with neither lane enabled is treated as upper-lane only.** It
  is byte wide and not lower-lane, so it takes the `++op->addr` branch at
  :267.
- **`op.addr` starts uninitialised in C** (:152). The model starts it at 0.
  It is always assigned (:252) before it is read, so the value never shows.
- **READ and WRITE are one case in the reference function.** The READ and
  WRITE cases of the `switch` (:203-217) differ only in the type they test
  and set. `PacketStep` handles both in one case; the method `Iteration`
  keeps the two C cases.

## Model

| member | source | states |
|---|---|---|
| MemTraceTypes.Add32 | decoder/memtrace.h:45-46 | `uint32_t` addition: the exact sum below 2^32, the sum minus 2^32 at or above it |
| MemTraceTypes.Shl1 | decoder/memtrace.c:252 | `nextAddr << 1` as `uint32_t`: twice the word address, minus 2^32 when the top bit is set |
| MemTraceTypes.Add64 | decoder/memtrace.c:190 | `uint64_t` addition of a duration to the clock, wrapping at 2^64 |
| MemTraceTypes.Wrap64IsRemainder | decoder/memtrace.h:59 | reducing a sum to 64 bits is taking it modulo 2^64 |
| MemTraceTypes.Add64IsWrap | decoder/memtrace.c:190 | the 64-bit clock addition is the unbounded sum reduced to 64 bits |
| MemTraceTypes.Wrap64OfWrap | decoder/memtrace.c:190 | wrapping after each addition is the same as wrapping once at the end |
| MemTraceTypes.MemSizeIsPowerOfTwo | decoder/memtrace.h:54-55 | shadow memory is 16 MiB, the mask is its size minus one, and the size divides 2^32 |
| MemTraceTypes.MaskIsRemainder | decoder/memtrace.h:55 | for every 32-bit value, `x & MEM_MASK` equals `x % MEM_SIZE_BYTES` |
| MemTraceTypes.MaskIndex | decoder/memtrace.c:272-273 | a masked address always indexes shadow memory |
| MemTraceTypes.MaskOfAdd32 | decoder/memtrace.c:272 | masking a wrapped 32-bit sum gives the unbounded sum modulo the memory size |
| MemTraceTypes.ModShift | decoder/memtrace.c:272-273 | adding a multiple of the memory size does not change a masked address |
| MemTraceTypes.LowByte | decoder/memtrace.c:265 | `word & 0xFF`: the word modulo 256 |
| MemTraceTypes.HighByte | decoder/memtrace.c:267 | `word >> 8`: the word divided by 256 |
| MemTraceTypes.LanesRecombine | decoder/memtrace.c:265-273 | the lower lane (`word & 0xFF`) and the upper lane (`word >> 8`) together are the whole word |
| MemTraceTypes.MemOpTypeCode | decoder/memtrace.h:37-41 | exactly three operation types, with INVALID the zero value |
| MemTraceTypes.ResultCode | decoder/memtrace.h:81-87 | the results are numbered 0 to 4, with SUCCESS as 0 |
| MemTraceTypes.ResultOfCode | decoder/memtrace.h:81-87 | exactly the codes 0 to 4 denote a result |
| MemTraceTypes.ResultCodeRoundTrip | decoder/memtrace.h:81-87 | result-to-code and code-to-result are inverse, so the numbering is a bijection onto 0..4 |
| MemTraceSpec.MaskOfSecondByte | decoder/memtrace.c:273 | the second store of a word, after the post-increment, lands at the first store's address plus one, modulo the memory size |
| MemTraceSpec.StoreByte | decoder/memtrace.c:272 | a masked store changes exactly the byte at `(addr + length) mod 16 MiB` |
| MemTraceSpec.StoreWord | decoder/memtrace.c:272-273 | the two stores of a word hit two different bytes: the low byte at the burst end, the high byte after it |
| MemTraceSpec.DataMerge | decoder/memtrace.c:241-276 | model of MemTraceData: memory keeps its 16 MiB size (its effect is stated by DataMergeEffect) |
| MemTraceSpec.DataMergeEffect | decoder/memtrace.c:250-275 | see the list below this table |
| MemTraceSpec.DataMergeAsWritten | decoder/memtrace.c:263-268 | MemTraceData as written: a store that succeeds leaves memory 16 MiB long |
| MemTraceSpec.CanReadMonotone | decoder/memtrace.c:87-111 | the success condition of the buffered read: it survives more data behind the bytes and a smaller request, and a request larger than the 64 KiB window never succeeds |
| MemTraceSpec.DataStep | decoder/memtrace.c:208-223 | after MemTraceData the call ends exactly when the merge says the burst is done; it then copies the burst to `*nextOp`, with BADBURST exactly on a width error and SUCCESS otherwise; else the loop goes on with the merged burst, word address and memory |
| MemTraceSpec.PacketStep | decoder/memtrace.c:159-219 | one loop iteration: memory stays 16 MiB, and a loop that goes on has consumed exactly one packet |
| MemTraceSpec.Run | decoder/memtrace.c:159-219 | the loop run to its end keeps memory 16 MiB long |
| MemTrace.MemTraceState.Open | decoder/memtrace.c:48-54 | the state is zeroed (clock, offset, window, next address, every memory byte) and nothing of the file is consumed |
| MemTrace.MemTraceState.Relocate | decoder/memtrace.c:92-95 | the unread bytes move, in order, to the start of the window; head becomes 0, tail the old tail minus the old head |
| MemTrace.MemTraceState.Fread | decoder/memtrace.c:98-100 | the next bytes of the file go into the window after `dst`: `max` of them, or all that remain; nothing before `dst` changes |
| MemTrace.MemTraceState.Refill | decoder/memtrace.c:92-105 | after compaction and refill the unread stream and offset are unchanged, and the window holds as much of the stream as fits |
| MemTrace.MemTraceState.CopyOut | decoder/memtrace.c:119-122 | the copy loop copies exactly the first `size` buffered bytes and nothing else |
| MemTrace.MemTraceState.ReadBuffered | decoder/memtrace.c:79-128 | head ≤ tail ≤ 64 KiB on entry and exit. Success holds iff `size` unread bytes exist and fit the window; it returns exactly the next `size` bytes and advances both the offset and the head by `size`, the head from 0 when the window was compacted. Failure leaves the offset and the unread stream unchanged |
| MemTrace.MemTraceState.Data | decoder/memtrace.c:241-276 | the in-place stores, burst update, `nextAddr` increment and returned flags are exactly DataMerge's |
| MemTrace.MemTraceState.ReadPacket | decoder/memtrace.c:160-174 | a packet is read iff a whole packet is there and fits the 64 KiB window; it is the decoding of the next `sizeof packet` bytes, and those bytes are consumed |
| MemTrace.MemTraceState.Iteration | decoder/memtrace.c:159-219 | one loop iteration on the real state is exactly PacketStep on the abstract state, on both the stop and continue paths |
| MemTrace.MemTraceState.Next | decoder/memtrace.c:145-226 | result, `*nextOp`, unread stream, clock, next word address and shadow memory are exactly NextOutcome's |
| MemTrace.Message | decoder/memtrace.c:288-294 | each result's message is the entry of the string table `ErrorStrings` at that result's code |
| MemTrace.ErrorString | decoder/memtrace.c:285-301 | with the `>=` bound: codes 0..4 give their result's message, every other code gives "(Unknown error)" |
| MemTrace.ErrorStringAsWritten | decoder/memtrace.c:296-300 | with the `>` bound as written, exactly code 5 reads past the table |
| MemTraceProps.Add32Then | decoder/memtrace.c:255 | advancing the word address by one and then by k is advancing it by k + 1, modulo 2^32 |
| MemTraceFmt.FirstPacketPrefix | decoder/memtrace.c:160-174 | `MemPacket_FromBytes` sees only the next `sizeof packet` bytes: what follows them does not change the packet |
| MemTraceProps.DataMergeAsWrittenAgrees | decoder/memtrace.c:263-273 | the unmasked code agrees with the masked model wherever it stays in the array; it leaves the array exactly for a byte-wide first packet whose byte address is 16 MiB or more |
| MemTraceProps.DataMergeOverrun | decoder/memtrace.c:265 | a lower-lane packet opening a burst at word 0x800000 stores past the array as written; the masked model stores at byte 0 |
| MemTraceProps.LaneDecode | decoder/memtrace.c:263-269 | for word addresses below 0x800000, on the word 0xBEEF the lower lane stores 0xEF at twice the word address, the upper lane 0xBE one byte further; either way the burst has length 1 and ends |
| MemTraceProps.StepShape | decoder/memtrace.c:163-219 | an iteration keeps the burst typed once it has data, and ends with an operation only on SUCCESS or BADBURST; SUCCESS always carries a non-empty operation |
| MemTraceProps.RunShape | decoder/memtrace.c:159-226 | the same over the whole loop |
| MemTraceProps.NextShape | decoder/memtrace.c:145-226 | a call returns SUCCESS only with a non-empty, typed operation; EOF, SYNC and CHECKSUM never fill in `*nextOp` |
| MemTraceProps.ConsumedMore | decoder/memtrace.c:163 | one more whole packet in front of a consumed prefix keeps it whole |
| MemTraceProps.StepConsumes | decoder/memtrace.c:163-187 | an iteration that ends the call consumes nothing, exactly one packet, or one packet and one byte (SYNC only); each is a whole number of packets plus the SYNC byte |
| MemTraceProps.RunConsumes | decoder/memtrace.c:159-219 | a call consumes a prefix of the stream: whole packets, plus the single byte a SYNC error discards |
| MemTraceProps.ClockCompose | decoder/memtrace.c:190 | two wrapped clock advances are one advance by their sum |
| MemTraceProps.StepClocks | decoder/memtrace.c:186-190 | an iteration adds to the clock, modulo 2^64, exactly the duration it counts |
| MemTraceProps.RunClocks | decoder/memtrace.c:159-219 | over the whole loop the clock advances by the sum of the accepted durations, modulo 2^64 |
| MemTraceProps.NextClocks | decoder/memtrace.c:190 | a call adds the sum of accepted durations modulo 2^64; unless that sum wraps, the clock never goes back |
| MemTraceProps.EndOfInput | decoder/memtrace.c:163-173 | on read failure a burst with data is flushed as SUCCESS, an empty one gives EOF; nothing else changes |
| MemTraceProps.Misaligned | decoder/memtrace.c:176-184 | a misaligned packet and one more byte are consumed, giving SYNC (EOF if the byte is missing); clock and `nextAddr` are untouched |
| MemTraceProps.BadChecksum | decoder/memtrace.c:186-188 | a bad checksum consumes the packet and gives CHECKSUM before the duration is added; nothing else changes |
| MemTraceProps.AddrPacket | decoder/memtrace.c:195-201 | ADDR adds its duration and sets `nextAddr` to its payload; it ends a burst with data as SUCCESS and otherwise the loop goes on |
| MemTraceProps.TypeMix | decoder/memtrace.c:203-217 | a READ in a WRITE burst (or the reverse) gives BADBURST with no operation, `nextAddr` and memory untouched |
| MemTraceProps.WidthMix | decoder/memtrace.c:255-260 | a byte-wide packet after data gives BADBURST with no store, `nextAddr` incremented, and the burst copied to `*nextOp` |
| MemTraceProps.ByteStep | decoder/memtrace.c:245-269 | an accepted byte-wide READ or WRITE packet opening a burst stores its byte through the masked update, adds its duration and ends the call with SUCCESS and a 1-byte operation |
| MemTraceProps.SuccessCases | decoder/memtrace.c:163-223 | a loop iteration returns SUCCESS only on a read failure with data in the burst, an accepted ADDR packet after data, or an accepted byte-wide data packet that opens the burst |
| MemTraceProps.OtherPacket | decoder/memtrace.c:193-218 | a packet of any other type only adds its duration |
| MemTraceProps.WordStep | decoder/memtrace.c:203-217 | an accepted word-wide data packet merges and the loop goes on |
| MemTraceProps.WordMerge | decoder/memtrace.c:250-275 | a word packet keeps the burst's address (or fixes it from the word address), adds two bytes and advances the word address by one |
| MemTraceProps.BurstFlushedMore | decoder/memtrace.c:255 | one more word packet in front of a flushed burst |
| MemTraceProps.WordBurst | decoder/memtrace.c:159-226 | while the burst stays below 2^32 bytes, n word packets then end of input: one operation of 2n more bytes at the burst's address, the word address advanced by n; EOF if there is no data at all |
| MemTraceProps.SplitFirst | decoder/memtrace.c:163 | the first packet of a stream that starts with a packet-sized chunk is that chunk |
| MemTraceProps.ChunkAddr | decoder/memtrace.c:195-201 | an ADDR chunk: an empty burst goes on from the new word address, a burst with data is flushed |
| MemTraceProps.ChunkFirstWord | decoder/memtrace.c:250-275 | WRITE(0x1234) opening a burst at word 0x100 stores 0x34 at 0x200 and 0x12 at 0x201 |
| MemTraceProps.ChunkSecondWord | decoder/memtrace.c:272-275 | WRITE(0x5678) continuing it stores 0x78 at 0x202 and 0x56 at 0x203 |
| MemTraceProps.FirstWordMerge | decoder/memtrace.c:250-275 | the merge of the first of those words |
| MemTraceProps.SecondWordMerge | decoder/memtrace.c:272-275 | the merge of the second |
| MemTraceProps.ScenarioTwoWords | decoder/memtrace.c:145-226 | ADDR, two WRITE words, ADDR: one 4-byte WRITE at 0x200 with the bytes stored low byte first, and the rest of the stream untouched |
| MemTraceProps.ScenarioTruncated | decoder/memtrace.c:163-173 | a stream cut off in a burst: SUCCESS with the partial burst, then EOF on the next call |
| MemTraceProps.ScenarioEmpty | decoder/memtrace.c:163-173 | an empty trace gives EOF and changes nothing |
| MemTraceProps.ScenarioChecksumAfterWord | decoder/memtrace.c:186-188 | CHECKSUM after a word packet: no operation, but the word's two stores remain in memory |
| MemTraceProps.ScenarioWidthMix | decoder/memtrace.c:257-260 | a word then a lower-lane byte: BADBURST together with the 2-byte operation, `nextAddr` advanced twice, only the word stored |
| MemTraceProps.ErrorStringOrder | decoder/memtrace.c:288-300 | the table lists the messages in the order of the result codes |
| MemTraceProps.MessagesDistinct | decoder/memtrace.c:288-297 | different results have different messages, and none is "(Unknown error)" |
| MemTraceProps.ErrorStringAsWrittenDiffers | decoder/memtrace.c:296 | as written and corrected agree on every code except 5, which the corrected one maps to "(Unknown error)" |

What `MemTraceSpec.DataMergeEffect` states:

- The first packet of a burst fixes the burst's byte address as twice the
  word address: +1 for an upper-lane byte, modulo 2^32.
- The word address advances by one.
- The burst ends exactly on a byte-wide packet.
- It is a width-mixing error exactly when the packet is byte wide and the
  burst has data; then nothing is stored.
- Otherwise the burst grows by 1 or 2 bytes, and exactly those bytes change
  in shadow memory: the low byte and then the high byte of a word, or the
  selected lane of a byte.

## Left out

- `timestamp.seconds` (memtrace.c:191) is a floating-point division. Only `timestamp.clocks` is modelled.
- `MemTrace_Open`'s `fopen`, `MemTrace_Close` and the `FILE *` handle are stdio I/O. `Open` receives the file contents; only the zeroing at memtrace.c:51 is modelled.
- MemTrace.MemTraceState.Fread: this models `fread` on a regular file, which returns the bytes asked for or all that remain. Read errors and short reads are not modelled, so `ReadBuffered` cannot model EOF being reported early.
- The packet bit layout is in memtrace_fmt.h, which is not part of this model. The accessors are an arbitrary decoding function of a packet-sized chunk.
- decoder/decoder.c is not part of this model. It is the command-line front end and contains no decoding logic.
- patchkit/ is not part of this model. It is target-side embedded code.
- The `nextOp != NULL` test (memtrace.c:221) is replaced by returning the operation as an `Option`. The caller may ignore it.
- MemTrace.MemTraceState.Valid: the trace is required to be shorter than 2^64 bytes, so `fileOffset` never wraps. Packets are at least one byte and narrow enough that `size + fileBufHead` cannot wrap as `uint32_t`.
- MemTraceProps.NextClocks: "the clock never goes back" is stated only for calls whose durations do not wrap the 64-bit clock. As written the clock does wrap.
- MemTraceProps.RunConsumes: "whole packets" is the recursive predicate `WholePackets`, not divisibility by the packet size.
- Undefined behaviour is modelled only in the as-written members, as `None`: the unmasked store past the array and the read past the string table. The rest of the model uses the corrected definitions below.

## Findings

| source | as written | input that shows it | evidently intended | confidence | as-written member | corrected member |
|---|---|---|---|---|---|---|
| decoder/memtrace.c:265-267 | byte-wide stores index `memory[op->addr + op->length]` without `MEM_MASK` | ADDR(0x800000) then a byte-wide lower-lane WRITE: the store index is 0x1000000, one past the 16 MiB array | mask with `MEM_MASK` as the word stores at :272-273 do | not executed | MemTraceProps.DataMergeOverrun | MemTraceSpec.DataMergeEffect |
| decoder/memtrace.c:296 | `result > sizeof strings / sizeof strings[0]` | code 5: passes the check and reads `strings[5]`, past the table | `>=` | not executed | MemTraceProps.ErrorStringAsWrittenDiffers | MemTrace.ErrorString |
