/** The decoder's behaviour as functions on values: what one data packet
    does to a burst (MemTraceData) and what one call of MemTrace_Next
    computes from the unread stream (its `while (!done)` loop as
    recursion). The imperative state class in module MemTrace is proved to
    agree with these definitions. */
module MemTraceSpec {
  import opened MemTraceTypes
  import opened MemTraceFmt

  // ---------------------------------------------------------------------
  // Data merge (decoder/memtrace.c:241-276)

  /** The effect of merging one READ/WRITE packet: whether the burst ends
      after it, whether it was a width-mixing error, the updated burst, the
      next predicted word address and the shadow memory. */
  datatype Merge = Merge(done: bool, badBurst: bool, op: MemOp, nextAddr: u32, mem: seq<bv8>)

  /** Masking the address of the second byte of a word store, where the
      length has already been incremented as a `uint32_t`. */
  lemma {:induction false} MaskOfSecondByte(a: u32, l: u32)
    ensures MaskIndex(Add32(a, Add32(l, 1))) == (a + l + 1) % MEM_SIZE_BYTES
  {
    MaskOfAdd32(a, Add32(l, 1));
    if l + 1 == TWO_32 {
      assert a + l + 1 == a + 256 * MEM_SIZE_BYTES;
      ModShift(a, 256);
    }
  }

  /** `memory[MEM_MASK & (addr + length)] = b`: the store lands at the
      byte address reduced modulo the memory size. */
  function StoreByte(mem: seq<bv8>, addr: u32, length: u32, b: bv8): (r: seq<bv8>)
    requires |mem| == MEM_SIZE_BYTES
    ensures r == mem[(addr + length) % MEM_SIZE_BYTES := b]
  {
    MaskOfAdd32(addr, length);
    mem[MaskIndex(Add32(addr, length)) := b]
  }

  /** The two masked stores of a word access (memtrace.c:272-273): the low
      byte at `addr + length`, the high byte at the next address, with the
      length incremented as a `uint32_t` in between. They are different
      bytes, so both values survive. */
  function StoreWord(mem: seq<bv8>, addr: u32, length: u32, w: bv16): (r: seq<bv8>)
    requires |mem| == MEM_SIZE_BYTES
    ensures (addr + length) % MEM_SIZE_BYTES != (addr + length + 1) % MEM_SIZE_BYTES
    ensures r == mem[(addr + length) % MEM_SIZE_BYTES := LowByte(w)]
                    [(addr + length + 1) % MEM_SIZE_BYTES := HighByte(w)]
  {
    MaskOfSecondByte(addr, length);
    StoreByte(mem, addr, length, LowByte(w))[MaskIndex(Add32(addr, Add32(length, 1))) := HighByte(w)]
  }

  /** MemTraceData with every store reduced modulo the memory size (the
      byte-wide stores of the source are not masked; see
      DataMergeAsWritten). Its effect is stated by DataMergeEffect. */
  function DataMerge(op: MemOp, nextAddr: u32, mem: seq<bv8>, p: MemPacket): (m: Merge)
    requires |mem| == MEM_SIZE_BYTES
    ensures |m.mem| == MEM_SIZE_BYTES
  {
    var addr := if op.length == 0 then Shl1(nextAddr) else op.addr;
    var next := Add32(nextAddr, 1);
    if ByteWide(p) && op.length != 0 then
      Merge(true, true, op.(addr := addr), next, mem)
    else if ByteWide(p) then
      if p.lowerByte then
        Merge(true, false, MemOp(op.kind, addr, Add32(op.length, 1)), next,
              StoreByte(mem, addr, op.length, LowByte(p.word)))
      else
        var addr1 := Add32(addr, 1);
        Merge(true, false, MemOp(op.kind, addr1, Add32(op.length, 1)), next,
              StoreByte(mem, addr1, op.length, HighByte(p.word)))
    else
      Merge(false, false, MemOp(op.kind, addr, Add32(Add32(op.length, 1), 1)), next,
            StoreWord(mem, addr, op.length, p.word))
  }

  /** What one merge does. The first packet of a burst fixes its byte
      address from the word address; every packet advances the word address
      by one; a byte-wide packet after data in the same burst is a
      width-mixing error that stores nothing; otherwise exactly one byte
      (byte access) or two consecutive bytes (word access) of shadow memory
      change, and the burst grows by as many bytes. */
  lemma DataMergeEffect(op: MemOp, nextAddr: u32, mem: seq<bv8>, p: MemPacket)
    requires |mem| == MEM_SIZE_BYTES
    ensures var m := DataMerge(op, nextAddr, mem, p);
      && m.nextAddr == (nextAddr + 1) % TWO_32
      && m.op.kind == op.kind
      && m.done == ByteWide(p)
      && (m.badBurst <==> ByteWide(p) && op.length != 0)
      && (m.badBurst ==> m.op == op && m.mem == mem)
      && (!m.badBurst ==> m.op.length == (op.length + if ByteWide(p) then 1 else 2) % TWO_32)
      && (op.length != 0 ==> m.op.addr == op.addr)
      && (op.length == 0 && (p.lowerByte || !ByteWide(p)) ==> m.op.addr == (2 * nextAddr) % TWO_32)
      && (op.length == 0 && ByteWide(p) && !p.lowerByte ==> m.op.addr == (2 * nextAddr + 1) % TWO_32)
      && (!ByteWide(p) ==>
            var base := m.op.addr + op.length;
            base % MEM_SIZE_BYTES != (base + 1) % MEM_SIZE_BYTES &&
            m.mem == mem[base % MEM_SIZE_BYTES := LowByte(p.word)][(base + 1) % MEM_SIZE_BYTES := HighByte(p.word)])
      && (ByteWide(p) && op.length == 0 ==>
            m.mem == mem[m.op.addr % MEM_SIZE_BYTES := if p.lowerByte then LowByte(p.word) else HighByte(p.word)])
  {
  }

  /** MemTraceData exactly as decoder/memtrace.c:263-268 is written: the
      byte-wide stores index `memory` with the unmasked 32-bit sum. `None`
      stands for a store past the end of the 16 MiB array, which C leaves
      undefined. */
  function DataMergeAsWritten(op: MemOp, nextAddr: u32, mem: seq<bv8>, p: MemPacket): (r: Option<Merge>)
    requires |mem| == MEM_SIZE_BYTES
    ensures r.Some? ==> |r.value.mem| == MEM_SIZE_BYTES
  {
    var addr := if op.length == 0 then Shl1(nextAddr) else op.addr;
    var next := Add32(nextAddr, 1);
    if ByteWide(p) && op.length != 0 then
      Some(Merge(true, true, op.(addr := addr), next, mem))
    else if ByteWide(p) then
      var a := if p.lowerByte then addr else Add32(addr, 1);
      var index := Add32(a, op.length);
      if index >= MEM_SIZE_BYTES then None
      else
        Some(Merge(true, false, MemOp(op.kind, a, Add32(op.length, 1)), next,
                   mem[index := if p.lowerByte then LowByte(p.word) else HighByte(p.word)]))
    else
      var length1 := Add32(op.length, 1);
      Some(Merge(false, false, MemOp(op.kind, addr, Add32(length1, 1)), next,
                 mem[MaskIndex(Add32(addr, op.length)) := LowByte(p.word)]
                    [MaskIndex(Add32(addr, length1)) := HighByte(p.word)]))
  }

  // ---------------------------------------------------------------------
  // Burst assembly (decoder/memtrace.c:145-226)

  /** What a read of `n` bytes does to the unread stream `rem`: it succeeds
      exactly when the bytes are there and fit the 64 KiB window. */
  predicate CanRead(n: nat, rem: seq<bv8>)
  {
    n <= FILE_BUF_SIZE && n <= |rem|
  }

  /** A read that succeeds still succeeds with more bytes behind it, or when
      fewer bytes are asked for; a read larger than the window never
      succeeds. */
  lemma CanReadMonotone(n: nat, k: nat, rem: seq<bv8>, more: seq<bv8>)
    ensures CanRead(n, rem) ==> CanRead(n, rem + more)
    ensures CanRead(n, rem) && k <= n ==> CanRead(k, rem)
    ensures n > FILE_BUF_SIZE ==> !CanRead(n, rem + more)
  {
  }

  /** The burst MemTrace_Next starts from: no bytes, no type yet. (The C
      code leaves `addr` uninitialised; it is always set before it is read.) */
  const InitialOp: MemOp := MemOp(MemOpInvalid, 0, 0)

  /** The result of one MemTrace_Next call: its return code, the operation
      it copies to `*nextOp` (None when it copies nothing), the stream left
      unread, the durations it added (unbounded, for reasoning about
      wrap-around), and the new clock, next word address and memory. */
  datatype Outcome = Outcome(
    result: MemTraceResult,
    nextOp: Option<MemOp>,
    rest: seq<bv8>,
    ticks: nat,
    clocks: u64,
    nextAddr: u32,
    mem: seq<bv8>)

  /** One iteration of the loop of MemTrace_Next: either the call ends
      with an Outcome, or the loop goes on from a new state. */
  datatype Step =
    | Done(outcome: Outcome)
    | Continue(rest: seq<bv8>, op: MemOp, clocks: u64, ticks: nat, nextAddr: u32, mem: seq<bv8>)

  /** One iteration from a state in which `rem` is unread, `op` is the burst
      so far, `clocks` the timestamp, `ticks` the durations added so far in
      this call, `nextAddr` the predicted word address and `mem` shadow
      memory. A loop that goes on has consumed one whole packet. */
  function PacketStep(f: PacketFormat, rem: seq<bv8>, op: MemOp, clocks: u64, ticks: nat,
                      nextAddr: u32, mem: seq<bv8>): (s: Step)
    requires ValidFormat(f) && |mem| == MEM_SIZE_BYTES
    ensures s.Done? ==> |s.outcome.mem| == MEM_SIZE_BYTES
    ensures s.Continue? ==> |s.mem| == MEM_SIZE_BYTES && f.size <= |rem| && s.rest == rem[f.size..]
  {
    if !CanRead(f.size, rem) then
      // End of input: flush a partial burst, or report EOF.
      if op.length != 0 then Done(Outcome(Success, Some(op), rem, ticks, clocks, nextAddr, mem))
      else Done(Outcome(Eof, None, rem, ticks, clocks, nextAddr, mem))
    else
      var p := FirstPacket(f, rem);
      var rem1 := rem[f.size..];
      if !p.aligned then
        // Discard one more byte and give up on this call.
        if !CanRead(1, rem1) then Done(Outcome(Eof, None, rem1, ticks, clocks, nextAddr, mem))
        else Done(Outcome(ErrSync, None, rem1[1..], ticks, clocks, nextAddr, mem))
      else if !p.checksumCorrect then
        Done(Outcome(ErrChecksum, None, rem1, ticks, clocks, nextAddr, mem))
      else
        var clocks1 := Add64(clocks, p.duration);
        var ticks1 := ticks + p.duration;
        match p.kind
        case PktAddr =>
          // An address ends a burst; it is kept for the next one.
          if op.length != 0 then Done(Outcome(Success, Some(op), rem1, ticks1, clocks1, p.payload, mem))
          else Continue(rem1, op, clocks1, ticks1, p.payload, mem)
        case PktRead | PktWrite =>
          // READ and WRITE are symmetric: a burst of the other type is an
          // error, otherwise the packet is merged.
          var kind := if p.kind == PktRead then MemOpRead else MemOpWrite;
          if op.kind != MemOpInvalid && op.kind != kind then
            Done(Outcome(ErrBadBurst, None, rem1, ticks1, clocks1, nextAddr, mem))
          else DataStep(rem1, DataMerge(op.(kind := kind), nextAddr, mem, p), clocks1, ticks1)
        case PktOther =>
          Continue(rem1, op, clocks1, ticks1, nextAddr, mem)
  }

  /** After a data packet: the burst ends (copying it, also on a width
      error) or the loop goes on. */
  function DataStep(rem1: seq<bv8>, m: Merge, clocks1: u64, ticks1: nat): (s: Step)
    ensures s.Done? <==> m.done
    ensures s.Done? ==>
      (s.outcome.nextOp == Some(m.op) &&
       (s.outcome.result == ErrBadBurst <==> m.badBurst) &&
       (s.outcome.result == Success <==> !m.badBurst))
    ensures s.Continue? ==> s.op == m.op && s.nextAddr == m.nextAddr && s.mem == m.mem
  {
    if m.done then
      Done(Outcome(if m.badBurst then ErrBadBurst else Success, Some(m.op), rem1, ticks1, clocks1, m.nextAddr, m.mem))
    else Continue(rem1, m.op, clocks1, ticks1, m.nextAddr, m.mem)
  }

  /** The loop of MemTrace_Next, run to its end. */
  function Run(f: PacketFormat, rem: seq<bv8>, op: MemOp, clocks: u64, ticks: nat,
               nextAddr: u32, mem: seq<bv8>): (o: Outcome)
    requires ValidFormat(f) && |mem| == MEM_SIZE_BYTES
    ensures |o.mem| == MEM_SIZE_BYTES
    decreases |rem|
  {
    match PacketStep(f, rem, op, clocks, ticks, nextAddr, mem)
    case Done(o) => o
    case Continue(rest, op1, clocks1, ticks1, nextAddr1, mem1) =>
      Run(f, rest, op1, clocks1, ticks1, nextAddr1, mem1)
  }

  /** One whole MemTrace_Next call. */
  function NextOutcome(f: PacketFormat, rem: seq<bv8>, clocks: u64, nextAddr: u32, mem: seq<bv8>): Outcome
    requires ValidFormat(f) && |mem| == MEM_SIZE_BYTES
  {
    Run(f, rem, InitialOp, clocks, 0, nextAddr, mem)
  }
}
