/** Properties of the decoder model: how a MemTrace_Next call can end, what
    it consumes, what it does to the clock, the per-packet rules of the
    burst assembler, worked scenarios, and the two places where the C code
    differs from what it evidently intends. */
module MemTraceProps {
  import opened MemTraceTypes
  import opened MemTraceFmt
  import opened MemTraceSpec
  import MemTrace

  // ---------------------------------------------------------------------
  // Arithmetic used below

  /** Advancing a 32-bit word address by one and then by `k` is advancing
      it by `k + 1`, modulo 2^32. */
  lemma Add32Then(a: u32, k: nat)
    ensures (Add32(a, 1) + k) % TWO_32 == (a + 1 + k) % TWO_32
  {
    if a + 1 == TWO_32 {
      assert a + 1 + k == k + TWO_32;
    }
  }



  // ---------------------------------------------------------------------
  // Data merge (memtrace.c:241-276)

  /** Where the source's unmasked byte store stays inside shadow memory it
      does exactly what the masked model does; it leaves the array exactly
      when the burst is byte wide, starts there, and its byte address is
      16 MiB or more. */
  lemma DataMergeAsWrittenAgrees(op: MemOp, nextAddr: u32, mem: seq<bv8>, p: MemPacket)
    requires |mem| == MEM_SIZE_BYTES
    ensures var r := DataMergeAsWritten(op, nextAddr, mem, p);
      var m := DataMerge(op, nextAddr, mem, p);
      (r.Some? ==> r.value == m) &&
      (r.None? <==> ByteWide(p) && op.length == 0 && m.op.addr >= MEM_SIZE_BYTES)
  {
    if ByteWide(p) && op.length == 0 {
      var addr := Shl1(nextAddr);
      var a := if p.lowerByte then addr else Add32(addr, 1);
      assert Add32(a, 0) == a;
    }
  }

  /** The input that shows the unmasked store: a lower-lane byte access as
      the first packet of a burst whose word address is 0x800000. The source
      stores at index 0x1000000, one past the end of the array; the masked
      model stores at byte 0. */
  lemma DataMergeOverrun(mem: seq<bv8>, p: MemPacket)
    requires |mem| == MEM_SIZE_BYTES
    requires p.lowerByte && !p.upperByte
    ensures DataMergeAsWritten(MemOp(MemOpWrite, 0, 0), 0x80_0000, mem, p).None?
    ensures DataMerge(MemOp(MemOpWrite, 0, 0), 0x80_0000, mem, p).mem == mem[0 := LowByte(p.word)]
  {
    var m := DataMerge(MemOp(MemOpWrite, 0, 0), 0x80_0000, mem, p);
    assert m.op.addr == 0x100_0000;
  }

  /** The lane rules on the word 0xBEEF at the start of a burst: the lower
      lane alone stores 0xEF at the burst address, the upper lane alone stores
      0xBE one byte further on; either way the burst is one byte long and ends. */
  lemma LaneDecode(kind: MemOpType, nextAddr: u32, mem: seq<bv8>, p: MemPacket)
    requires |mem| == MEM_SIZE_BYTES && nextAddr < 0x80_0000
    requires p.word == 0xBEEF && ByteWide(p)
    ensures var m := DataMerge(MemOp(kind, 0, 0), nextAddr, mem, p);
      m.done && !m.badBurst && m.op.length == 1 &&
      (p.lowerByte ==> m.op.addr == 2 * nextAddr && m.mem == mem[2 * nextAddr := 0xEF]) &&
      (!p.lowerByte ==> m.op.addr == 2 * nextAddr + 1 && m.mem == mem[2 * nextAddr + 1 := 0xBE])
  {
    var m := DataMerge(MemOp(kind, 0, 0), nextAddr, mem, p);
    DataMergeEffect(MemOp(kind, 0, 0), nextAddr, mem, p);
    assert LowByte(0xBEEF) == 0xEF;
    assert HighByte(0xBEEF) == 0xBE;
    if p.lowerByte {
      assert m.op.addr == 2 * nextAddr && m.op.addr % MEM_SIZE_BYTES == m.op.addr;
    } else {
      assert m.op.addr == 2 * nextAddr + 1 && m.op.addr % MEM_SIZE_BYTES == m.op.addr;
    }
  }

  // ---------------------------------------------------------------------
  // How a call ends (memtrace.c:145-226)

  /** A burst that holds data has a type: true of the empty burst the call
      starts from, and kept by every packet. */
  predicate TypedBurst(op: MemOp)
  {
    op.length != 0 ==> op.kind != MemOpInvalid
  }

  /** One step keeps TypedBurst, and ends with an operation only on SUCCESS
      or BADBURST; SUCCESS always comes with a typed, non-empty operation. */
  lemma StepShape(f: PacketFormat, rem: seq<bv8>, op: MemOp, clocks: u64, ticks: nat,
                  nextAddr: u32, mem: seq<bv8>)
    requires ValidFormat(f) && |mem| == MEM_SIZE_BYTES && TypedBurst(op)
    ensures var s := PacketStep(f, rem, op, clocks, ticks, nextAddr, mem);
      (s.Continue? ==> TypedBurst(s.op)) &&
      (s.Done? ==> var o := s.outcome;
        (o.result == Success ==> o.nextOp.Some? && o.nextOp.value.length != 0) &&
        (o.nextOp.Some? ==> o.nextOp.value.kind != MemOpInvalid) &&
        (o.nextOp.Some? ==> o.result == Success || o.result == ErrBadBurst))
  {
  }

  /** Over a whole call: SUCCESS fills in a non-empty operation of a known
      type; EOF, SYNC and CHECKSUM never fill one in (nor does a type-mixing
      BADBURST, whereas a width-mixing one does). */
  lemma {:induction false} RunShape(f: PacketFormat, rem: seq<bv8>, op: MemOp, clocks: u64, ticks: nat,
                                    nextAddr: u32, mem: seq<bv8>)
    requires ValidFormat(f) && |mem| == MEM_SIZE_BYTES && TypedBurst(op)
    ensures var o := Run(f, rem, op, clocks, ticks, nextAddr, mem);
      (o.result == Success ==> o.nextOp.Some? && o.nextOp.value.length != 0) &&
      (o.nextOp.Some? ==> o.nextOp.value.kind != MemOpInvalid) &&
      (o.nextOp.Some? ==> o.result == Success || o.result == ErrBadBurst)
    decreases |rem|
  {
    StepShape(f, rem, op, clocks, ticks, nextAddr, mem);
    match PacketStep(f, rem, op, clocks, ticks, nextAddr, mem)
    case Done(_) =>
    case Continue(rest, op1, clocks1, ticks1, nextAddr1, mem1) =>
      RunShape(f, rest, op1, clocks1, ticks1, nextAddr1, mem1);
  }

  /** The same for a whole MemTrace_Next call. */
  lemma NextShape(f: PacketFormat, rem: seq<bv8>, clocks: u64, nextAddr: u32, mem: seq<bv8>)
    requires ValidFormat(f) && |mem| == MEM_SIZE_BYTES
    ensures var o := NextOutcome(f, rem, clocks, nextAddr, mem);
      (o.result == Success ==> o.nextOp.Some? && o.nextOp.value.length != 0) &&
      (o.nextOp.Some? ==> o.nextOp.value.kind != MemOpInvalid) &&
      (o.result == Eof || o.result == ErrSync || o.result == ErrChecksum ==> o.nextOp.None?)
  {
    RunShape(f, rem, InitialOp, clocks, 0, nextAddr, mem);
  }

  // ---------------------------------------------------------------------
  // What a call consumes

  /** `n` bytes are a whole number of packets of `size` bytes. */
  predicate WholePackets(n: nat, size: nat)
    decreases n
  {
    n == 0 || (0 < size <= n && WholePackets(n - size, size))
  }

  /** `left` is what remains of `rem` after a prefix of whole packets,
      plus the one byte a SYNC error discards. */
  predicate Consumed(rem: seq<bv8>, left: seq<bv8>, size: nat, sync: bool)
  {
    var used := |rem| - |left|;
    |left| <= |rem| && left == rem[used..] &&
    (!sync ==> WholePackets(used, size)) &&
    (sync ==> used > size && WholePackets(used - 1, size))
  }

  /** Consuming one more packet in front keeps it whole. */
  lemma ConsumedMore(rem: seq<bv8>, size: nat, left: seq<bv8>, sync: bool)
    requires 0 < size <= |rem| && Consumed(rem[size..], left, size, sync)
    ensures Consumed(rem, left, size, sync)
  {
    var used1 := |rem| - size - |left|;
    assert rem[size..][used1..] == rem[size + used1..];
    if sync {
      assert (used1 + size - 1) - size == used1 - 1;
    } else {
      assert (used1 + size) - size == used1;
    }
  }

  /** One step that ends the call consumes nothing (end of input), one
      packet, or one packet and one byte (SYNC). */
  lemma StepConsumes(f: PacketFormat, rem: seq<bv8>, op: MemOp, clocks: u64, ticks: nat,
                     nextAddr: u32, mem: seq<bv8>)
    requires ValidFormat(f) && |mem| == MEM_SIZE_BYTES
    ensures var s := PacketStep(f, rem, op, clocks, ticks, nextAddr, mem);
      s.Done? ==>
        (s.outcome.rest == rem ||
         (f.size <= |rem| && s.outcome.rest == rem[f.size..]) ||
         (s.outcome.result == ErrSync && f.size < |rem| && s.outcome.rest == rem[f.size + 1..]))
    ensures var s := PacketStep(f, rem, op, clocks, ticks, nextAddr, mem);
      s.Done? ==> Consumed(rem, s.outcome.rest, f.size, s.outcome.result == ErrSync)
  {
    var s := PacketStep(f, rem, op, clocks, ticks, nextAddr, mem);
    if s.Done? && s.outcome.rest != rem {
      assert WholePackets(f.size, f.size) by { assert f.size - f.size == 0; }
      if s.outcome.result == ErrSync {
        assert rem[f.size..][1..] == rem[f.size + 1..];
        assert |rem| - |s.outcome.rest| - 1 == f.size;
      }
    }
  }

  /** A call consumes a prefix of the stream: whole packets, plus the one
      byte discarded on a SYNC error. */
  lemma {:induction false} RunConsumes(f: PacketFormat, rem: seq<bv8>, op: MemOp, clocks: u64, ticks: nat,
                                       nextAddr: u32, mem: seq<bv8>)
    requires ValidFormat(f) && |mem| == MEM_SIZE_BYTES
    ensures var o := Run(f, rem, op, clocks, ticks, nextAddr, mem);
      Consumed(rem, o.rest, f.size, o.result == ErrSync)
    decreases |rem|
  {
    var s := PacketStep(f, rem, op, clocks, ticks, nextAddr, mem);
    StepConsumes(f, rem, op, clocks, ticks, nextAddr, mem);
    if s.Continue? {
      var o := Run(f, s.rest, s.op, s.clocks, s.ticks, s.nextAddr, s.mem);
      RunConsumes(f, s.rest, s.op, s.clocks, s.ticks, s.nextAddr, s.mem);
      ConsumedMore(rem, f.size, o.rest, o.result == ErrSync);
    }
  }

  // ---------------------------------------------------------------------
  // The clock (memtrace.c:190)

  /** The 64-bit clock moved from `c` to `c1` while the unbounded tick count
      moved from `t` to `t1`: it advanced by the ticks, modulo 2^64. */
  predicate ClockAdvanced(c: u64, t: nat, c1: u64, t1: nat)
  {
    t <= t1 && c1 == Wrap64(c + (t1 - t))
  }

  /** Two wrapped advances of the clock are one wrapped advance by their
      sum. */
  lemma ClockCompose(c: u64, t: nat, c1: u64, t1: nat, c2: u64, t2: nat)
    requires ClockAdvanced(c, t, c1, t1) && ClockAdvanced(c1, t1, c2, t2)
    ensures ClockAdvanced(c, t, c2, t2)
  {
    Wrap64OfWrap(c + (t1 - t), t2 - t1);
  }

  /** One step adds the duration it counts in `ticks` to the clock, modulo
      2^64. */
  lemma StepClocks(f: PacketFormat, rem: seq<bv8>, op: MemOp, clocks: u64, ticks: nat,
                   nextAddr: u32, mem: seq<bv8>)
    requires ValidFormat(f) && |mem| == MEM_SIZE_BYTES
    ensures var s := PacketStep(f, rem, op, clocks, ticks, nextAddr, mem);
      (s.Done? ==> ClockAdvanced(clocks, ticks, s.outcome.clocks, s.outcome.ticks)) &&
      (s.Continue? ==> ClockAdvanced(clocks, ticks, s.clocks, s.ticks))
  {
    if CanRead(f.size, rem) {
      Add64IsWrap(clocks, FirstPacket(f, rem).duration);
    }
  }

  /** The clock advances by the durations of the accepted packets, modulo
      2^64, and `ticks` only grows. */
  lemma {:induction false} RunClocks(f: PacketFormat, rem: seq<bv8>, op: MemOp, clocks: u64, ticks: nat,
                                     nextAddr: u32, mem: seq<bv8>)
    requires ValidFormat(f) && |mem| == MEM_SIZE_BYTES
    ensures var o := Run(f, rem, op, clocks, ticks, nextAddr, mem);
      ClockAdvanced(clocks, ticks, o.clocks, o.ticks)
    decreases |rem|
  {
    var s := PacketStep(f, rem, op, clocks, ticks, nextAddr, mem);
    StepClocks(f, rem, op, clocks, ticks, nextAddr, mem);
    if s.Continue? {
      var o := Run(f, s.rest, s.op, s.clocks, s.ticks, s.nextAddr, s.mem);
      RunClocks(f, s.rest, s.op, s.clocks, s.ticks, s.nextAddr, s.mem);
      ClockCompose(clocks, ticks, s.clocks, s.ticks, o.clocks, o.ticks);
    }
  }

  /** So a call adds the 64-bit sum of the durations it accepted to the
      clock, and never moves the clock back unless that sum wraps. */
  lemma NextClocks(f: PacketFormat, rem: seq<bv8>, clocks: u64, nextAddr: u32, mem: seq<bv8>)
    requires ValidFormat(f) && |mem| == MEM_SIZE_BYTES
    ensures var o := NextOutcome(f, rem, clocks, nextAddr, mem);
      o.clocks == (clocks + o.ticks) % TWO_64 &&
      (clocks + o.ticks < TWO_64 ==> o.clocks == clocks + o.ticks >= clocks)
  {
    RunClocks(f, rem, InitialOp, clocks, 0, nextAddr, mem);
    var o := NextOutcome(f, rem, clocks, nextAddr, mem);
    Wrap64IsRemainder(clocks + o.ticks);
  }

  // ---------------------------------------------------------------------
  // The per-packet rules of the loop, for the packet at the head of `rem`

  /** Read failure: a burst with data is flushed as SUCCESS; an empty one
      gives EOF. Nothing else changes. */
  lemma EndOfInput(f: PacketFormat, rem: seq<bv8>, op: MemOp, clocks: u64, ticks: nat,
                   nextAddr: u32, mem: seq<bv8>)
    requires ValidFormat(f) && |mem| == MEM_SIZE_BYTES && !CanRead(f.size, rem)
    ensures Run(f, rem, op, clocks, ticks, nextAddr, mem) ==
      if op.length != 0 then Outcome(Success, Some(op), rem, ticks, clocks, nextAddr, mem)
      else Outcome(Eof, None, rem, ticks, clocks, nextAddr, mem)
  {
  }

  /** A misaligned packet is consumed with one more byte; the call reports
      SYNC, or EOF if there is no further byte. Its duration is not added and
      nothing else changes. */
  lemma Misaligned(f: PacketFormat, rem: seq<bv8>, op: MemOp, clocks: u64, ticks: nat,
                   nextAddr: u32, mem: seq<bv8>)
    requires ValidFormat(f) && |mem| == MEM_SIZE_BYTES
    requires CanRead(f.size, rem) && !FirstPacket(f, rem).aligned
    ensures Run(f, rem, op, clocks, ticks, nextAddr, mem) ==
      if |rem| > f.size then Outcome(ErrSync, None, rem[f.size + 1..], ticks, clocks, nextAddr, mem)
      else Outcome(Eof, None, rem[f.size..], ticks, clocks, nextAddr, mem)
  {
    assert |rem| > f.size ==> rem[f.size..][1..] == rem[f.size + 1..];
  }

  /** A packet with a bad checksum is consumed and the call reports CHECKSUM
      before its duration is added. */
  lemma BadChecksum(f: PacketFormat, rem: seq<bv8>, op: MemOp, clocks: u64, ticks: nat,
                    nextAddr: u32, mem: seq<bv8>)
    requires ValidFormat(f) && |mem| == MEM_SIZE_BYTES
    requires CanRead(f.size, rem) && FirstPacket(f, rem).aligned && !FirstPacket(f, rem).checksumCorrect
    ensures Run(f, rem, op, clocks, ticks, nextAddr, mem) ==
      Outcome(ErrChecksum, None, rem[f.size..], ticks, clocks, nextAddr, mem)
  {
  }

  /** An accepted ADDR packet adds its duration and sets the word address;
      it ends a burst with data (SUCCESS) and otherwise the loop goes on. */
  lemma AddrPacket(f: PacketFormat, rem: seq<bv8>, op: MemOp, clocks: u64, ticks: nat,
                   nextAddr: u32, mem: seq<bv8>)
    requires ValidFormat(f) && |mem| == MEM_SIZE_BYTES && CanRead(f.size, rem)
    requires var p := FirstPacket(f, rem); p.aligned && p.checksumCorrect && p.kind == PktAddr
    ensures var p := FirstPacket(f, rem);
      (Run(f, rem, op, clocks, ticks, nextAddr, mem) ==
       if op.length != 0 then
         Outcome(Success, Some(op), rem[f.size..], ticks + p.duration, Add64(clocks, p.duration), p.payload, mem)
       else Run(f, rem[f.size..], op, Add64(clocks, p.duration), ticks + p.duration, p.payload, mem))
  {
  }

  /** A READ packet in a WRITE burst, or a WRITE packet in a READ burst,
      ends the call with BADBURST before the data merge: the duration is
      added, but the word address and memory are untouched and no operation
      is filled in. */
  lemma TypeMix(f: PacketFormat, rem: seq<bv8>, op: MemOp, clocks: u64, ticks: nat,
                nextAddr: u32, mem: seq<bv8>)
    requires ValidFormat(f) && |mem| == MEM_SIZE_BYTES && CanRead(f.size, rem)
    requires var p := FirstPacket(f, rem);
      (p.aligned && p.checksumCorrect &&
       ((p.kind == PktRead && op.kind == MemOpWrite) || (p.kind == PktWrite && op.kind == MemOpRead)))
    ensures var p := FirstPacket(f, rem);
      (Run(f, rem, op, clocks, ticks, nextAddr, mem) ==
       Outcome(ErrBadBurst, None, rem[f.size..], ticks + p.duration, Add64(clocks, p.duration), nextAddr, mem))
  {
  }

  /** A byte-wide data packet after data in the same burst ends the call
      with BADBURST, stores nothing, yet advances the word address and fills
      in the burst so far. */
  lemma WidthMix(f: PacketFormat, rem: seq<bv8>, op: MemOp, clocks: u64, ticks: nat,
                 nextAddr: u32, mem: seq<bv8>)
    requires ValidFormat(f) && |mem| == MEM_SIZE_BYTES && CanRead(f.size, rem)
    requires var p := FirstPacket(f, rem);
      (p.aligned && p.checksumCorrect && ByteWide(p) &&
       ((p.kind == PktRead && op.kind != MemOpWrite) || (p.kind == PktWrite && op.kind != MemOpRead)))
    requires op.length != 0
    ensures var p := FirstPacket(f, rem);
      var kind := if p.kind == PktRead then MemOpRead else MemOpWrite;
      Run(f, rem, op, clocks, ticks, nextAddr, mem) ==
      Outcome(ErrBadBurst, Some(op.(kind := kind)), rem[f.size..], ticks + p.duration,
              Add64(clocks, p.duration), Add32(nextAddr, 1), mem)
  {
  }

  /** A byte-wide data packet that opens a burst stores its one byte and
      ends the call with SUCCESS: the burst is one byte long. */
  lemma ByteStep(f: PacketFormat, rem: seq<bv8>, write: bool, op: MemOp, clocks: u64, ticks: nat,
                 nextAddr: u32, mem: seq<bv8>)
    requires ValidFormat(f) && |mem| == MEM_SIZE_BYTES && CanRead(f.size, rem)
    requires var p := FirstPacket(f, rem);
      p.aligned && p.checksumCorrect && p.kind == (if write then PktWrite else PktRead) && ByteWide(p)
    requires (op.kind == MemOpInvalid || op.kind == OpType(write)) && op.length == 0
    ensures var p := FirstPacket(f, rem);
      var m := DataMerge(op.(kind := OpType(write)), nextAddr, mem, p);
      Run(f, rem, op, clocks, ticks, nextAddr, mem) ==
        Outcome(Success, Some(m.op), rem[f.size..], ticks + p.duration, Add64(clocks, p.duration),
                m.nextAddr, m.mem) &&
      m.op.length == 1
  {
  }

  /** A step ends with SUCCESS in exactly three ways: a read failure with
      data in the burst, an accepted ADDR packet after data, or an accepted
      byte-wide data packet that opens the burst. */
  lemma SuccessCases(f: PacketFormat, rem: seq<bv8>, op: MemOp, clocks: u64, ticks: nat,
                     nextAddr: u32, mem: seq<bv8>)
    requires ValidFormat(f) && |mem| == MEM_SIZE_BYTES
    ensures var s := PacketStep(f, rem, op, clocks, ticks, nextAddr, mem);
      s.Done? && s.outcome.result == Success ==>
        (!CanRead(f.size, rem) && op.length != 0) ||
        (CanRead(f.size, rem) &&
         var p := FirstPacket(f, rem);
         p.aligned && p.checksumCorrect &&
         ((p.kind == PktAddr && op.length != 0) ||
          (p.kind in {PktRead, PktWrite} && ByteWide(p) && op.length == 0)))
  {
  }

  /** A packet of any other type only adds its duration. */
  lemma OtherPacket(f: PacketFormat, rem: seq<bv8>, op: MemOp, clocks: u64, ticks: nat,
                    nextAddr: u32, mem: seq<bv8>)
    requires ValidFormat(f) && |mem| == MEM_SIZE_BYTES && CanRead(f.size, rem)
    requires var p := FirstPacket(f, rem); p.aligned && p.checksumCorrect && p.kind == PktOther
    ensures var p := FirstPacket(f, rem);
      Run(f, rem, op, clocks, ticks, nextAddr, mem) ==
      Run(f, rem[f.size..], op, Add64(clocks, p.duration), ticks + p.duration, nextAddr, mem)
  {
  }

  /** An accepted word-wide data packet that fits the burst is merged, and
      the loop goes on. */
  lemma WordStep(f: PacketFormat, rem: seq<bv8>, write: bool, op: MemOp, clocks: u64, ticks: nat,
                 nextAddr: u32, mem: seq<bv8>)
    requires ValidFormat(f) && |mem| == MEM_SIZE_BYTES && CanRead(f.size, rem)
    requires WordPacket(FirstPacket(f, rem), write)
    requires op.kind == MemOpInvalid || op.kind == OpType(write)
    ensures var p := FirstPacket(f, rem);
      var m := DataMerge(op.(kind := OpType(write)), nextAddr, mem, p);
      (Run(f, rem, op, clocks, ticks, nextAddr, mem) ==
       Run(f, rem[f.size..], m.op, Add64(clocks, p.duration), ticks + p.duration, m.nextAddr, m.mem))
  {
    var p := FirstPacket(f, rem);
    assert !DataMerge(op.(kind := OpType(write)), nextAddr, mem, p).done;
  }

  // ---------------------------------------------------------------------
  // Bursts of word packets

  function OpType(write: bool): MemOpType
  {
    if write then MemOpWrite else MemOpRead
  }

  /** An accepted word-wide READ (or WRITE) packet. */
  predicate WordPacket(p: MemPacket, write: bool)
  {
    p.aligned && p.checksumCorrect && p.kind == (if write then PktWrite else PktRead) && !ByteWide(p)
  }

  /** `rem` is `n` word packets of one type followed by less than one
      readable packet. */
  predicate WordsThenEnd(f: PacketFormat, rem: seq<bv8>, n: nat, write: bool)
    decreases n
  {
    if n == 0 then !CanRead(f.size, rem)
    else CanRead(f.size, rem) && WordPacket(FirstPacket(f, rem), write) &&
         WordsThenEnd(f, rem[f.size..], n - 1, write)
  }

  /** How a call that met `n` word packets after the burst `op` ends: the
      word address has advanced by `n`; with no data at all it is EOF,
      otherwise SUCCESS with the burst grown by `2 n` bytes at its address
      (fixed by the first packet when `op` is empty). */
  predicate BurstFlushed(o: Outcome, n: nat, write: bool, op: MemOp, nextAddr: u32)
  {
    o.nextAddr == (nextAddr + n) % TWO_32 &&
    (op.length + n == 0 ==> o.result == Eof && o.nextOp == None) &&
    (op.length + n > 0 ==>
      o.result == Success && o.nextOp.Some? &&
      o.nextOp.value.kind == OpType(write) &&
      o.nextOp.value.addr == (if op.length == 0 then Shl1(nextAddr) else op.addr) &&
      o.nextOp.value.length == op.length + 2 * n)
  }

  /** What a word packet does to a compatible burst that stays below 2^32
      bytes: the burst keeps its address (or takes it from the word address
      when empty) and grows by two bytes; the word address advances by one. */
  lemma WordMerge(op: MemOp, write: bool, nextAddr: u32, mem: seq<bv8>, p: MemPacket)
    requires |mem| == MEM_SIZE_BYTES && !ByteWide(p) && op.length + 2 < TWO_32
    ensures var m := DataMerge(op.(kind := OpType(write)), nextAddr, mem, p);
      m.op == MemOp(OpType(write), if op.length == 0 then Shl1(nextAddr) else op.addr, op.length + 2) &&
      m.nextAddr == Add32(nextAddr, 1)
  {
  }

  /** One more word packet in front of a flushed burst. */
  lemma BurstFlushedMore(o: Outcome, n: nat, write: bool, op: MemOp, nextAddr: u32)
    requires n > 0 && op.length + 2 * n < TWO_32
    requires BurstFlushed(o, n - 1, write,
                          MemOp(OpType(write), if op.length == 0 then Shl1(nextAddr) else op.addr, op.length + 2),
                          Add32(nextAddr, 1))
    ensures BurstFlushed(o, n, write, op, nextAddr)
  {
    Add32Then(nextAddr, n - 1);
  }

  /** `n` word packets extend a compatible burst by `2 n` contiguous bytes at
      one address and advance the word address by `n`; the end of input then
      flushes the burst. */
  lemma {:induction false} WordBurst(f: PacketFormat, rem: seq<bv8>, n: nat, write: bool,
                                     op: MemOp, clocks: u64, ticks: nat, nextAddr: u32, mem: seq<bv8>)
    requires ValidFormat(f) && |mem| == MEM_SIZE_BYTES && WordsThenEnd(f, rem, n, write)
    requires op.kind == MemOpInvalid || op.kind == OpType(write)
    requires op.length != 0 ==> op.kind == OpType(write)
    requires op.length + 2 * n < TWO_32
    ensures BurstFlushed(Run(f, rem, op, clocks, ticks, nextAddr, mem), n, write, op, nextAddr)
    decreases n
  {
    if n > 0 {
      var p := FirstPacket(f, rem);
      var m := DataMerge(op.(kind := OpType(write)), nextAddr, mem, p);
      WordStep(f, rem, write, op, clocks, ticks, nextAddr, mem);
      WordMerge(op, write, nextAddr, mem, p);
      WordBurst(f, rem[f.size..], n - 1, write, m.op, Add64(clocks, p.duration), ticks + p.duration, m.nextAddr, m.mem);
      BurstFlushedMore(Run(f, rem, op, clocks, ticks, nextAddr, mem), n, write, op, nextAddr);
    } else {
      EndOfInput(f, rem, op, clocks, ticks, nextAddr, mem);
    }
  }

  // ---------------------------------------------------------------------
  // Scenarios

  /** An accepted ADDR packet of zero duration. */
  function AddrOf(wordAddr: u32): MemPacket
  {
    MemPacket(true, true, 0, PktAddr, wordAddr, false, false, 0)
  }

  /** An accepted word-wide WRITE packet of zero duration. */
  function WordWriteOf(w: bv16): MemPacket
  {
    MemPacket(true, true, 0, PktWrite, 0, true, true, w)
  }

  /** Taking the first packet off a stream made of a chunk and the rest. */
  lemma SplitFirst(f: PacketFormat, c: seq<bv8>, rest: seq<bv8>)
    requires |c| == f.size
    ensures (c + rest)[..f.size] == c && (c + rest)[f.size..] == rest
  {
  }

  /** The chunk `c` holds ADDR(w): an empty burst goes on from word address
      `w`, one with data is flushed. */
  lemma ChunkAddr(f: PacketFormat, c: seq<bv8>, rest: seq<bv8>, w: u32, op: MemOp, clocks: u64,
                  ticks: nat, nextAddr: u32, mem: seq<bv8>)
    requires ValidFormat(f) && f.size <= FILE_BUF_SIZE && |mem| == MEM_SIZE_BYTES
    requires |c| == f.size && f.fromBytes(c) == AddrOf(w)
    ensures op.length == 0 ==>
      Run(f, c + rest, op, clocks, ticks, nextAddr, mem) == Run(f, rest, op, clocks, ticks, w, mem)
    ensures op.length != 0 ==>
      Run(f, c + rest, op, clocks, ticks, nextAddr, mem) == Outcome(Success, Some(op), rest, ticks, clocks, w, mem)
  {
    SplitFirst(f, c, rest);
    AddrPacket(f, c + rest, op, clocks, ticks, nextAddr, mem);
  }

  /** The chunk `c` holds WRITE(0x1234) and starts a burst at word 0x100:
      it stores 0x34 at byte 0x200 and 0x12 at byte 0x201. */
  lemma ChunkFirstWord(f: PacketFormat, c: seq<bv8>, rest: seq<bv8>, clocks: u64, ticks: nat,
                       mem: seq<bv8>)
    requires ValidFormat(f) && f.size <= FILE_BUF_SIZE && |mem| == MEM_SIZE_BYTES
    requires |c| == f.size && f.fromBytes(c) == WordWriteOf(0x1234)
    ensures Run(f, c + rest, InitialOp, clocks, ticks, 0x100, mem) ==
      Run(f, rest, MemOp(MemOpWrite, 0x200, 2), clocks, ticks, 0x101, mem[0x200 := 0x34][0x201 := 0x12])
  {
    SplitFirst(f, c, rest);
    FirstWordMerge(mem);
    WordStep(f, c + rest, true, InitialOp, clocks, ticks, 0x100, mem);
  }

  /** The chunk `c` holds WRITE(0x5678) continuing that burst at word
      0x101: it stores 0x78 at byte 0x202 and 0x56 at byte 0x203. */
  lemma ChunkSecondWord(f: PacketFormat, c: seq<bv8>, rest: seq<bv8>, clocks: u64, ticks: nat,
                        mem: seq<bv8>)
    requires ValidFormat(f) && f.size <= FILE_BUF_SIZE && |mem| == MEM_SIZE_BYTES
    requires |c| == f.size && f.fromBytes(c) == WordWriteOf(0x5678)
    ensures Run(f, c + rest, MemOp(MemOpWrite, 0x200, 2), clocks, ticks, 0x101, mem) ==
      Run(f, rest, MemOp(MemOpWrite, 0x200, 4), clocks, ticks, 0x102, mem[0x202 := 0x78][0x203 := 0x56])
  {
    SplitFirst(f, c, rest);
    SecondWordMerge(mem);
    WordStep(f, c + rest, true, MemOp(MemOpWrite, 0x200, 2), clocks, ticks, 0x101, mem);
  }

  /** The first word of the scenarios below: WRITE(0x1234) at word 0x100. */
  lemma FirstWordMerge(mem: seq<bv8>)
    requires |mem| == MEM_SIZE_BYTES
    ensures var m := DataMerge(InitialOp.(kind := MemOpWrite), 0x100, mem, WordWriteOf(0x1234));
      m.op == MemOp(MemOpWrite, 0x200, 2) && m.nextAddr == 0x101 && !m.done &&
      m.mem == mem[0x200 := 0x34][0x201 := 0x12]
  {
    assert LowByte(0x1234) == 0x34 && HighByte(0x1234) == 0x12;
  }

  /** The second word: WRITE(0x5678) continuing that burst. */
  lemma SecondWordMerge(mem: seq<bv8>)
    requires |mem| == MEM_SIZE_BYTES
    ensures var m := DataMerge(MemOp(MemOpWrite, 0x200, 2), 0x101, mem, WordWriteOf(0x5678));
      m.op == MemOp(MemOpWrite, 0x200, 4) && m.nextAddr == 0x102 && !m.done &&
      m.mem == mem[0x202 := 0x78][0x203 := 0x56]
  {
    assert LowByte(0x5678) == 0x78 && HighByte(0x5678) == 0x56;
  }

  /** ADDR(0x100), WRITE(0x1234), WRITE(0x5678), ADDR(0x102) gives one WRITE
      of four bytes at 0x200, stored little-end first. */
  lemma ScenarioTwoWords(f: PacketFormat, c0: seq<bv8>, c1: seq<bv8>, c2: seq<bv8>, c3: seq<bv8>,
                         tail: seq<bv8>, clocks: u64, nextAddr: u32, mem: seq<bv8>)
    requires ValidFormat(f) && f.size <= FILE_BUF_SIZE && |mem| == MEM_SIZE_BYTES
    requires |c0| == |c1| == |c2| == |c3| == f.size
    requires f.fromBytes(c0) == AddrOf(0x100) && f.fromBytes(c1) == WordWriteOf(0x1234)
    requires f.fromBytes(c2) == WordWriteOf(0x5678) && f.fromBytes(c3) == AddrOf(0x102)
    ensures NextOutcome(f, c0 + (c1 + (c2 + (c3 + tail))), clocks, nextAddr, mem) ==
      Outcome(Success, Some(MemOp(MemOpWrite, 0x200, 4)), tail, 0, clocks, 0x102,
              mem[0x200 := 0x34][0x201 := 0x12][0x202 := 0x78][0x203 := 0x56])
  {
    var r3 := c3 + tail;
    var r2 := c2 + r3;
    var r1 := c1 + r2;
    var mem1 := mem[0x200 := 0x34][0x201 := 0x12];
    ChunkAddr(f, c0, r1, 0x100, InitialOp, clocks, 0, nextAddr, mem);
    ChunkFirstWord(f, c1, r2, clocks, 0, mem);
    ChunkSecondWord(f, c2, r3, clocks, 0, mem1);
    ChunkAddr(f, c3, tail, 0x102, MemOp(MemOpWrite, 0x200, 4), clocks, 0, 0x102, mem1[0x202 := 0x78][0x203 := 0x56]);
  }

  /** A stream cut off in the middle of a burst: one SUCCESS flushes the
      partial burst, and the next call reports EOF. */
  lemma ScenarioTruncated(f: PacketFormat, c0: seq<bv8>, c1: seq<bv8>, tail: seq<bv8>,
                          clocks: u64, mem: seq<bv8>)
    requires ValidFormat(f) && f.size <= FILE_BUF_SIZE && |mem| == MEM_SIZE_BYTES
    requires |c0| == |c1| == f.size && |tail| < f.size
    requires f.fromBytes(c0) == AddrOf(0x100) && f.fromBytes(c1) == WordWriteOf(0x1234)
    ensures var o := NextOutcome(f, c0 + (c1 + tail), clocks, 0, mem);
      o.result == Success && o.nextOp == Some(MemOp(MemOpWrite, 0x200, 2)) && o.rest == tail &&
      NextOutcome(f, o.rest, o.clocks, o.nextAddr, o.mem).result == Eof &&
      NextOutcome(f, o.rest, o.clocks, o.nextAddr, o.mem).nextOp == None
  {
    var r1 := c1 + tail;
    var mem1 := mem[0x200 := 0x34][0x201 := 0x12];
    ChunkAddr(f, c0, r1, 0x100, InitialOp, clocks, 0, 0, mem);
    ChunkFirstWord(f, c1, tail, clocks, 0, mem);
    EndOfInput(f, tail, MemOp(MemOpWrite, 0x200, 2), clocks, 0, 0x101, mem1);
    EndOfInput(f, tail, InitialOp, clocks, 0, 0x101, mem1);
  }

  /** An empty trace ends the first call with EOF, changing nothing. */
  lemma ScenarioEmpty(f: PacketFormat, clocks: u64, nextAddr: u32, mem: seq<bv8>)
    requires ValidFormat(f) && |mem| == MEM_SIZE_BYTES
    ensures NextOutcome(f, [], clocks, nextAddr, mem) == Outcome(Eof, None, [], 0, clocks, nextAddr, mem)
  {
  }

  /** A bad checksum after a word packet: the call reports CHECKSUM, but the
      word packet's two stores have already happened. */
  lemma ScenarioChecksumAfterWord(f: PacketFormat, c0: seq<bv8>, c1: seq<bv8>, tail: seq<bv8>,
                                  clocks: u64, mem: seq<bv8>, bad: MemPacket)
    requires ValidFormat(f) && f.size <= FILE_BUF_SIZE && |mem| == MEM_SIZE_BYTES
    requires |c0| == |c1| == f.size
    requires f.fromBytes(c0) == WordWriteOf(0x1234) && f.fromBytes(c1) == bad
    requires bad.aligned && !bad.checksumCorrect
    ensures var o := NextOutcome(f, c0 + (c1 + tail), clocks, 0x100, mem);
      o.result == ErrChecksum && o.nextOp == None &&
      o.mem == mem[0x200 := 0x34][0x201 := 0x12]
  {
    var r1 := c1 + tail;
    SplitFirst(f, c1, tail);
    ChunkFirstWord(f, c0, r1, clocks, 0, mem);
    BadChecksum(f, r1, MemOp(MemOpWrite, 0x200, 2), clocks, 0, 0x101, mem[0x200 := 0x34][0x201 := 0x12]);
  }

  /** A width-mixing error still fills in the operation: a word packet then
      a lower-lane byte packet reports BADBURST together with the two-byte
      burst. */
  lemma ScenarioWidthMix(f: PacketFormat, c0: seq<bv8>, c1: seq<bv8>, tail: seq<bv8>,
                         clocks: u64, mem: seq<bv8>)
    requires ValidFormat(f) && f.size <= FILE_BUF_SIZE && |mem| == MEM_SIZE_BYTES
    requires |c0| == |c1| == f.size
    requires f.fromBytes(c0) == WordWriteOf(0x1234)
    requires f.fromBytes(c1) == MemPacket(true, true, 0, PktWrite, 0, false, true, 0x5678)
    ensures var o := NextOutcome(f, c0 + (c1 + tail), clocks, 0x100, mem);
      o.result == ErrBadBurst && o.nextOp == Some(MemOp(MemOpWrite, 0x200, 2)) &&
      o.nextAddr == 0x102 && o.mem == mem[0x200 := 0x34][0x201 := 0x12]
  {
    var r1 := c1 + tail;
    SplitFirst(f, c1, tail);
    ChunkFirstWord(f, c0, r1, clocks, 0, mem);
    WidthMix(f, r1, MemOp(MemOpWrite, 0x200, 2), clocks, 0, 0x101, mem[0x200 := 0x34][0x201 := 0x12]);
  }

  // ---------------------------------------------------------------------
  // MemTrace_ErrorString (memtrace.c:285-301)

  /** The table is in the order of the MemTraceResult values. */
  lemma ErrorStringOrder(r: MemTraceResult)
    ensures MemTrace.ErrorStrings[ResultCode(r)] == MemTrace.Message(r)
    ensures MemTrace.ErrorString(ResultCode(r)) == MemTrace.Message(r)
  {
    ResultCodeRoundTrip(r, 0);
  }

  /** Different results have different messages, none of them the unknown
      error string. */
  lemma MessagesDistinct(r1: MemTraceResult, r2: MemTraceResult)
    ensures MemTrace.Message(r1) == MemTrace.Message(r2) ==> r1 == r2
    ensures MemTrace.Message(r1) != MemTrace.UnknownError
  {
  }

  /** The source's `>` bound agrees with the intended one except at 5, the
      first code past the table, where it reads out of bounds. */
  lemma ErrorStringAsWrittenDiffers(code: int)
    ensures code != 5 ==> MemTrace.ErrorStringAsWritten(code) == Some(MemTrace.ErrorString(code))
    ensures MemTrace.ErrorStringAsWritten(5).None?
    ensures MemTrace.ErrorString(5) == MemTrace.UnknownError
  {
  }
}
