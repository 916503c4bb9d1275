/** The decoder library (decoder/memtrace.c) over its state record
    MemTraceState (decoder/memtrace.h:57-74).

    The trace file is a byte sequence with a stdio read position; `fread`
    behaves as on a regular file (it returns as many bytes as are asked for,
    or as remain). Everything else is the C code's own state: the 64 KiB
    read-ahead window with its head and tail, the absolute stream offset, the
    clock, the predicted next word address and the 16 MiB shadow memory. */
module MemTrace {
  import opened MemTraceTypes
  import opened MemTraceFmt
  import opened MemTraceSpec

  class MemTraceState {
    /** The packet layout of the capture hardware (memtrace_fmt.h). */
    const fmt: PacketFormat

    /** The trace file, and the position of the stdio stream in it. */
    const file: seq<bv8>
    var streamPos: nat

    /** timestamp.clocks (timestamp.seconds is not modelled). */
    var clocks: u64
    /** Absolute offset of the next unconsumed byte of the trace. */
    var fileOffset: u64
    /** Shadow memory. */
    const memory: array<bv8>
    /** The read-ahead window: fileBuf[fileBufHead..fileBufTail] is
        buffered and not yet consumed. */
    var fileBufHead: nat
    var fileBufTail: nat
    const fileBuf: array<bv8>
    /** The predicted address of the next data packet, in words. */
    var nextAddr: u32

    /** The state invariant: the array sizes of memtrace.h, the assertion
        `fileBufHead <= fileBufTail` of memtrace.c:85 and :125, and the
        buffered bytes being exactly the trace bytes between the consumed
        offset and the stdio position. */
    ghost predicate Valid()
      reads this, fileBuf
    {
      && ValidFormat(fmt)
      && memory.Length == MEM_SIZE_BYTES
      && fileBuf.Length == FILE_BUF_SIZE
      && memory != fileBuf
      && fileBufHead <= fileBufTail <= FILE_BUF_SIZE
      && |file| < TWO_64
      && fileOffset + (fileBufTail - fileBufHead) == streamPos <= |file|
      && fileBuf[fileBufHead..fileBufTail] == file[fileOffset..streamPos]
    }

    /** The bytes of the trace not yet consumed by a successful read. */
    ghost function Remaining(): (s: seq<bv8>)
      reads this
      requires fileOffset <= |file|
    {
      file[fileOffset..]
    }

    /** MemTrace_Open on an opened file: every field zero (memtrace.c:51). */
    constructor Open(file: seq<bv8>, fmt: PacketFormat)
      requires ValidFormat(fmt) && |file| < TWO_64
      ensures Valid() && fresh(memory) && fresh(fileBuf)
      ensures this.file == file && this.fmt == fmt && Remaining() == file
      ensures clocks == 0 && fileOffset == 0 && nextAddr == 0
      ensures fileBufHead == 0 && fileBufTail == 0 && streamPos == 0
      ensures forall i | 0 <= i < MEM_SIZE_BYTES :: memory[i] == 0
    {
      this.fmt := fmt;
      this.file := file;
      streamPos := 0;
      clocks := 0;
      fileOffset := 0;
      memory := new bv8[MEM_SIZE_BYTES](_ => 0);
      fileBufHead := 0;
      fileBufTail := 0;
      fileBuf := new bv8[FILE_BUF_SIZE](_ => 0);
      nextAddr := 0;
    }

    // -------------------------------------------------------------------
    // MemTraceReadBuffered (memtrace.c:79-128)

    /** `fileBufTail -= fileBufHead; memmove(...); fileBufHead = 0`: the
        unread bytes move to the front of the window, in order. */
    method Relocate()
      requires Valid()
      modifies this`fileBufHead, this`fileBufTail, fileBuf
      ensures Valid()
      ensures fileBufHead == 0 && fileBufTail == old(fileBufTail - fileBufHead)
      ensures fileBuf[..fileBufTail] == old(fileBuf[fileBufHead..fileBufTail])
    {
      var head := fileBufHead;
      fileBufTail := fileBufTail - fileBufHead;
      var i := 0;
      while i < fileBufTail
        invariant 0 <= i <= fileBufTail
        invariant fileBufHead == head && fileBufTail == old(fileBufTail) - head
        invariant forall j | 0 <= j < i :: fileBuf[j] == old(fileBuf[head + j])
        invariant forall j | i <= j < FILE_BUF_SIZE :: fileBuf[j] == old(fileBuf[j])
      {
        fileBuf[i] := fileBuf[head + i];
        i := i + 1;
      }
      fileBufHead := 0;
      assert fileBuf[..fileBufTail] == old(fileBuf[fileBufHead..fileBufTail]);
    }

    /** `fread(fileBuf + dst, 1, max, file)`: copies the next bytes of the
        trace into the window; on a regular file it returns `max` bytes, or
        all that remain if fewer. */
    method Fread(dst: nat, max: nat) returns (n: nat)
      requires dst + max <= fileBuf.Length && streamPos <= |file|
      modifies this`streamPos, fileBuf
      ensures n <= max && old(streamPos) + n <= |file|
      ensures n == max || old(streamPos) + n == |file|
      ensures streamPos == old(streamPos) + n
      ensures fileBuf[..dst] == old(fileBuf[..dst])
      ensures fileBuf[dst..dst + n] == file[old(streamPos)..streamPos]
    {
      var pos := streamPos;
      n := if max <= |file| - pos then max else |file| - pos;
      var i := 0;
      while i < n
        invariant 0 <= i <= n
        invariant streamPos == pos
        invariant forall j | 0 <= j < dst :: fileBuf[j] == old(fileBuf[j])
        invariant forall k | dst <= k < dst + i :: fileBuf[k] == file[pos + (k - dst)]
      {
        fileBuf[dst + i] := file[pos + i];
        i := i + 1;
      }
      assert fileBuf[dst..dst + n] == file[pos..pos + n];
      streamPos := pos + n;
    }

    /** Lines 92-105: compact the window, then fill the rest of it from the
        file. The unread stream is unchanged, and afterwards the window holds
        as much of it as fits. `n` is what fread returned. */
    method Refill() returns (n: nat)
      requires Valid()
      modifies this`fileBufHead, this`fileBufTail, this`streamPos, fileBuf
      ensures Valid() && fileOffset == old(fileOffset)
      ensures fileBufHead == 0
      ensures n == 0 ==> fileBufTail == old(fileBufTail - fileBufHead)
      ensures fileBufTail == if |file| - fileOffset < FILE_BUF_SIZE then |file| - fileOffset else FILE_BUF_SIZE
    {
      Relocate();
      ghost var buffered := fileBuf[..fileBufTail];
      n := Fread(fileBufTail, FILE_BUF_SIZE - fileBufTail);
      if n < 1 {
        return;
      }
      assert fileBuf[..fileBufTail + n] == buffered + fileBuf[fileBufTail..fileBufTail + n];
      fileBufTail := fileBufTail + n;
      assert file[fileOffset..streamPos] == file[fileOffset..streamPos - n] + file[streamPos - n..streamPos];
    }

    /** Lines 119-122: copy the first `size` buffered bytes out. */
    method CopyOut(bytes: array<bv8>, size: nat)
      requires bytes != fileBuf && size <= bytes.Length
      requires fileBufHead + size <= fileBufTail <= fileBuf.Length
      modifies bytes
      ensures bytes[..size] == fileBuf[fileBufHead..fileBufHead + size]
      ensures bytes[size..] == old(bytes[size..])
    {
      var i := 0;
      while i < size
        invariant 0 <= i <= size
        invariant forall j | 0 <= j < i :: bytes[j] == fileBuf[fileBufHead + j]
        invariant forall j | size <= j < bytes.Length :: bytes[j] == old(bytes[j])
      {
        bytes[i] := fileBuf[fileBufHead + i];
        i := i + 1;
      }
      assert bytes[..size] == fileBuf[fileBufHead..fileBufHead + size];
      assert bytes[size..] == old(bytes[size..]);
    }

    /** Reads `size` bytes into `bytes`. It succeeds exactly when that many
        unread bytes exist and fit the window; then they are the next `size`
        bytes of the trace and the offset advances by `size`. On failure the
        offset and the unread stream are unchanged: compaction and refilling
        lose no byte. */
    method ReadBuffered(bytes: array<bv8>, size: nat) returns (ok: bool)
      requires Valid()
      requires bytes != fileBuf && size <= bytes.Length
      requires size + FILE_BUF_SIZE < TWO_32
      modifies this`fileBufHead, this`fileBufTail, this`fileOffset, this`streamPos, fileBuf, bytes
      ensures Valid()
      ensures ok <==> CanRead(size, old(Remaining()))
      ensures ok ==> bytes[..size] == old(Remaining())[..size]
      ensures ok ==> fileOffset == old(fileOffset) + size && Remaining() == old(Remaining())[size..]
      ensures ok ==> fileBufHead == (if old(size + fileBufHead > fileBufTail) then 0 else old(fileBufHead)) + size
      ensures !ok ==> fileOffset == old(fileOffset) && Remaining() == old(Remaining())
      ensures bytes[size..] == old(bytes[size..])
    {
      if size + fileBufHead > fileBufTail {
        // Not enough data in the window.
        var n := Refill();
        if n < 1 {
          // Nothing to read.
          return false;
        }
      }

      if size + fileBufHead > fileBufTail {
        // Something was read, but not enough.
        return false;
      }

      CopyOut(bytes, size);
      assert bytes[..size] == fileBuf[fileBufHead..fileBufTail][..size]
                           == file[fileOffset..streamPos][..size]
                           == Remaining()[..size];
      assert fileBuf[fileBufHead..fileBufTail][size..] == fileBuf[fileBufHead + size..fileBufTail];
      fileBufHead := fileBufHead + size;
      fileOffset := fileOffset + size;
      return true;
    }

    // -------------------------------------------------------------------
    // MemTraceData (memtrace.c:241-276), with masked byte-wide stores

    /** Merges one READ/WRITE packet into the burst `op`, storing into
        shadow memory in place; the result is exactly DataMerge's. */
    method Data(op: MemOp, packet: MemPacket) returns (done: bool, op': MemOp, badBurst: bool)
      requires memory.Length == MEM_SIZE_BYTES
      modifies this`nextAddr, memory
      ensures var m := DataMerge(op, old(nextAddr), old(memory[..]), packet);
        done == m.done && badBurst == m.badBurst && op' == m.op &&
        nextAddr == m.nextAddr && memory[..] == m.mem
    {
      var ub := packet.upperByte;
      var lb := packet.lowerByte;
      var word := packet.word;
      var byteWide := !(ub && lb);
      op' := op;

      if op'.length == 0 {
        // Initial address
        op' := op'.(addr := Shl1(nextAddr));
      }

      nextAddr := Add32(nextAddr, 1);

      if byteWide && op'.length != 0 {
        // Byte and word access in the same burst
        return true, op', true;
      }

      if byteWide {
        if lb {
          memory[MaskIndex(Add32(op'.addr, op'.length))] := LowByte(word);
          op' := op'.(length := Add32(op'.length, 1));
        } else {
          op' := op'.(addr := Add32(op'.addr, 1));
          memory[MaskIndex(Add32(op'.addr, op'.length))] := HighByte(word);
          op' := op'.(length := Add32(op'.length, 1));
        }
        return true, op', false;
      }

      memory[MaskIndex(Add32(op'.addr, op'.length))] := LowByte(word);
      op' := op'.(length := Add32(op'.length, 1));
      memory[MaskIndex(Add32(op'.addr, op'.length))] := HighByte(word);
      op' := op'.(length := Add32(op'.length, 1));
      return false, op', false;
    }

    // -------------------------------------------------------------------
    // MemTrace_Next (memtrace.c:145-226)

    /** Lines 160-174: read one packet's bytes into a fresh local buffer and
        decode them. */
    method ReadPacket() returns (ok: bool, packetBytes: array<bv8>, packet: MemPacket)
      requires Valid()
      modifies this`fileBufHead, this`fileBufTail, this`fileOffset, this`streamPos, fileBuf
      ensures Valid() && fresh(packetBytes) && packetBytes.Length == fmt.size
      ensures ok <==> CanRead(fmt.size, old(Remaining()))
      ensures ok ==> packet == FirstPacket(fmt, old(Remaining())) && Remaining() == old(Remaining())[fmt.size..]
      ensures !ok ==> Remaining() == old(Remaining())
    {
      packetBytes := new bv8[fmt.size];
      ok := ReadBuffered(packetBytes, fmt.size);
      packet := fmt.fromBytes(packetBytes[..]);
      assert ok ==> packetBytes[..] == old(Remaining())[..fmt.size];
    }

    /** One iteration of the loop of MemTrace_Next (lines 160-225), given
        the burst `op` so far and the ghost sum `ticks` of the durations read
        so far in this call. When `stop` holds the call returns `result` and
        copies `nextOp`; otherwise the loop goes on with `op'` and `ticks'`.
        Either way the step is exactly PacketStep's. */
    method Iteration(op: MemOp, ghost ticks: nat)
      returns (stop: bool, result: MemTraceResult, nextOp: Option<MemOp>, op': MemOp, ghost ticks': nat)
      requires Valid()
      modifies this`fileBufHead, this`fileBufTail, this`fileOffset, this`streamPos, this`clocks,
        this`nextAddr, fileBuf, memory
      ensures Valid()
      ensures var s := PacketStep(fmt, old(Remaining()), op, old(clocks), ticks, old(nextAddr), old(memory[..]));
        if stop then s == Done(Outcome(result, nextOp, Remaining(), ticks', clocks, nextAddr, memory[..]))
        else s == Continue(Remaining(), op', clocks, ticks', nextAddr, memory[..])
    {
      op' := op;
      ticks' := ticks;
      var ok, packetBytes, packet := ReadPacket();
      if !ok {
        // At end of input in the middle of a burst, flush the burst.
        if op.length != 0 {
          return true, Success, Some(op), op, ticks;
        }
        return true, Eof, None, op, ticks;
      }

      if !packet.aligned {
        // Discard one byte, in case that restores alignment.
        ok := ReadBuffered(packetBytes, 1);
        if !ok {
          return true, Eof, None, op, ticks;
        }
        return true, ErrSync, None, op, ticks;
      }

      if !packet.checksumCorrect {
        return true, ErrChecksum, None, op, ticks;
      }

      clocks := Add64(clocks, packet.duration);
      ticks' := ticks + packet.duration;
      stop, result, nextOp := false, Success, None;

      match packet.kind {
        case PktAddr =>
          // An address ends the burst; it is kept for the next one.
          nextAddr := packet.payload;
          if op.length != 0 {
            stop, nextOp := true, Some(op);
          }
        case PktRead =>
          if op.kind == MemOpWrite {
            return true, ErrBadBurst, None, op, ticks';
          }
          var done, badBurst;
          done, op', badBurst := Data(op.(kind := MemOpRead), packet);
          if done {
            stop, nextOp := true, Some(op');
            if badBurst {
              result := ErrBadBurst;
            }
          }
        case PktWrite =>
          if op.kind == MemOpRead {
            return true, ErrBadBurst, None, op, ticks';
          }
          var done, badBurst;
          done, op', badBurst := Data(op.(kind := MemOpWrite), packet);
          if done {
            stop, nextOp := true, Some(op');
            if badBurst {
              result := ErrBadBurst;
            }
          }
        case PktOther =>
      }
    }

    /** Advances to the next memory operation. `nextOp` is what the call
        copies to `*nextOp` (None: nothing is copied). The result, the
        operation, the unread stream, the clock, the next word address and
        shadow memory are exactly those of NextOutcome. */
    method Next() returns (result: MemTraceResult, nextOp: Option<MemOp>)
      requires Valid()
      modifies this, fileBuf, memory
      ensures Valid()
      ensures var o := NextOutcome(fmt, old(Remaining()), old(clocks), old(nextAddr), old(memory[..]));
        result == o.result && nextOp == o.nextOp && Remaining() == o.rest &&
        clocks == o.clocks && nextAddr == o.nextAddr && memory[..] == o.mem
    {
      ghost var target := NextOutcome(fmt, Remaining(), clocks, nextAddr, memory[..]);
      ghost var ticks: nat := 0;
      var op := InitialOp;
      var stop := false;
      result, nextOp := Success, None;

      while !stop
        invariant Valid()
        invariant !stop ==> Run(fmt, Remaining(), op, clocks, ticks, nextAddr, memory[..]) == target
        invariant stop ==>
          target == Outcome(result, nextOp, Remaining(), ticks, clocks, nextAddr, memory[..])
        decreases if stop then 0 else |Remaining()| + 1
      {
        stop, result, nextOp, op, ticks := Iteration(op, ticks);
      }
    }
  }

  // ---------------------------------------------------------------------
  // MemTrace_ErrorString (memtrace.c:285-301)

  /** The string table, indexed by MemTraceResult value. */
  const ErrorStrings: seq<string> := [
    "Success",
    "End of file",
    "Packet synchronization error",
    "Packet checksum error",
    "Malformed read/write burst"
  ]

  const UnknownError: string := "(Unknown error)"

  /** What each result means, by name rather than by position. */
  function Message(r: MemTraceResult): (s: string)
    ensures s == ErrorStrings[ResultCode(r)]
  {
    match r
    case Success => "Success"
    case Eof => "End of file"
    case ErrSync => "Packet synchronization error"
    case ErrChecksum => "Packet checksum error"
    case ErrBadBurst => "Malformed read/write burst"
  }

  /** MemTrace_ErrorString with the bound check the table needs (`>=`):
      every result's code gives that result's message, and every other
      code the unknown-error string. */
  function ErrorString(code: int): (s: string)
    ensures ResultOfCode(code).Some? ==> s == Message(ResultOfCode(code).value)
    ensures ResultOfCode(code).None? ==> s == UnknownError
  {
    if code < 0 || code >= |ErrorStrings| then UnknownError else ErrorStrings[code]
  }

  /** MemTrace_ErrorString as written, with `result > 5` as the bound check.
      `None` stands for the read of `strings[5]`, one past the end of the
      table, which C leaves undefined. */
  function ErrorStringAsWritten(code: int): (s: Option<string>)
    ensures s.None? <==> code == |ErrorStrings|
  {
    if code < 0 || code > |ErrorStrings| then Some(UnknownError)
    else if code < |ErrorStrings| then Some(ErrorStrings[code])
    else None
  }
}
