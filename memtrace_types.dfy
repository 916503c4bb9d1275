/** Types and constants of the memory-trace decoder (decoder/memtrace.h).

    The C fields are fixed-width unsigned integers. They are modelled as
    bounded `int` subset types, and every operation that can wrap in C is
    written out as an explicit reduction modulo 2^32 or 2^64. */
module MemTraceTypes {

  datatype Option<+T> = None | Some(value: T)

  const TWO_32: nat := 0x1_0000_0000
  const TWO_64: nat := 0x1_0000_0000_0000_0000

  type u32 = x: int | 0 <= x < 0x1_0000_0000
  type u64 = x: int | 0 <= x < 0x1_0000_0000_0000_0000

  /** `uint32_t` addition, which wraps around. */
  function Add32(a: u32, b: u32): (r: u32)
    ensures a + b < TWO_32 ==> r == a + b
    ensures a + b >= TWO_32 ==> r == a + b - TWO_32
  {
    (a + b) % TWO_32
  }

  /** `uint32_t` left shift by one: the word-to-byte address conversion. */
  function Shl1(a: u32): (r: u32)
    ensures a < TWO_32 / 2 ==> r == 2 * a
    ensures a >= TWO_32 / 2 ==> r == 2 * a - TWO_32
  {
    (2 * a) % TWO_32
  }

  /** `uint64_t` addition, which wraps around. */
  function Add64(a: u64, b: u64): (r: u64)
    ensures a + b < TWO_64 ==> r == a + b && r >= a
    ensures a + b >= TWO_64 ==> r == a + b - TWO_64 && r < a
  {
    (a + b) % TWO_64
  }

  /** A natural number reduced modulo 2^64, by repeated subtraction; it is
      the value a `uint64_t` accumulator holds after adding up to `x`. */
  function Wrap64(x: nat): (r: u64)
    decreases x
  {
    if x < TWO_64 then x else Wrap64(x - TWO_64)
  }

  lemma {:induction false} Wrap64IsRemainder(x: nat)
    ensures Wrap64(x) == x % TWO_64
    decreases x
  {
    if x >= TWO_64 {
      Wrap64IsRemainder(x - TWO_64);
    }
  }

  /** One `uint64_t` addition is one reduction. */
  lemma Add64IsWrap(a: u64, b: u64)
    ensures Add64(a, b) == Wrap64(a + b)
  {
    if a + b >= TWO_64 {
      assert Wrap64(a + b) == Wrap64(a + b - TWO_64);
    }
  }

  /** Reducing a partial sum first does not change the final value: two
      wrapped additions are one. */
  lemma {:induction false} Wrap64OfWrap(a: nat, b: nat)
    ensures Wrap64(Wrap64(a) + b) == Wrap64(a + b)
    decreases a
  {
    if a >= TWO_64 {
      Wrap64OfWrap(a - TWO_64, b);
      assert Wrap64(a + b) == Wrap64(a - TWO_64 + b);
    }
  }

  // ---------------------------------------------------------------------
  // Shadow memory and read-ahead buffer sizes

  /** MEM_SIZE_BYTES: 16 MiB of shadow memory. */
  const MEM_SIZE_BYTES: nat := 16 * 1024 * 1024

  /** MEM_MASK = MEM_SIZE_BYTES - 1, as a 32-bit value. */
  const MEM_MASK: bv32 := 0xFF_FFFF

  /** The capacity of `fileBuf`. */
  const FILE_BUF_SIZE: nat := 64 * 1024

  /** MEM_SIZE_BYTES is 2^24, so masking keeps exactly the low 24 bits. */
  lemma MemSizeIsPowerOfTwo()
    ensures MEM_SIZE_BYTES == 0x100_0000
    ensures MEM_MASK as int == MEM_SIZE_BYTES - 1
    ensures TWO_32 % MEM_SIZE_BYTES == 0
  {
  }

  /** For every 32-bit value, `x & MEM_MASK` is `x % MEM_SIZE_BYTES`: this is
      what lets the model reduce addresses with `%`. */
  lemma MaskIsRemainder(x: bv32)
    ensures x & MEM_MASK == x % 0x100_0000
  {
  }

  /** `MEM_MASK & x` for a 32-bit `x`, written arithmetically (see
      MaskIsRemainder); the result always indexes shadow memory. */
  function MaskIndex(x: u32): (i: nat)
    ensures i < MEM_SIZE_BYTES
  {
    x % MEM_SIZE_BYTES
  }

  /** Masking a wrapped 32-bit sum loses nothing: 2^24 divides 2^32, so the
      result is the unbounded sum reduced modulo the memory size. */
  lemma {:induction false} MaskOfAdd32(a: u32, b: u32)
    ensures MaskIndex(Add32(a, b)) == (a + b) % MEM_SIZE_BYTES
  {
    var s := a + b;
    if s >= TWO_32 {
      assert Add32(a, b) == s - TWO_32;
      assert TWO_32 == 256 * MEM_SIZE_BYTES;
      ModShift(s - TWO_32, 256);
    }
  }

  /** Adding a multiple of the memory size does not change the remainder. */
  lemma {:induction false} ModShift(x: nat, k: nat)
    ensures (x + k * MEM_SIZE_BYTES) % MEM_SIZE_BYTES == x % MEM_SIZE_BYTES
  {
    if k > 0 {
      ModShift(x, k - 1);
      assert x + k * MEM_SIZE_BYTES == (x + (k - 1) * MEM_SIZE_BYTES) + MEM_SIZE_BYTES;
    }
  }

  // ---------------------------------------------------------------------
  // Byte lanes of a 16-bit bus word

  /** `word & 0xFF`: the lower byte lane. */
  function LowByte(w: bv16): (b: bv8)
    ensures b as bv16 == w % 256
  {
    (w & 0xFF) as bv8
  }

  /** `word >> 8`: the upper byte lane. */
  function HighByte(w: bv16): (b: bv8)
    ensures b as bv16 == w / 256
  {
    (w >> 8) as bv8
  }

  /** The two lanes together are the word: no bit is lost or duplicated. */
  lemma LanesRecombine(w: bv16)
    ensures ((HighByte(w) as bv16) << 8) | (LowByte(w) as bv16) == w
  {
  }

  // ---------------------------------------------------------------------
  // MemOp (decoder/memtrace.h:37-47)

  /** MemOpType; `MemOpInvalid` comes first, so it is the zero value. */
  datatype MemOpType = MemOpInvalid | MemOpRead | MemOpWrite

  /** The C enumerator value of each operation type. */
  function MemOpTypeCode(t: MemOpType): (c: nat)
    ensures c < 3
    ensures c == 0 <==> t == MemOpInvalid
  {
    match t
    case MemOpInvalid => 0
    case MemOpRead => 1
    case MemOpWrite => 2
  }

  /** One memory operation: a burst covering `length` bytes starting at byte
      address `addr` (both in bytes, both `uint32_t`). */
  datatype MemOp = MemOp(kind: MemOpType, addr: u32, length: u32)

  // ---------------------------------------------------------------------
  // MemTraceResult (decoder/memtrace.h:81-87)

  datatype MemTraceResult = Success | Eof | ErrSync | ErrChecksum | ErrBadBurst

  /** The C enumerator value of each result. */
  function ResultCode(r: MemTraceResult): (c: int)
    ensures 0 <= c < 5
    ensures c == 0 <==> r == Success
  {
    match r
    case Success => 0
    case Eof => 1
    case ErrSync => 2
    case ErrChecksum => 3
    case ErrBadBurst => 4
  }

  /** The result a C enumerator value denotes, if any. */
  function ResultOfCode(c: int): (r: Option<MemTraceResult>)
    ensures r.Some? <==> 0 <= c < 5
  {
    if c == 0 then Some(Success)
    else if c == 1 then Some(Eof)
    else if c == 2 then Some(ErrSync)
    else if c == 3 then Some(ErrChecksum)
    else if c == 4 then Some(ErrBadBurst)
    else None
  }

  /** The enumerator values are a bijection between the results and 0..4. */
  lemma ResultCodeRoundTrip(r: MemTraceResult, c: int)
    ensures ResultOfCode(ResultCode(r)) == Some(r)
    ensures 0 <= c < 5 ==> ResultCode(ResultOfCode(c).value) == c
  {
  }
}
