/** The arithmetic the executor does on 32-bit values: overlapping byte and
    word views of a register, written by mask-and-or on the one 32-bit value,
    little-endian reads of immediates, and the sign extension of a jump
    displacement. */
module Bits {

  /** An unsigned 32-bit value held as an integer (the type of `eip`). */
  type U32 = x: int | 0 <= x < 0x1_0000_0000

  /** Conversion of an integer to `uint32_t`: reduction modulo 2^32. */
  function Wrap32(x: int): (r: U32)
    ensures r == x <==> 0 <= x < 0x1_0000_0000
  {
    x % 0x1_0000_0000
  }

  /** AL, CL, DL, BL: bits 0-7. */
  function Low8(r: bv32): bv8
  {
    (r & 0xFF) as bv8
  }

  /** AH, CH, DH, BH: bits 8-15. */
  function High8(r: bv32): bv8
  {
    ((r >> 8) & 0xFF) as bv8
  }

  /** AX, CX, ..., DI: bits 0-15. */
  function Low16(r: bv32): bv16
  {
    (r & 0xFFFF) as bv16
  }

  /** `r &= 0xffffff00; r |= v`: only bits 0-7 change, and they become `v`. */
  function SetLow8(r: bv32, v: bv8): (w: bv32)
    ensures Low8(w) == v
    ensures w & 0xFFFF_FF00 == r & 0xFFFF_FF00
  {
    (r & 0xFFFF_FF00) | v as bv32
  }

  /** `r &= 0xffff00ff; r |= v << 8`: only bits 8-15 change, and they become `v`. */
  function SetHigh8(r: bv32, v: bv8): (w: bv32)
    ensures High8(w) == v
    ensures w & 0xFFFF_00FF == r & 0xFFFF_00FF
  {
    (r & 0xFFFF_00FF) | (v as bv32 << 8)
  }

  /** `r &= 0xffff0000; r |= v`: only bits 0-15 change, and they become `v`;
      the upper half of the register is preserved. */
  function SetLow16(r: bv32, v: bv16): (w: bv32)
    ensures Low16(w) == v
    ensures w & 0xFFFF_0000 == r & 0xFFFF_0000
  {
    (r & 0xFFFF_0000) | v as bv32
  }

  /** A 16-bit word stored little-endian at two consecutive bytes. */
  function LittleEndian16(b0: bv8, b1: bv8): (w: bv16)
    ensures (w & 0xFF) as bv8 == b0 && (w >> 8) as bv8 == b1
  {
    b0 as bv16 | (b1 as bv16 << 8)
  }

  /** A 32-bit word stored little-endian at four consecutive bytes. */
  function LittleEndian32(b0: bv8, b1: bv8, b2: bv8, b3: bv8): (w: bv32)
    ensures Low8(w) == b0 && High8(w) == b1
    ensures ((w >> 16) & 0xFF) as bv8 == b2 && (w >> 24) as bv8 == b3
  {
    b0 as bv32 | (b1 as bv32 << 8) | (b2 as bv32 << 16) | (b3 as bv32 << 24)
  }

  /** The value of a byte read as `int8_t`: the two's-complement integer in
      [-128, 128) congruent to it modulo 256. */
  function SignExtend8(d: bv8): (v: int)
    ensures -128 <= v < 128
    ensures (v + 256) % 256 == d as int
  {
    if d < 0x80 then d as int else d as int - 256
  }

  /** `eip += (int8_t)d + 2` on a `uint32_t` instruction pointer. */
  function JumpTarget(eip: U32, d: bv8): (t: U32)
    ensures (t - (eip + 2 + SignExtend8(d))) % 0x1_0000_0000 == 0
  {
    Wrap32(eip + SignExtend8(d) + 2)
  }

  /** Displacement 0xFE (-2) jumps back onto the jump itself. */
  lemma JumpSelfLoop(eip: U32)
    ensures JumpTarget(eip, 0xFE) == eip
  {
  }

  /** Away from the ends of the 32-bit range a short jump moves `eip` by
      exactly the signed displacement plus the instruction's two bytes, so
      it reaches 127 bytes forward and 128 back from the next instruction. */
  lemma JumpReach(eip: U32, d: bv8)
    requires 126 <= eip < 0x1_0000_0000 - 129
    ensures JumpTarget(eip, d) == eip + 2 + SignExtend8(d)
    ensures eip - 126 <= JumpTarget(eip, d) <= eip + 129
  {
  }
}
