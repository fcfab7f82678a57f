/** Opcode bytes the decoder dispatches on, and the decoding of a byte into an
    instruction family. Encodings follow the Intel 64 and IA-32 Architectures
    Software Developer's Manual, Volume 2: `90` NOP, `66` operand-size prefix
    (Volume 2A section 2.1.1), `B0+rb ib` MOV r8, imm8, `B8+rd` MOV r16/r32,
    `CD ib` INT, `EB cb` JMP rel8 and `F4` HLT. */
module Opcodes {

  const OPCODE_OPSIZE: bv8 := 0x66
  const OPCODE_NOP: bv8 := 0x90

  const OPCODE_MOV_AL_DATA: bv8 := 0xB0
  const OPCODE_MOV_CL_DATA: bv8 := 0xB1
  const OPCODE_MOV_DL_DATA: bv8 := 0xB2
  const OPCODE_MOV_BL_DATA: bv8 := 0xB3
  const OPCODE_MOV_AH_DATA: bv8 := 0xB4
  const OPCODE_MOV_CH_DATA: bv8 := 0xB5
  const OPCODE_MOV_DH_DATA: bv8 := 0xB6
  const OPCODE_MOV_BH_DATA: bv8 := 0xB7

  const OPCODE_MOV_EAX_DATA: bv8 := 0xB8
  const OPCODE_MOV_ECX_DATA: bv8 := 0xB9
  const OPCODE_MOV_EDX_DATA: bv8 := 0xBA
  const OPCODE_MOV_EBX_DATA: bv8 := 0xBB
  const OPCODE_MOV_ESP_DATA: bv8 := 0xBC
  const OPCODE_MOV_EBP_DATA: bv8 := 0xBD
  const OPCODE_MOV_ESI_DATA: bv8 := 0xBE
  const OPCODE_MOV_EDI_DATA: bv8 := 0xBF

  const OPCODE_INT: bv8 := 0xCD
  const OPCODE_JMP_REL8: bv8 := 0xEB
  const OPCODE_HLT: bv8 := 0xF4

  /** The byte-register moves in the order the header lists them:
      AL, CL, DL, BL, AH, CH, DH, BH. */
  const MOV_R8_OPCODES: seq<bv8> := [
    OPCODE_MOV_AL_DATA, OPCODE_MOV_CL_DATA, OPCODE_MOV_DL_DATA, OPCODE_MOV_BL_DATA,
    OPCODE_MOV_AH_DATA, OPCODE_MOV_CH_DATA, OPCODE_MOV_DH_DATA, OPCODE_MOV_BH_DATA]

  /** The register moves in the order the header lists them:
      EAX, ECX, EDX, EBX, ESP, EBP, ESI, EDI. */
  const MOV_R32_OPCODES: seq<bv8> := [
    OPCODE_MOV_EAX_DATA, OPCODE_MOV_ECX_DATA, OPCODE_MOV_EDX_DATA, OPCODE_MOV_EBX_DATA,
    OPCODE_MOV_ESP_DATA, OPCODE_MOV_EBP_DATA, OPCODE_MOV_ESI_DATA, OPCODE_MOV_EDI_DATA]

  /** Every opcode constant of the header, each once. */
  const ALL_OPCODES: seq<bv8> :=
    [OPCODE_OPSIZE, OPCODE_NOP] + MOV_R8_OPCODES + MOV_R32_OPCODES
    + [OPCODE_INT, OPCODE_JMP_REL8, OPCODE_HLT]

  /** An instruction family: `rb` and `rd` are the register numbers the
      opcode carries in its low three bits. */
  datatype Instr =
    | Nop
    | OperandSize
    | MovR8(rb: nat)
    | MovR32(rd: nat)
    | Int
    | JmpRel8
    | Hlt
    | Unsupported

  /** Families that have an opcode byte. */
  predicate Encodable(k: Instr)
  {
    match k
    case MovR8(rb) => rb < 8
    case MovR32(rd) => rd < 8
    case Unsupported => false
    case _ => true
  }

  /** The opcode byte of a family, read off the header's constants. */
  function Encode(k: Instr): bv8
    requires Encodable(k)
  {
    match k
    case Nop => OPCODE_NOP
    case OperandSize => OPCODE_OPSIZE
    case MovR8(rb) => MOV_R8_OPCODES[rb]
    case MovR32(rd) => MOV_R32_OPCODES[rd]
    case Int => OPCODE_INT
    case JmpRel8 => OPCODE_JMP_REL8
    case Hlt => OPCODE_HLT
  }

  /** The `switch` on the fetched byte: register moves are recognised by
      their Intel encoding `B0+rb` and `B8+rd`; every byte that is not one of
      the header's constants is Unsupported, and every other byte decodes to
      the family whose header constant it is. */
  function Decode(op: bv8): (k: Instr)
    ensures k == Unsupported <==> op !in ALL_OPCODES
    ensures k != Unsupported ==> Encodable(k) && Encode(k) == op
  {
    if op == OPCODE_NOP then Nop
    else if op == OPCODE_OPSIZE then OperandSize
    else if 0xB0 <= op < 0xB8 then MovR8((op - 0xB0) as nat)
    else if 0xB8 <= op <= 0xBF then MovR32((op - 0xB8) as nat)
    else if op == OPCODE_INT then Int
    else if op == OPCODE_JMP_REL8 then JmpRel8
    else if op == OPCODE_HLT then Hlt
    else Unsupported
  }

  /** Decoding undoes encoding, so the header's byte-register order is the
      Intel `B0+rb` order (0-3 the low bytes AL, CL, DL, BL, 4-7 the high
      bytes AH, CH, DH, BH) and its register order is the `B8+rd` order. */
  lemma DecodeEncode(k: Instr)
    requires Encodable(k)
    ensures Decode(Encode(k)) == k
  {
    match k
    case MovR8(rb) =>
      assert rb in {0, 1, 2, 3, 4, 5, 6, 7};
    case MovR32(rd) =>
      assert rd in {0, 1, 2, 3, 4, 5, 6, 7};
    case _ =>
  }

  /** The 21 constants are pairwise distinct, so the dispatch is unambiguous;
      the prefix byte lies outside both register-move ranges. */
  lemma OpcodesDistinct()
    ensures |ALL_OPCODES| == 21
    ensures forall i, j :: 0 <= i < j < |ALL_OPCODES| ==> ALL_OPCODES[i] != ALL_OPCODES[j]
    ensures !(0xB0 <= OPCODE_OPSIZE <= 0xBF)
  {
  }

  /** Bytes an instruction occupies, counting the opcode: this is how far
      the decoder reads from `eip`. */
  function Extent(k: Instr, prefixed: bool): (n: nat)
    ensures 1 <= n <= 5
  {
    match k
    case MovR8(_) => 2
    case MovR32(_) => if prefixed then 5 else 3
    case Int => 2
    case JmpRel8 => 2
    case _ => 1
  }
}
