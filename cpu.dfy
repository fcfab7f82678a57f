/** The machine state as a value and one step of the fetch-decode-execute
    loop as a function of it: the specification that the `Machine` class's
    `Step` method is proved against. The BIOS video service (INT 10h) is
    modelled here too, exactly as written, including its wrap test on the
    row instead of the column. */
module Cpu {
  import opened Bits
  import opened Opcodes

  /** 1 MiB of physical memory. */
  const MEM_SIZE: nat := 0x10_0000

  /** Where the boot sector is loaded and execution starts. The value is
      the source's (0x7c000), not the conventional 0x7C00. */
  const BOOTSECTOR_ADDR: nat := 0x7_C000

  /** The 80x25 text window: one character byte and one attribute byte per cell. */
  const TEXT_COLUMNS: nat := 80
  const TEXT_ROWS: nat := 25
  const TEXT_BYTES: nat := 80 * 25 * 2

  /** Register numbers in the `B8+rd` order. */
  const EAX: nat := 0
  const ECX: nat := 1
  const EDX: nat := 2
  const EBX: nat := 3
  const ESP: nat := 4
  const EBP: nat := 5
  const ESI: nat := 6
  const EDI: nat := 7

  /** The text window, which starts at VIDEO_MEMORY, lies inside memory. */
  predicate VideoFits(videoMemory: int)
  {
    0 <= videoMemory && videoMemory + TEXT_BYTES <= MEM_SIZE
  }

  /** Everything an instruction reads or writes: memory, the eight general
      registers in `B8+rd` order, `eip`, the one-shot operand-size flag
      `size`, the halt flag and the teletype cursor. */
  datatype State = State(
    mem: seq<bv8>,
    regs: seq<bv32>,
    eip: U32,
    size: bool,
    hlt: bool,
    curX: int,
    curY: int)
  {
    predicate WellFormed()
    {
      |mem| == MEM_SIZE && |regs| == 8
    }
  }

  /** The state the program starts from before the boot sector is loaded:
      zeroed memory and registers, cursor at the top left. */
  function Initial(): (s: State)
    ensures s.WellFormed()
  {
    State(seq(MEM_SIZE, _ => 0), seq(8, _ => 0), 0, false, false, 0, 0)
  }

  /** One step either continues with a new state or meets a byte that no
      case handles, which ends the run. */
  datatype StepResult = Continue(next: State) | Stopped(opcode: bv8)

  /** Byte offset of the teletype cursor's cell. */
  function CursorAddress(s: State, videoMemory: int): (a: int)
    ensures 0 <= s.curX < TEXT_COLUMNS && 0 <= s.curY < TEXT_ROWS && VideoFits(videoMemory) ==>
      videoMemory <= a && a + 2 <= videoMemory + TEXT_BYTES && (a - videoMemory) % 2 == 0
  {
    videoMemory + (s.curX + s.curY * 80) * 2
  }

  /** The two bytes the teletype service writes are inside memory (the
      source does not check this). */
  predicate TeletypeFits(s: State, videoMemory: int)
  {
    0 <= CursorAddress(s, videoMemory) && CursorAddress(s, videoMemory) + 1 < MEM_SIZE
  }

  /** INT 10h service AH = 0Eh, teletype output. */
  predicate SelectsTeletype(s: State): (ok: bool)
    requires s.WellFormed()
    ensures ok <==> (s.regs[EAX] & 0x0000_FF00) >> 8 == 0x0E
  {
    High8(s.regs[EAX]) == 0x0E
  }

  /** Teletype output: AL and the attribute 0x07 (light grey on black) go to
      the cursor cell and the column advances. The wrap test looks at the
      row, so while the row is below 80 the column only grows. */
  function Teletype(s: State, videoMemory: int): (t: State)
    requires s.WellFormed() && TeletypeFits(s, videoMemory)
    ensures t.WellFormed()
    ensures var a := CursorAddress(s, videoMemory);
      t.mem[a] == Low8(s.regs[EAX]) && t.mem[a + 1] == 0x07 &&
      forall i :: 0 <= i < MEM_SIZE && i != a && i != a + 1 ==> t.mem[i] == s.mem[i]
    ensures t.regs == s.regs && t.eip == s.eip && t.size == s.size && t.hlt == s.hlt
    ensures s.curY < 80 ==> t.curX == s.curX + 1 && t.curY == s.curY
    ensures s.curY >= 80 ==> t.curX == 0 && t.curY == s.curY + 1
  {
    var a := CursorAddress(s, videoMemory);
    var mem := s.mem[a := Low8(s.regs[EAX])][a + 1 := 0x07];
    if s.curY >= 80 then s.(mem := mem, curX := 0, curY := s.curY + 1)
    else s.(mem := mem, curX := s.curX + 1)
  }

  /** The INT 10h handler: dispatch on AH; every service but 0Eh does nothing. */
  function Int10h(s: State, videoMemory: int): (t: State)
    requires s.WellFormed() && (SelectsTeletype(s) ==> TeletypeFits(s, videoMemory))
    ensures t.WellFormed()
    ensures !SelectsTeletype(s) ==> t == s
  {
    if SelectsTeletype(s) then Teletype(s, videoMemory) else s
  }

  /** The current instruction, when not halted. */
  function Fetch(s: State): (k: Instr)
    requires s.WellFormed() && s.eip < MEM_SIZE
    ensures k != Unsupported ==> Encodable(k) && Encode(k) == s.mem[s.eip]
  {
    Decode(s.mem[s.eip])
  }

  /** The source reads the instruction's bytes and writes the teletype cell
      without bounds checks; this is the condition under which those
      accesses stay inside memory. */
  predicate CanStep(s: State, videoMemory: int): (ok: bool)
    requires s.WellFormed()
    ensures s.hlt ==> ok
    ensures !s.hlt && s.eip + 5 <= MEM_SIZE && TeletypeFits(s, videoMemory) ==> ok
    ensures !s.hlt && s.eip + 5 <= MEM_SIZE && !(s.mem[s.eip] == OPCODE_INT && s.mem[s.eip + 1] == 0x10) ==> ok
    ensures ok && !s.hlt ==> s.eip < MEM_SIZE
  {
    s.hlt ||
    (s.eip < MEM_SIZE
     && s.eip + Extent(Fetch(s), s.size) <= MEM_SIZE
     && (Fetch(s) == Int && s.mem[s.eip + 1] == 0x10 && SelectsTeletype(s)
         ==> TeletypeFits(s, videoMemory)))
  }

  /** One pass of the main loop's `if(!hlt) switch(memory[eip])`. */
  function Next(s: State, videoMemory: int): (r: StepResult)
    requires s.WellFormed() && CanStep(s, videoMemory)
    ensures r.Continue? ==> r.next.WellFormed()
    ensures r.Stopped? <==> !s.hlt && Fetch(s) == Unsupported
    ensures r.Stopped? ==> r.opcode == s.mem[s.eip] && r.opcode !in ALL_OPCODES
  {
    if s.hlt then Continue(s)
    else
      var pc := s.eip;
      match Fetch(s)
      case Nop =>
        Continue(s.(eip := Wrap32(pc + 1)))
      case OperandSize =>
        Continue(s.(size := true, eip := Wrap32(pc + 1)))
      case MovR8(rb) =>
        var r := rb % 4;
        var v := s.mem[pc + 1];
        var w := if rb < 4 then SetLow8(s.regs[r], v) else SetHigh8(s.regs[r], v);
        Continue(s.(regs := s.regs[r := w], eip := Wrap32(pc + 2)))
      case MovR32(rd) =>
        if !s.size then
          var v := LittleEndian16(s.mem[pc + 1], s.mem[pc + 2]);
          Continue(s.(regs := s.regs[rd := SetLow16(s.regs[rd], v)], eip := Wrap32(pc + 3)))
        else
          var v := LittleEndian32(s.mem[pc + 1], s.mem[pc + 2], s.mem[pc + 3], s.mem[pc + 4]);
          Continue(s.(regs := s.regs[rd := v], eip := Wrap32(pc + 5), size := false))
      case Int =>
        var t := if s.mem[pc + 1] == 0x10 then Int10h(s, videoMemory) else s;
        Continue(t.(eip := Wrap32(pc + 2)))
      case JmpRel8 =>
        Continue(s.(eip := JumpTarget(pc, s.mem[pc + 1])))
      case Hlt =>
        Continue(s.(hlt := true))
      case Unsupported =>
        Stopped(s.mem[pc])
  }

  /** How a bounded run ends: still running after the given number of
      steps, ended by an unsupported byte, or at a step whose memory
      accesses the source leaves unchecked and which the model does not
      cover. */
  datatype RunResult =
    | Running(state: State)
    | Ended(state: State, opcode: bv8)
    | OutOfModel(state: State)

  /** At most `n` passes of the main loop from `s`. */
  function Run(s: State, videoMemory: int, n: nat): (r: RunResult)
    requires s.WellFormed()
    ensures r.state.WellFormed()
    ensures r.Ended? ==>
      !r.state.hlt && r.state.eip < MEM_SIZE &&
      r.opcode == r.state.mem[r.state.eip] && r.opcode !in ALL_OPCODES
    ensures r.OutOfModel? ==> !CanStep(r.state, videoMemory)
    decreases n
  {
    if n == 0 then Running(s)
    else if !CanStep(s, videoMemory) then OutOfModel(s)
    else match Next(s, videoMemory)
      case Continue(t) => Run(t, videoMemory, n - 1)
      case Stopped(op) => Ended(s, op)
  }

  /** One pass of a run of `n > 0` passes, taken apart. */
  lemma RunUnfolds(s: State, videoMemory: int, n: nat)
    requires s.WellFormed() && n > 0
    ensures !CanStep(s, videoMemory) ==> Run(s, videoMemory, n) == OutOfModel(s)
    ensures CanStep(s, videoMemory) && Next(s, videoMemory).Stopped? ==>
      Run(s, videoMemory, n) == Ended(s, s.mem[s.eip])
    ensures CanStep(s, videoMemory) && Next(s, videoMemory).Continue? ==>
      Run(s, videoMemory, n) == Run(Next(s, videoMemory).next, videoMemory, n - 1)
  {
  }

  /** Steps that leave every component but `eip` as it was. */
  predicate OnlyEipMoved(s: State, t: State)
  {
    t == s.(eip := t.eip)
  }

  /** MOV r8, imm8 replaces exactly the addressed byte of one register with
      the immediate: AL, CL, DL, BL are bits 0-7 and AH, CH, DH, BH bits 8-15
      of EAX, ECX, EDX, EBX. Nothing else changes except `eip += 2`; the
      operand-size flag is left as it was. */
  lemma MovR8Semantics(s: State, videoMemory: int)
    requires s.WellFormed() && CanStep(s, videoMemory) && !s.hlt
    requires Fetch(s).MovR8?
    ensures Next(s, videoMemory).Continue?
    ensures var t := Next(s, videoMemory).next;
      var rb := Fetch(s).rb;
      var r := rb % 4;
      var v := s.mem[s.eip + 1];
      (rb < 4 ==> Low8(t.regs[r]) == v && t.regs[r] & 0xFFFF_FF00 == s.regs[r] & 0xFFFF_FF00) &&
      (rb >= 4 ==> High8(t.regs[r]) == v && t.regs[r] & 0xFFFF_00FF == s.regs[r] & 0xFFFF_00FF) &&
      (forall j :: 0 <= j < 8 && j != r ==> t.regs[j] == s.regs[j]) &&
      t.mem == s.mem && t.eip == s.eip + 2 && t.size == s.size && !t.hlt &&
      t.curX == s.curX && t.curY == s.curY
  {
  }

  /** MOV r32, imm without the prefix loads the little-endian word after the
      opcode into the low 16 bits and preserves the upper 16; with the
      prefix it loads the little-endian doubleword and clears the prefix.
      Either way only that register and `eip` change. */
  lemma MovR32Semantics(s: State, videoMemory: int)
    requires s.WellFormed() && CanStep(s, videoMemory) && !s.hlt
    requires Fetch(s).MovR32?
    ensures Next(s, videoMemory).Continue?
    ensures var t := Next(s, videoMemory).next;
      var rd := Fetch(s).rd;
      var pc := s.eip;
      (!s.size ==>
        Low16(t.regs[rd]) == LittleEndian16(s.mem[pc + 1], s.mem[pc + 2]) &&
        t.regs[rd] & 0xFFFF_0000 == s.regs[rd] & 0xFFFF_0000 &&
        t.eip == pc + 3 && !t.size) &&
      (s.size ==>
        t.regs[rd] == LittleEndian32(s.mem[pc + 1], s.mem[pc + 2], s.mem[pc + 3], s.mem[pc + 4]) &&
        t.eip == pc + 5 && !t.size) &&
      (forall j :: 0 <= j < 8 && j != rd ==> t.regs[j] == s.regs[j]) &&
      t.mem == s.mem && !t.hlt && t.curX == s.curX && t.curY == s.curY
  {
  }

  /** The prefix byte only raises the operand-size flag and moves on; the
      instructions that are not size-sensitive (NOP, MOV r8, INT, JMP, HLT)
      leave the flag as they found it. */
  lemma OperandSizeFlag(s: State, videoMemory: int)
    requires s.WellFormed() && CanStep(s, videoMemory) && !s.hlt
    requires Fetch(s) != Unsupported
    ensures Fetch(s) == OperandSize ==>
      Next(s, videoMemory) == Continue(s.(size := true, eip := s.eip + 1))
    ensures !Fetch(s).MovR32? ==> Next(s, videoMemory).next.size == (s.size || Fetch(s) == OperandSize)
  {
  }

  /** NOP moves `eip` by one and touches nothing else. */
  lemma NopSemantics(s: State, videoMemory: int)
    requires s.WellFormed() && CanStep(s, videoMemory) && !s.hlt
    requires Fetch(s) == Nop
    ensures Next(s, videoMemory) == Continue(s.(eip := s.eip + 1))
  {
  }

  /** INT n always advances `eip` by two and never writes a register or the
      operand-size flag. Only vector 0x10 with AH = 0Eh has an effect: AL and
      attribute 0x07 at the cursor cell, and the cursor advanced. */
  lemma IntSemantics(s: State, videoMemory: int)
    requires s.WellFormed() && CanStep(s, videoMemory) && !s.hlt
    requires Fetch(s) == Int
    ensures Next(s, videoMemory).Continue?
    ensures var t := Next(s, videoMemory).next;
      t.eip == s.eip + 2 && t.regs == s.regs && t.size == s.size && !t.hlt
    ensures var t := Next(s, videoMemory).next;
      if s.mem[s.eip + 1] == 0x10 && SelectsTeletype(s) then
        t == Teletype(s, videoMemory).(eip := s.eip + 2)
      else OnlyEipMoved(s, t)
  {
  }

  /** JMP rel8 adds the sign-extended displacement plus two to `eip`
      (modulo 2^32) and changes nothing else. */
  lemma JmpSemantics(s: State, videoMemory: int)
    requires s.WellFormed() && CanStep(s, videoMemory) && !s.hlt
    requires Fetch(s) == JmpRel8
    ensures Next(s, videoMemory).Continue?
    ensures var t := Next(s, videoMemory).next;
      OnlyEipMoved(s, t) && t.eip == Wrap32(s.eip + SignExtend8(s.mem[s.eip + 1]) + 2)
  {
    assert Next(s, videoMemory) == Continue(s.(eip := JumpTarget(s.eip, s.mem[s.eip + 1])));
  }

  /** HLT raises the halt flag without moving `eip`. */
  lemma HltSemantics(s: State, videoMemory: int)
    requires s.WellFormed() && CanStep(s, videoMemory) && !s.hlt
    requires Fetch(s) == Hlt
    ensures Next(s, videoMemory) == Continue(s.(hlt := true))
  {
  }

  /** While halted, a step changes nothing, so any number of further passes
      of the main loop leave memory, registers and cursor as they are. */
  lemma {:induction false} HaltedIsFixpoint(s: State, videoMemory: int, n: nat)
    requires s.WellFormed() && s.hlt
    ensures Run(s, videoMemory, n) == Running(s)
    decreases n
  {
    if n > 0 {
      assert Next(s, videoMemory) == Continue(s);
      HaltedIsFixpoint(s, videoMemory, n - 1);
    }
  }

  /** `EB FE` jumps to itself: once `eip` points at it the machine spins in
      place for ever, changing nothing. */
  lemma {:induction false} JumpToSelfIsFixpoint(s: State, videoMemory: int, n: nat)
    requires s.WellFormed() && !s.hlt && s.eip + 2 <= MEM_SIZE
    requires s.mem[s.eip] == OPCODE_JMP_REL8 && s.mem[s.eip + 1] == 0xFE
    ensures Run(s, videoMemory, n) == Running(s)
    decreases n
  {
    if n > 0 {
      assert Fetch(s) == JmpRel8;
      JumpSelfLoop(s.eip);
      assert Next(s, videoMemory) == Continue(s);
      JumpToSelfIsFixpoint(s, videoMemory, n - 1);
    }
  }

  /** A pass that continues with `t` leaves `n` passes to run from `t`. */
  lemma RunContinues(s: State, videoMemory: int, t: State, n: nat)
    requires s.WellFormed() && CanStep(s, videoMemory) && Next(s, videoMemory) == Continue(t)
    ensures Run(s, videoMemory, n + 1) == Run(t, videoMemory, n)
  {
  }

  /** The step the prefix byte at `eip` takes, as a whole state. */
  lemma PrefixStep(s: State, videoMemory: int)
    requires s.WellFormed() && !s.hlt && s.eip < MEM_SIZE && s.mem[s.eip] == OPCODE_OPSIZE
    ensures CanStep(s, videoMemory)
    ensures Next(s, videoMemory) == Continue(s.(size := true, eip := s.eip + 1))
  {
    assert Fetch(s) == OperandSize;
  }

  /** The step a MOV r32 opcode `B8+rd` at `eip` takes, as a whole state. */
  lemma MovR32Step(s: State, videoMemory: int, rd: nat)
    requires s.WellFormed() && !s.hlt && rd < 8 && s.eip + Extent(MovR32(rd), s.size) <= MEM_SIZE
    requires s.mem[s.eip] == MOV_R32_OPCODES[rd]
    ensures CanStep(s, videoMemory)
    ensures var pc := s.eip;
      Next(s, videoMemory) == Continue(
        if s.size then
          s.(regs := s.regs[rd := LittleEndian32(s.mem[pc + 1], s.mem[pc + 2], s.mem[pc + 3], s.mem[pc + 4])],
             eip := pc + 5, size := false)
        else
          s.(regs := s.regs[rd := SetLow16(s.regs[rd], LittleEndian16(s.mem[pc + 1], s.mem[pc + 2]))],
             eip := pc + 3))
  {
    DecodeEncode(MovR32(rd));
    assert Fetch(s) == MovR32(rd);
  }

  /** The prefix is consumed by exactly one instruction: `66 B8+rd id`
      loads a full doubleword, and a following `B8+rd' iw` without a new
      prefix loads only a word, preserving the upper half. Any further
      passes continue from the state these three leave. */
  lemma {:induction false} OperandSizePrefixIsOneShot(s: State, videoMemory: int, rd: nat, rd': nat, n: nat)
    requires s.WellFormed() && !s.hlt && !s.size && s.eip + 9 <= MEM_SIZE
    requires rd < 8 && rd' < 8
    requires s.mem[s.eip] == OPCODE_OPSIZE
    requires s.mem[s.eip + 1] == MOV_R32_OPCODES[rd]
    requires s.mem[s.eip + 6] == MOV_R32_OPCODES[rd']
    ensures var pc := s.eip;
      var wide := s.regs[rd := LittleEndian32(s.mem[pc + 2], s.mem[pc + 3], s.mem[pc + 4], s.mem[pc + 5])];
      var narrow := wide[rd' := SetLow16(wide[rd'], LittleEndian16(s.mem[pc + 7], s.mem[pc + 8]))];
      Run(s, videoMemory, n + 3) == Run(s.(regs := narrow, eip := pc + 9), videoMemory, n)
  {
    var pc := s.eip;
    var s1 := s.(size := true, eip := pc + 1);
    var wide := s.regs[rd := LittleEndian32(s.mem[pc + 2], s.mem[pc + 3], s.mem[pc + 4], s.mem[pc + 5])];
    var s2 := s.(regs := wide, eip := pc + 6);
    var narrow := wide[rd' := SetLow16(wide[rd'], LittleEndian16(s.mem[pc + 7], s.mem[pc + 8]))];
    var s3 := s.(regs := narrow, eip := pc + 9);
    PrefixStep(s, videoMemory);
    RunContinues(s, videoMemory, s1, n + 2);
    MovR32Step(s1, videoMemory, rd);
    RunContinues(s1, videoMemory, s2, n + 1);
    MovR32Step(s2, videoMemory, rd');
    RunContinues(s2, videoMemory, s3, n);
  }

  /** One step never moves the cursor back and, while the row is below 80,
      never changes the row. */
  lemma StepCursor(s: State, videoMemory: int)
    requires s.WellFormed() && CanStep(s, videoMemory) && 0 <= s.curY < 80
    requires Next(s, videoMemory).Continue?
    ensures Next(s, videoMemory).next.curY == s.curY
    ensures Next(s, videoMemory).next.curX >= s.curX
  {
  }

  /** Because the wrap test is on the row, a row that starts below 80 never
      changes in any run, and the column is never reset: it only grows. */
  lemma {:induction false} CursorRowNeverAdvances(s: State, videoMemory: int, n: nat)
    requires s.WellFormed() && 0 <= s.curY < 80
    ensures Run(s, videoMemory, n).state.curY == s.curY
    ensures Run(s, videoMemory, n).state.curX >= s.curX
    decreases n
  {
    if n > 0 && CanStep(s, videoMemory) {
      match Next(s, videoMemory)
      case Continue(t) =>
        StepCursor(s, videoMemory);
        CursorRowNeverAdvances(t, videoMemory, n - 1);
      case Stopped(_) =>
    }
  }
}
