/** The emulator's mutable machine: the globals of the source (memory, the
    general registers, `eip`, the teletype cursor and the drive table) and
    `main`'s locals `size` (the operand-size flag) and `hlt` (the halt
    flag) as the fields of one object, and
    the code that updates them in place, each method proved against the
    value-level specification in `Cpu`, `Video` and `Boot`. */
module Emulator {
  import opened Bits
  import opened Opcodes
  import opened Cpu
  import opened Video
  import opened Boot

  /** How a bounded run of the main loop ends. */
  datatype RunStatus = Completed | EndedAt(opcode: bv8) | LeftModel

  /** `status` and the final state `s` are what the bounded run `r` ends with. */
  predicate Reports(r: RunResult, status: RunStatus, s: State)
  {
    match r
    case Running(t) => status == Completed && s == t
    case Ended(t, op) => status == EndedAt(op) && s == t
    case OutOfModel(t) => status == LeftModel && s == t
  }

  class Machine {
    /** VIDEO_MEMORY: where the text window starts. */
    const videoMemory: int

    var memory: array<bv8>
    var eax: bv32
    var ecx: bv32
    var edx: bv32
    var ebx: bv32
    var esp: bv32
    var ebp: bv32
    var esi: bv32
    var edi: bv32
    var eip: U32
    /** The one-shot operand-size flag. */
    var size: bool
    var hlt: bool
    var curX: int
    var curY: int
    /** Open drives by device id. */
    var drives: map<int, seq<bv8>>

    ghost predicate Valid()
      reads this
    {
      memory.Length == MEM_SIZE && VideoFits(videoMemory)
    }

    /** The general registers in `B8+rd` order. */
    function Regs(): (r: seq<bv32>)
      reads this
      ensures |r| == 8
    {
      [eax, ecx, edx, ebx, esp, ebp, esi, edi]
    }

    /** The machine as a value. */
    ghost function AsState(): (s: State)
      reads this, memory
      requires Valid()
      ensures s.WellFormed()
    {
      State(memory[..], Regs(), eip, size, hlt, curX, curY)
    }

    /** Start-up: memory allocated and cleared, every register zero. */
    constructor (videoMemory: int)
      requires VideoFits(videoMemory)
      ensures Valid() && fresh(memory) && this.videoMemory == videoMemory
      ensures AsState() == Initial() && drives == map[]
    {
      this.videoMemory := videoMemory;
      memory := new bv8[MEM_SIZE](_ => 0);
      eax, ecx, edx, ebx := 0, 0, 0, 0;
      esp, ebp, esi, edi := 0, 0, 0, 0;
      eip, size, hlt := 0, false, false;
      curX, curY := 0, 0;
      drives := map[];
      new;
      assert memory[..] == seq(MEM_SIZE, _ => 0);
      assert Regs() == seq(8, _ => 0);
    }

    /** Write register `r` (in `B8+rd` order) and nothing else. */
    method SetReg(r: nat, v: bv32)
      requires r < 8
      modifies this
      ensures Regs() == old(Regs())[r := v]
      ensures memory == old(memory) && eip == old(eip) && size == old(size) && hlt == old(hlt)
      ensures curX == old(curX) && curY == old(curY) && drives == old(drives)
    {
      if r == EAX { eax := v; }
      else if r == ECX { ecx := v; }
      else if r == EDX { edx := v; }
      else if r == EBX { ebx := v; }
      else if r == ESP { esp := v; }
      else if r == EBP { ebp := v; }
      else if r == ESI { esi := v; }
      else { edi := v; }
    }

    /** The INT 10h handler `int_10h`. */
    method Int10h()
      requires Valid() && (SelectsTeletype(AsState()) ==> TeletypeFits(AsState(), videoMemory))
      modifies this, memory
      ensures Valid() && memory == old(memory) && drives == old(drives)
      ensures AsState() == Cpu.Int10h(old(AsState()), videoMemory)
    {
      if High8(eax) == 0x0E {
        var a := videoMemory + (curX + curY * 80) * 2;
        memory[a] := Low8(eax);
        memory[a + 1] := 0x07;
        curX := curX + 1;
        if curY >= 80 {
          curX := 0;
          curY := curY + 1;
        }
      }
    }

    /** One pass of the opcode `switch`; true when the byte at `eip` is not
      handled by any case, where the source ends the program. */
    method Step() returns (unsupported: bool)
      requires Valid() && CanStep(AsState(), videoMemory)
      modifies this, memory
      ensures Valid() && memory == old(memory) && drives == old(drives)
      ensures var r := Next(old(AsState()), videoMemory);
        unsupported == r.Stopped? &&
        AsState() == if r.Continue? then r.next else old(AsState())
    {
      ghost var s := AsState();
      if hlt {
        assert Next(s, videoMemory) == Continue(s);
        return false;
      }
      unsupported := false;
      var op := memory[eip];
      match Decode(op)
      case Nop =>
        assert Next(s, videoMemory) == Continue(s.(eip := Wrap32(eip + 1)));
        eip := Wrap32(eip + 1);
      case OperandSize =>
        assert Next(s, videoMemory) == Continue(s.(size := true, eip := Wrap32(eip + 1)));
        size := true;
        eip := Wrap32(eip + 1);
      case MovR8(rb) =>
        MovImm8(rb);
      case MovR32(rd) =>
        MovImm(rd);
      case Int =>
        Interrupt();
      case JmpRel8 =>
        assert Next(s, videoMemory) == Continue(s.(eip := JumpTarget(eip, memory[eip + 1])));
        eip := JumpTarget(eip, memory[eip + 1]);
      case Hlt =>
        assert Next(s, videoMemory) == Continue(s.(hlt := true));
        hlt := true;
      case Unsupported =>
        assert Next(s, videoMemory) == Stopped(op);
        unsupported := true;
    }

    /** The `MOV r8, imm8` cases (`B0+rb`): the low or high byte of a
      general register takes the byte after the opcode. */
    method MovImm8(rb: nat)
      requires Valid() && CanStep(AsState(), videoMemory) && !hlt && Fetch(AsState()) == MovR8(rb)
      modifies this
      ensures Valid() && memory == old(memory) && drives == old(drives)
      ensures AsState() == Next(old(AsState()), videoMemory).next
    {
      ghost var s := AsState();
      var v := memory[eip + 1];
      var r := rb % 4;
      ghost var w := if rb < 4 then SetLow8(s.regs[r], v) else SetHigh8(s.regs[r], v);
      assert Next(s, videoMemory) == Continue(s.(regs := s.regs[r := w], eip := Wrap32(eip + 2)));
      if rb < 4 {
        SetReg(r, SetLow8(Regs()[r], v));
      } else {
        SetReg(r, SetHigh8(Regs()[r], v));
      }
      eip := Wrap32(eip + 2);
    }

    /** The `MOV r32, imm` cases (`B8+rd`): a 16-bit immediate into the low
      half of the register, or after the operand-size prefix a 32-bit one
      into all of it, which also clears the prefix. */
    method MovImm(rd: nat)
      requires Valid() && CanStep(AsState(), videoMemory) && !hlt && Fetch(AsState()) == MovR32(rd)
      modifies this
      ensures Valid() && memory == old(memory) && drives == old(drives)
      ensures AsState() == Next(old(AsState()), videoMemory).next
    {
      ghost var s := AsState();
      assert Next(s, videoMemory).Continue?;
      if !size {
        var v := LittleEndian16(memory[eip + 1], memory[eip + 2]);
        assert Next(s, videoMemory).next == s.(regs := s.regs[rd := SetLow16(s.regs[rd], v)], eip := Wrap32(eip + 3));
        SetReg(rd, SetLow16(Regs()[rd], v));
        eip := Wrap32(eip + 3);
      } else {
        var v := LittleEndian32(memory[eip + 1], memory[eip + 2], memory[eip + 3], memory[eip + 4]);
        assert Next(s, videoMemory).next == s.(regs := s.regs[rd := v], eip := Wrap32(eip + 5), size := false);
        SetReg(rd, v);
        eip := Wrap32(eip + 5);
        size := false;
      }
    }

    /** The `INT imm8` case: vector 0x10 goes to `int_10h`, any other vector
      does nothing; either way two bytes are consumed. */
    method Interrupt()
      requires Valid() && CanStep(AsState(), videoMemory) && !hlt && Fetch(AsState()) == Int
      modifies this, memory
      ensures Valid() && memory == old(memory) && drives == old(drives)
      ensures AsState() == Next(old(AsState()), videoMemory).next
    {
      ghost var s := AsState();
      var vector := memory[eip + 1];
      ghost var t := if vector == 0x10 then Cpu.Int10h(s, videoMemory) else s;
      assert Next(s, videoMemory) == Continue(t.(eip := Wrap32(eip + 2)));
      if vector == 0x10 {
        Int10h();
      }
      eip := Wrap32(eip + 2);
    }

    /** `render`: draw the text window into the 640x400 framebuffer, cell by
      cell, advancing the character and attribute offsets by two per cell.
      Memory is only read. */
    method Render(framebuffer: array<bv32>, font: seq<bv8>, palette: seq<bv32>)
      requires Valid() && framebuffer.Length == SCREEN_PIXELS && FontCovers(font) && IsPalette(palette)
      modifies framebuffer
      ensures framebuffer[..] == Frame(memory[..], videoMemory, font, palette)
    {
      ghost var mem := memory[..];
      var ch := videoMemory;
      var color := videoMemory + 1;
      for y := 0 to 25
        invariant ch == CellAddress(videoMemory, 0, y) && color == ch + 1
        invariant forall y', x', fy', fx' :: InScreen(x', y', fx', fy') && y' < y ==>
          framebuffer[PixelIndex(x', y', fx', fy')] == CellPixel(mem, videoMemory, font, palette, x', y', fx', fy')
      {
        for x := 0 to 80
          invariant ch == CellAddress(videoMemory, x, y) && color == ch + 1
          invariant forall y', x', fy', fx' :: InScreen(x', y', fx', fy') && (y' < y || (y' == y && x' < x)) ==>
            framebuffer[PixelIndex(x', y', fx', fy')] == CellPixel(mem, videoMemory, font, palette, x', y', fx', fy')
        {
          DrawCell(framebuffer, font, palette, x, y, ch, color);
          ch := ch + 2;
          color := color + 2;
        }
      }
      forall p | 0 <= p < SCREEN_PIXELS
        ensures framebuffer[p] == Frame(mem, videoMemory, font, palette)[p]
      {
        PixelCoordinatesInScreen(p);
      }
    }

    /** The two inner loops of `render`: the 16 glyph rows and 8 glyph
      columns of cell (x, y), whose character byte is at `ch` and attribute
      byte at `color`. Pixels of other cells are left alone. */
    method DrawCell(framebuffer: array<bv32>, font: seq<bv8>, palette: seq<bv32>,
                    x: int, y: int, ch: int, color: int)
      requires Valid() && framebuffer.Length == SCREEN_PIXELS && FontCovers(font) && IsPalette(palette)
      requires 0 <= x < 80 && 0 <= y < 25 && ch == CellAddress(videoMemory, x, y) && color == ch + 1
      modifies framebuffer
      ensures forall fy', fx' :: InScreen(x, y, fx', fy') ==>
        framebuffer[PixelIndex(x, y, fx', fy')] == CellPixel(memory[..], videoMemory, font, palette, x, y, fx', fy')
      ensures forall y', x', fy', fx' :: InScreen(x', y', fx', fy') && (x' != x || y' != y) ==>
        framebuffer[PixelIndex(x', y', fx', fy')] == old(framebuffer[PixelIndex(x', y', fx', fy')])
    {
      for fy := 0 to 16
        invariant forall fy', fx' :: InScreen(x, y, fx', fy') && fy' < fy ==>
          framebuffer[PixelIndex(x, y, fx', fy')] == CellPixel(memory[..], videoMemory, font, palette, x, y, fx', fy')
        invariant forall y', x', fy', fx' :: InScreen(x', y', fx', fy') && (x' != x || y' != y) ==>
          framebuffer[PixelIndex(x', y', fx', fy')] == old(framebuffer[PixelIndex(x', y', fx', fy')])
      {
        DrawGlyphRow(framebuffer, font, palette, x, y, fy, ch, color);
      }
    }

    /** The innermost loop of `render`: the 8 pixels of glyph row `fy` of
      cell (x, y). Every other pixel is left alone. */
    method DrawGlyphRow(framebuffer: array<bv32>, font: seq<bv8>, palette: seq<bv32>,
                        x: int, y: int, fy: int, ch: int, color: int)
      requires Valid() && framebuffer.Length == SCREEN_PIXELS && FontCovers(font) && IsPalette(palette)
      requires 0 <= x < 80 && 0 <= y < 25 && 0 <= fy < 16
      requires ch == CellAddress(videoMemory, x, y) && color == ch + 1
      modifies framebuffer
      ensures forall fx' :: 0 <= fx' < 8 ==>
        framebuffer[PixelIndex(x, y, fx', fy)] == CellPixel(memory[..], videoMemory, font, palette, x, y, fx', fy)
      ensures forall y', x', fy', fx' :: InScreen(x', y', fx', fy') && (x' != x || y' != y || fy' != fy) ==>
        framebuffer[PixelIndex(x', y', fx', fy')] == old(framebuffer[PixelIndex(x', y', fx', fy')])
    {
      ghost var mem := memory[..];
      ghost var base := PixelIndex(x, y, 0, fy);
      for fx := 0 to 8
        invariant forall fx' :: 0 <= fx' < fx ==>
          framebuffer[PixelIndex(x, y, fx', fy)] == CellPixel(mem, videoMemory, font, palette, x, y, fx', fy)
        invariant forall q :: 0 <= q < SCREEN_PIXELS && !(base <= q < base + 8) ==> framebuffer[q] == old(framebuffer[q])
      {
        var p := PixelIndex(x, y, fx, fy);
        if GlyphBit(font, memory[ch], fx, fy) {
          framebuffer[p] := palette[Foreground(memory[color])];
        } else {
          framebuffer[p] := palette[Background(memory[color])];
        }
      }
      forall y', x', fy', fx' | InScreen(x', y', fx', fy') && (x' != x || y' != y || fy' != fy)
        ensures framebuffer[PixelIndex(x', y', fx', fy')] == old(framebuffer[PixelIndex(x', y', fx', fy')])
      {
        GlyphRowsDisjoint(x, y, fy, x', y', fx', fy');
      }
    }

    /** The boot loop of `main`: open the images in order as devices 0x80,
      0x81, ...; while no boot device is chosen, read each image's first
      sector to BOOTSECTOR_ADDR and choose it if the signature is there. A
      short read copies what there is and moves on. On success `eip` is set
      to BOOTSECTOR_ADDR. */
    method Boot(disks: seq<HostFile>) returns (outcome: BootOutcome)
      requires Valid() && AsState() == Initial() && drives == map[]
      requires |disks| <= 127
      modifies this, memory
      ensures Valid() && memory == old(memory)
      ensures outcome == SelectBoot(disks)
      ensures outcome.OpenFailed? ==> outcome.index < |disks|
      ensures outcome.Booted? ==>
        FIRST_HARD_DISK <= outcome.device < FIRST_HARD_DISK + |disks| &&
        Bootable(disks[outcome.device - FIRST_HARD_DISK]) &&
        AsState() == BootedState(disks, outcome.device - FIRST_HARD_DISK)
      ensures DriveTable(drives, disks, if outcome.OpenFailed? then outcome.index else |disks|)
    {
      var hardDisks := 0;
      var bootDevice := -1;
      while hardDisks < |disks|
        invariant 0 <= hardDisks <= |disks|
        invariant Valid() && memory == old(memory)
        invariant DriveTable(drives, disks, hardDisks)
        invariant bootDevice < 0 || FIRST_HARD_DISK <= bootDevice < FIRST_HARD_DISK + hardDisks
        invariant SelectFrom(disks, hardDisks, bootDevice) == SelectBoot(disks)
        invariant AsState() == Initial().(mem := memory[..])
        invariant bootDevice < 0 ==>
          forall i :: 0 <= i < MEM_SIZE && !(BOOTSECTOR_ADDR <= i < BOOTSECTOR_ADDR + SECTOR_SIZE) ==> memory[i] == 0
        invariant bootDevice >= 0 ==>
          Bootable(disks[bootDevice - FIRST_HARD_DISK]) &&
          memory[..] == LoadedMemory(disks[bootDevice - FIRST_HARD_DISK].bytes[..SECTOR_SIZE])
      {
        var disk := disks[hardDisks];
        if disk.CannotOpen? {
          return OpenFailed(hardDisks);
        }
        DriveTableGrows(drives, disks, hardDisks);
        drives := drives[FIRST_HARD_DISK + hardDisks := disk.bytes];
        hardDisks := hardDisks + 1;
        if bootDevice < 0 {
          var signed := ProbeSector(disk);
          if signed {
            bootDevice := FIRST_HARD_DISK + hardDisks - 1;
          }
        }
      }
      if bootDevice < 0 {
        return NoBootableDevice;
      }
      eip := BOOTSECTOR_ADDR;
      return Booted(bootDevice);
    }

    /** The boot loop's test of one image while no device is chosen: read
      its first sector to BOOTSECTOR_ADDR and look for the 16-bit signature
      0xAA55 at offset 510. Outside the sector memory stays zero. */
    method ProbeSector(disk: HostFile) returns (signed: bool)
      requires Valid() && disk.Opened?
      requires forall i :: 0 <= i < MEM_SIZE && !(BOOTSECTOR_ADDR <= i < BOOTSECTOR_ADDR + SECTOR_SIZE) ==> memory[i] == 0
      modifies memory
      ensures signed <==> Bootable(disk)
      ensures signed ==> memory[..] == LoadedMemory(disk.bytes[..SECTOR_SIZE])
      ensures forall i :: 0 <= i < MEM_SIZE && !(BOOTSECTOR_ADDR <= i < BOOTSECTOR_ADDR + SECTOR_SIZE) ==> memory[i] == 0
    {
      var complete := ReadSector(disk.bytes);
      if !complete {
        return false;
      }
      signed := LittleEndian16(memory[BOOTSECTOR_ADDR + 510], memory[BOOTSECTOR_ADDR + 511]) == 0xAA55;
      if signed {
        assert memory[..] == LoadedMemory(disk.bytes[..SECTOR_SIZE]);
      }
    }

    /** `fread(memory + BOOTSECTOR_ADDR, 512, 1, drive)`: copy the image's
      first sector, or as much of it as there is, to BOOTSECTOR_ADDR; true
      when the whole sector was read. */
    method ReadSector(bytes: seq<bv8>) returns (complete: bool)
      requires Valid()
      modifies memory
      ensures complete <==> |bytes| >= SECTOR_SIZE
      ensures forall i :: 0 <= i < MEM_SIZE ==>
        memory[i] == if BOOTSECTOR_ADDR <= i < BOOTSECTOR_ADDR + |bytes| && i < BOOTSECTOR_ADDR + SECTOR_SIZE
                     then bytes[i - BOOTSECTOR_ADDR] else old(memory[i])
    {
      var n := if |bytes| < SECTOR_SIZE then |bytes| else SECTOR_SIZE;
      forall i | 0 <= i < n {
        memory[BOOTSECTOR_ADDR + i] := bytes[i];
      }
      complete := n == SECTOR_SIZE;
    }

    /** One frame of the main loop, less the event poll: a step when not
      halted, then a redraw. */
    method RunFrame(framebuffer: array<bv32>, font: seq<bv8>, palette: seq<bv32>) returns (unsupported: bool)
      requires Valid() && CanStep(AsState(), videoMemory)
      requires framebuffer.Length == SCREEN_PIXELS && FontCovers(font) && IsPalette(palette)
      modifies this, memory, framebuffer
      ensures Valid() && memory == old(memory) && drives == old(drives)
      ensures var r := Next(old(AsState()), videoMemory);
        unsupported == r.Stopped? &&
        AsState() == if r.Continue? then r.next else old(AsState())
      ensures !unsupported ==> Shows(framebuffer, font, palette)
    {
      unsupported := Step();
      if !unsupported {
        Render(framebuffer, font, palette);
      }
    }

    /** At most `n` frames of the main loop. The run stops at a byte no case
      handles, and also before a step whose unchecked memory accesses would
      leave memory, which the model does not cover. */
    method RunFrames(n: nat, framebuffer: array<bv32>, font: seq<bv8>, palette: seq<bv32>)
      returns (status: RunStatus)
      requires Valid() && framebuffer.Length == SCREEN_PIXELS && FontCovers(font) && IsPalette(palette)
      modifies this, memory, framebuffer
      ensures Valid() && memory == old(memory) && drives == old(drives)
      ensures Reports(Run(old(AsState()), videoMemory, n), status, AsState())
      ensures status == Completed && n > 0 ==> Shows(framebuffer, font, palette)
    {
      ghost var result := Run(AsState(), videoMemory, n);
      var left: nat := n;
      while left > 0
        invariant left <= n
        invariant Valid() && memory == old(memory) && drives == old(drives)
        invariant Run(AsState(), videoMemory, left) == result
        invariant left < n ==> Shows(framebuffer, font, palette)
      {
        var stop;
        status, stop, left := Pass(left, result, framebuffer, font, palette);
        if stop {
          return;
        }
      }
      return Completed;
    }

    /** One pass of the main loop with `k` passes left of a run heading for
      `result`: either the run stops here with the status `result` reports,
      or the frame is drawn and `k - 1` passes remain. */
    method Pass(k: nat, ghost result: RunResult, framebuffer: array<bv32>, font: seq<bv8>, palette: seq<bv32>)
      returns (status: RunStatus, stop: bool, remaining: nat)
      requires Valid() && 0 < k && Run(AsState(), videoMemory, k) == result
      requires framebuffer.Length == SCREEN_PIXELS && FontCovers(font) && IsPalette(palette)
      modifies this, memory, framebuffer
      ensures Valid() && memory == old(memory) && drives == old(drives)
      ensures stop ==> status != Completed && Reports(result, status, AsState())
      ensures remaining == k - 1
      ensures !stop ==> Run(AsState(), videoMemory, remaining) == result && Shows(framebuffer, font, palette)
    {
      ghost var before := AsState();
      RunUnfolds(before, videoMemory, k);
      remaining := k - 1;
      if !CanStepNow() {
        return LeftModel, true, remaining;
      }
      var unsupported := RunFrame(framebuffer, font, palette);
      if unsupported {
        return EndedAt(memory[eip]), true, remaining;
      }
      RunContinues(before, videoMemory, AsState(), remaining);
      return Completed, false, remaining;
    }

    /** The framebuffer holds the frame of the current memory. */
    ghost predicate Shows(framebuffer: array<bv32>, font: seq<bv8>, palette: seq<bv32>)
      reads this, memory, framebuffer
      requires Valid() && FontCovers(font) && IsPalette(palette)
    {
      framebuffer[..] == Frame(memory[..], videoMemory, font, palette)
    }

    /** Whether the next step's memory accesses stay inside memory. */
    function CanStepNow(): (ok: bool)
      reads this, memory
      requires Valid()
      ensures ok == CanStep(AsState(), videoMemory)
    {
      hlt ||
      (eip < MEM_SIZE
       && eip + Extent(Decode(memory[eip]), size) <= MEM_SIZE
       && (Decode(memory[eip]) == Int && memory[eip + 1] == 0x10 && High8(eax) == 0x0E
           ==> 0 <= videoMemory + (curX + curY * 80) * 2 && videoMemory + (curX + curY * 80) * 2 + 1 < MEM_SIZE))
    }
  }
}
