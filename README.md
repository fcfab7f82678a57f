# StarVM in Dafny

StarVM is a small x86 emulator. It loads the boot sector of the first signed
hard-disk image at BOOTSECTOR_ADDR and steps through a handful of real-mode
instructions: NOP, the 66h operand-size prefix, MOV r8/r16/r32 with an
immediate, INT, JMP rel8 and HLT. After each step it redraws an 80x25 text
window from memory into a 640x400 framebuffer, using an 8x16 PSF1 font. INT
10h with AH = 0Eh, the BIOS teletype service, is the one firmware call.

The model has six modules:

- `Opcodes` (opcodes.dfy) holds the opcode constants and decodes a byte into
  an instruction family. Decoding is proved to undo the header's encoding.
- `Bits` (bits.dfy) covers the 32-bit arithmetic the executor does:
  - mask-and-or writes of the byte and word views of a register;
  - little-endian reads of immediates;
  - sign extension of a jump displacement;
  - `uint32_t` wrap-around of `eip`.
- `Cpu` (cpu.dfy) describes the machine state as a value. `Next` is one pass
  of the opcode `switch` and `Int10h` is the video service. `Run` is a
  bounded number of passes of the main loop. One lemma per instruction
  states what it changes and what it leaves alone. Further lemmas cover
  runs: halting, the `EB FE` self-loop, the one-shot prefix and the cursor.
- `Video` (video.dfy) describes the colour of every framebuffer pixel as a
  function of memory, the font and the palette. It proves the pixel
  indexing one-to-one and shows that a frame reads only the text window.
- `Boot` (boot.dfy) covers boot-device selection and the memory image the
  boot sector leaves behind. It also holds the PSF1 font-header test.
- `Emulator` (emulator.dfy) has the class `Machine`. Its fields are the
  source's globals (memory as an `array<bv8>`, the eight general registers
  as `bv32` fields, `eip`, the cursor and the drive table) together with
  `main`'s locals `size` and `hlt`.
  Its methods update those fields in place: `Step`, `Int10h`, `Render` with
  its four nested loops, `Boot` with its loop over the images, and a
  bounded run of frames. Each method is proved against the value-level
  specification in `Cpu`, `Video` and `Boot`.

Two apparent defects are modelled as written, not corrected:

- BOOTSECTOR_ADDR is 0x7c000, not the conventional 0x7C00.
- The teletype's wrap test looks at the row (`cur_y >= 80`), not the column.
  The column is therefore never reset, and a row that starts below 80 never
  changes (`Cpu.CursorRowNeverAdvances`). A conventional BIOS teletype
  wraps to column 0 and advances the row at column 80; the code does
  otherwise, and the model follows the code.

`VIDEO_MEMORY` and `vga_colors` are defined in `vga.h`, which is not part of
this model. They are parameters instead:

- `videoMemory`, with `videoMemory + 4000 <= 1 MiB` (`Cpu.VideoFits`);
- a 16-entry palette (`Video.IsPalette`).

## Model

| member | source | states |
|---|---|---|
| Opcodes.Decode | opcodes.h:3-29 | A byte decodes to Unsupported exactly when it is none of the 21 header constants. Otherwise it decodes to the family whose constant it is. |
| Opcodes.DecodeEncode | opcodes.h:7-23 | Decoding the header constant of any family gives back that family. So 0xB0-0xB7 are AL, CL, DL, BL, AH, CH, DH, BH in `B0+rb` order, and 0xB8-0xBF are EAX..EDI in `B8+rd` order. |
| Opcodes.OpcodesDistinct | opcodes.h:3-29 | The 21 opcode constants are pairwise distinct, so the dispatch is unambiguous. The 66h prefix lies outside both MOV ranges. |
| Opcodes.Extent | main.c:259-521 | Every instruction occupies 1 to 5 bytes counted from `eip`; this is how far the case reads. |
| Bits.Wrap32 | main.c:32 | `uint32_t` conversion is the identity exactly on [0, 2^32). |
| Bits.SetLow8 | main.c:271-278 | `r &= 0xffffff00; r \|= v` makes bits 0-7 equal `v` and keeps every other bit. |
| Bits.SetHigh8 | main.c:307-314 | `r &= 0xffff00ff; r \|= v << 8` makes bits 8-15 equal `v` and keeps every other bit. |
| Bits.SetLow16 | main.c:343-351 | `r &= 0xffff0000; r \|= v` makes bits 0-15 equal `v` and keeps the upper half. |
| Bits.LittleEndian16 | main.c:346 | The word read at `eip+1` has the first byte as its low byte and the second as its high byte. |
| Bits.LittleEndian32 | main.c:354 | The doubleword read at `eip+1` has the four bytes in little-endian order. |
| Bits.SignExtend8 | main.c:515 | `(int8_t)d` lies in [-128, 128) and is congruent to `d` modulo 256. |
| Bits.JumpTarget | main.c:515 | The new `eip` is congruent to `eip + 2 + (int8_t)d` modulo 2^32. |
| Bits.JumpSelfLoop | main.c:512-516 | Displacement 0xFE sends `eip` back to the jump itself. |
| Bits.JumpReach | main.c:512-516 | Away from the ends of the 32-bit range, a short jump moves `eip` by exactly 2 plus the signed displacement. The target is therefore within 126 bytes back and 129 bytes forward. |
| Cpu.Initial | main.c:195-196 | Start-up memory is 1 MiB of zeros. Registers and flags are zero. |
| Cpu.CursorAddress | main.c:178 | For a cursor inside the 80x25 grid, the teletype's target byte and the byte after it lie inside the text window, at an even offset from its start. |
| Cpu.SelectsTeletype | main.c:175 | The service is the teletype exactly when `(eax & 0x0000ff00) >> 8` is 0x0E. |
| Cpu.Teletype | main.c:177-187 | AL goes to the cursor cell and 0x07 to the byte after it; no other byte changes. Registers, `eip` and the flags are unchanged. The column grows by one while the row is below 80. Otherwise the column resets and the row advances. |
| Cpu.Int10h | main.c:173-191 | Every service other than AH = 0Eh leaves the state as it was. |
| Cpu.Fetch | main.c:259 | The byte at `eip` decodes to a handled family only if it is that family's header constant. |
| Cpu.CanStep | main.c:259-516 | A halted machine can always take a pass. A running one can whenever `eip` is at least 5 bytes before the end of memory and either the instruction is not `INT 10h` or the cursor cell lies inside memory. A step inside the model has `eip` inside memory. |
| Cpu.Next | main.c:259-527 | A step stops exactly when the machine is not halted and the byte at `eip` is not handled by any case. It then reports that byte, which is none of the header's constants. Otherwise the new state is well formed. |
| Cpu.Run | main.c:247-531 | Every state a bounded run reaches is well formed. A run ended by a byte no case handles ends at a non-halted state whose byte at `eip` is that opcode, which is none of the header's constants. A run that leaves the model ends at a state whose next step's accesses would leave memory. |
| Cpu.MovR8Semantics | main.c:271-341 | MOV r8, imm8 puts `memory[eip+1]` in bits 0-7 of EAX/ECX/EDX/EBX for AL..BL and in bits 8-15 for AH..BH, keeping all other bits. Other registers, memory, cursor and `size` are unchanged, and `eip += 2`. |
| Cpu.MovR32Semantics | main.c:343-493 | Without the prefix, the low 16 bits take the little-endian word at `eip+1`, the upper 16 are kept, `eip += 3` and `size` stays clear. With the prefix, the register takes the little-endian doubleword, `eip += 5` and `size` is cleared. No other register, memory or cursor changes. |
| Cpu.OperandSizeFlag | main.c:266-269 | 66h sets `size` and moves `eip` by one, nothing else. NOP, MOV r8, INT, JMP and HLT leave `size` as it was. |
| Cpu.NopSemantics | main.c:261-264 | NOP moves `eip` by one and changes nothing else. |
| Cpu.IntSemantics | main.c:495-510 | INT n always adds 2 to `eip` and never writes a register or `size`. With vector 0x10 and AH = 0Eh it is the teletype write. Otherwise only `eip` moves. |
| Cpu.JmpSemantics | main.c:512-516 | JMP rel8 sets `eip` to `eip + signext(memory[eip+1]) + 2` modulo 2^32 and changes nothing else. |
| Cpu.HltSemantics | main.c:518-521 | HLT sets `hlt` and leaves `eip` and everything else unchanged. |
| Cpu.HaltedIsFixpoint | main.c:259 | Once halted, any number of further passes leaves the whole state unchanged. |
| Cpu.JumpToSelfIsFixpoint | main.c:512-516 | At `EB FE` the machine stays in the same state for any number of passes. |
| Cpu.PrefixStep | main.c:266-269 | The prefix byte is a pass inside the model whose new state is the old one with `size` set and `eip + 1`. |
| Cpu.MovR32Step | main.c:343-493 | A MOV r32 at `eip` is a pass inside the model. With `size` set, the register becomes the little-endian doubleword, `eip += 5` and `size` is cleared. Otherwise the low word is replaced and `eip += 3`. Nothing else changes. |
| Cpu.OperandSizePrefixIsOneShot | main.c:266-360 | `66 B8+rd id` followed by `B8+rd' iw` loads a full doubleword into the first register. The second MOV, having no prefix of its own, replaces only the low word of its register. Any further passes continue from that state. |
| Cpu.StepCursor | main.c:180-185 | While the row is below 80, no step changes the row or moves the column back. |
| Cpu.CursorRowNeverAdvances | main.c:180-185 | In any run from a row below 80, the row never changes and the column never decreases. |
| Video.Foreground | main.c:149 | The foreground index `attr & 0xf` is a palette index. |
| Video.Background | main.c:151 | The background index `(attr & 0xf0) >> 4` is a palette index. |
| Video.PixelIndex | main.c:149 | A glyph pixel of a cell inside the 80x25 grid has an index inside the 640x400 framebuffer. |
| Video.CellAddress | main.c:136-137 | For a cell inside the grid (the address is computed again at lines 157-158), the character byte and the attribute byte after it lie inside the text window, at an even offset from its start. |
| Video.GlyphBit | main.c:147 | Testing font byte `4 + fy + 16*ch` against `0x80 >> fx` is testing its bit `7 - fx`, so the leftmost pixel is the most significant bit. |
| Video.CellPixel | main.c:147-151 | Every pixel of a cell is either its attribute's foreground colour or its background colour. |
| Video.FramePixel | main.c:139-151 | The colour of framebuffer pixel `p` is the glyph pixel of whichever cell and glyph position indexes `p`. |
| Video.PixelIndexDetermines | main.c:149 | A framebuffer index is written only from the single cell and glyph position it decodes to. |
| Video.Frame | main.c:139-162 | A frame has 640x400 pixels. |
| Video.PixelCoordinatesInScreen | main.c:139-151 | Every framebuffer index is the index of some cell and glyph-pixel position. |
| Video.PixelIndexIsBijective | main.c:139-151 | Each cell and glyph-pixel position maps to an index inside the buffer, and the position can be read back from the index. |
| Video.PixelIndexIsInjective | main.c:139-151 | Distinct positions write distinct pixels, so no pixel is written twice. |
| Video.GlyphRowsDisjoint | main.c:145-151 | The 8 pixels of one glyph row of one cell are consecutive in the framebuffer, and no pixel of another row or cell falls among them. |
| Video.FrameAtCell | main.c:147-151 | The frame's pixel at a cell position is that cell's glyph pixel. |
| Video.GlyphBitsSelectColours | main.c:147-151 | When the two colours differ, a pixel has the foreground colour if and only if the glyph bit `0x80 >> fx` of font byte `4 + fy + 16*ch` is set, and the background colour if and only if it is clear. |
| Video.CellPixelIsLocal | main.c:136-158 | A cell's pixels depend only on its own character and attribute bytes. |
| Video.FrameReadsOnlyTextWindow | main.c:136-160 | Two memories that agree on the 4000 bytes of the text window give the same frame. |
| Video.HaltedFramesIdentical | main.c:259-529 | After HLT, every frame drawn is identical to the first. |
| Video.TeletypeIsDisplayed | main.c:178-179 | After a teletype write with the cursor inside the grid, the cursor cell shows AL's glyph in colour 7 on colour 0. |
| Boot.Bootable | main.c:222-223 | An image boots exactly when it could be opened, holds a whole 512-byte sector, and the little-endian 16-bit word at offset 510 is 0xAA55. |
| Boot.SelectFrom | main.c:203-229 | From image `k` on, an open failure names an image at or after `k` that could not be opened. A boot device is either the one already chosen or a bootable image at or after `k`. Ending with no boot device means none had been chosen. |
| Boot.SelectBoot | main.c:203-236 | An open failure names an image that could not be opened. A boot device is 0x80 + k for a bootable image k. |
| Boot.SelectFromCharacterised | main.c:203-229 | From any point of the loop, the outcome is characterised in both directions without the loop: the first image that cannot be opened ends the program; otherwise the device chosen so far, or else the first bootable remaining image, becomes the boot device; otherwise there is none. |
| Boot.SelectBootCharacterised | main.c:203-236 | The first image that cannot be opened ends the program. Otherwise the boot device is 0x80 + k for the first image k that is at least 512 bytes long and has 0x55, 0xAA at offsets 510-511. If there is no such image, nothing boots. All three are stated as if-and-only-if. |
| Boot.SecondSignedImageBoots | main.c:220-223 | With two images where only the second is signed, device 0x81 boots. With neither signed, nothing boots. |
| Boot.LoadedMemory | main.c:222 | After booting, the 512 bytes at BOOTSECTOR_ADDR are the sector and every other byte is zero. |
| Boot.BootedState | main.c:241 | The booted state is well formed. |
| Boot.BootedStateRunsSector | main.c:222-241 | The first instruction executed is the boot image's first byte. The signature is still at BOOTSECTOR_ADDR + 510. The machine is neither halted nor prefixed. |
| Boot.DriveTable | main.c:210-218 | After `n` images are opened, the devices attached are exactly 0x80 to 0x80 + n - 1. |
| Boot.DriveTableGrows | main.c:210-218 | Opening the next image attaches exactly it as device 0x80 + k. |
| Boot.Psf1Supported | main.c:106 | The header test accepts exactly the fonts that start with a height-16 PSF1 header, whatever the mode byte. |
| Boot.LoadFont | main.c:78-111 | Loading fails to open exactly when the file cannot be opened. It succeeds exactly when the file has at least a header and the header test accepts it. A loaded font is the file's bytes, with glyph height 16. |
| Boot.LoadFontAcceptsExactlyHeight16 | main.c:106-111 | A file that starts with PSF1 magic 0x36 0x04 loads, whatever its mode byte, exactly when its height byte is 16. Otherwise it is refused. |
| Emulator.Machine.constructor | main.c:195-196 | A new machine's state is the start-up state and no drive is attached. |
| Emulator.Machine.SetReg | main.c:271-493 | Writing register `r` changes that register and nothing else: no other register, memory, `eip`, flag, cursor or drive. |
| Emulator.Machine.Int10h | main.c:173-191 | The in-place handler leaves the machine in the state `Cpu.Int10h` gives. |
| Emulator.Machine.Step | main.c:259-527 | The in-place `switch` reports an unsupported byte exactly when `Cpu.Next` stops. Otherwise it leaves the machine in `Cpu.Next`'s state. The drive table is untouched. |
| Emulator.Machine.MovImm8 | main.c:271-341 | The in-place MOV r8, imm8 leaves the machine in the state `Cpu.Next` gives; memory and the drive table are untouched. |
| Emulator.Machine.MovImm | main.c:343-493 | The in-place MOV r32, imm, with or without the prefix, leaves the machine in the state `Cpu.Next` gives; memory and the drive table are untouched. |
| Emulator.Machine.Interrupt | main.c:495-510 | The in-place INT leaves the machine in the state `Cpu.Next` gives, with `int_10h` called only for vector 0x10. |
| Emulator.Machine.Render | main.c:132-162 | After the four nested loops, the framebuffer is exactly `Video.Frame` of the current memory, and memory is not written. |
| Emulator.Machine.DrawCell | main.c:143-155 | The glyph-row loop and the loop inside it set all 128 pixels of cell (x, y) to its glyph pixels and leave every other cell's pixels alone. |
| Emulator.Machine.DrawGlyphRow | main.c:145-151 | The innermost loop sets the 8 pixels of glyph row `fy` of cell (x, y) to its glyph pixels and leaves every other pixel alone. |
| Emulator.Machine.Boot | main.c:203-241 | The loop's outcome is `Boot.SelectBoot` of the images. On success the state is `Boot.BootedState`: the sector is at BOOTSECTOR_ADDR, the rest of memory is zero and `eip` is BOOTSECTOR_ADDR. Every image opened is attached as 0x80 + k. |
| Emulator.Machine.ProbeSector | main.c:220-223 | While no device is chosen, an image is chosen exactly when `Boot.Bootable` holds of it. The memory is then `Boot.LoadedMemory` of its sector, and outside the sector memory stays zero either way. |
| Emulator.Machine.ReadSector | main.c:222 | The read copies the first 512 bytes of the image, or all of a shorter one, to BOOTSECTOR_ADDR and leaves the rest of memory alone. It reports success exactly when 512 bytes were available. |
| Emulator.Machine.RunFrame | main.c:259-529 | One pass of the main loop steps as `Cpu.Next` does. When the byte was handled, it then redraws the frame of the new memory. |
| Emulator.Machine.Pass | main.c:247-531 | One pass with `k` passes left of a run heading for a given `Cpu.Run` result either ends the run with the status that result reports, or draws the frame of the new memory and leaves a state whose run of `k - 1` passes has the same result. |
| Emulator.Machine.RunFrames | main.c:247-531 | `n` passes of the main loop end in the state and with the status that `Cpu.Run` gives. When all `n > 0` passes complete, the framebuffer holds `Video.Frame` of the final memory. |

## Left out

- SDL (window, renderer, texture, event poll, texture upload and present) is a foreign library. The framebuffer is an `array<bv32>` that `Render` fills; showing it, and quitting on a window event, are not modelled.
- File I/O (`fopen`, `fseek`, `ftell`, `fread`) is replaced by input values. A disk image is given as a `Boot.HostFile`, either one that cannot be opened or its bytes. The font is given as a byte sequence.
- Scanning the command line for `-hdd` arguments is not modelled. The boot loop takes the images that follow the `-hdd` arguments, in order. A trailing `-hdd` with no path only ends the scan, so it adds no image.
- `end()` and the `exit` calls are not modelled as process exits. Termination is a value instead: `Boot.BootOutcome` for start-up and `Emulator.RunStatus` for a run.
- All `printf` tracing is left out; it has no effect on the state.
- The segment registers, `eflags` and `floppy_disks` are never read or written by the modelled code, so they are left out.
- The endless main loop is modelled as a bounded run of `n` passes (`Cpu.Run`, `Emulator.Machine.RunFrames`).
- Cpu.Next: the source reads the immediate bytes after `eip`, and writes the teletype cell, without bounds checks. The model requires those accesses to stay inside the 1 MiB memory (`Cpu.CanStep`). A run stops with `OutOfModel` before a step that would leave memory, where the source's behaviour is undefined.
- Emulator.Machine.Boot: at most 127 images are accepted, so that the drive id 0x80 + k stays inside the 255-entry drive table.
- Emulator.Machine.ReadSector: on a short image, the bytes that are available are copied. The C library leaves the buffer's contents indeterminate after a short `fread`, and no property depends on those bytes.
- Emulator.Machine.Render: the font must hold 4 + 256*16 bytes, because the renderer indexes it by character code without checking. The palette and VIDEO_MEMORY come from `vga.h` and are parameters.
- Video.GlyphBit: the source reads the font through a `char*`, which may be signed. The byte is only tested against `0x80 >> fx`, so sign extension does not change the result; the model reads it as an unsigned byte.
- Boot.LoadFont: the header test needs at least 4 bytes. A shorter non-empty font file would make the source read past its buffer, so the model requires such a file to be empty or at least 4 bytes long.
- The drive table records each opened image's bytes. Later reads and writes through those handles are not modelled, because no modelled instruction uses the drives.
