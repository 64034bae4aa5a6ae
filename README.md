# CHIP-8 interpreter core, modelled and verified in Dafny

This project models the interpreter core of a small CHIP-8 emulator, found in
`Src/Emulator.cpp` and `Src/Emulator.h`. The CHIP-8 machine has:

- 4096 bytes of memory, with program ROM and work RAM from `0x200`;
- sixteen 8-bit registers V0..VF, where VF doubles as the carry, borrow and collision flag;
- a 16-bit index register `I` and a 16-bit program counter `PC`;
- a sixteen-slot stack of 16-bit return addresses with an 8-bit stack pointer `SP`;
- two 8-bit timers (delay and sound);
- a 16-key keypad;
- a 64x32 framebuffer of 32-bit pixels, each `0` or `0xFFFFFFFF`.

The model has two layers.

- **Value layer.**
  - `Machine.State` holds the machine's state as a value.
  - `Machine.Cycle` gives one emulation cycle as a function: fetch the big-endian opcode at `PC`, advance `PC` by 2, execute, then count the timers down.
  - `Instruction.Decode` turns an opcode into an `Instr`, with all of the decoder's quirks. It is characterised by `DecodeFamily`, `DecodeUnknownIff`, `DecodeEncode` and the three lemmas on ignored bits.
  - `Sprite.Blit` and `Sprite.Collides` give the `DXYN` XOR blit in closed form.
  - The lemmas in `Properties` state what each instruction promises: the flags, skips, calls and returns, sprite drawing, BCD, register blocks, key waits and timers.
- **Object layer.** `Emulator.Emulator` is a class with the source's arrays (`Memory`, `Registers`, `Stack`, `Keymap`, `ScreenPixels`) and scalar fields. It has:
  - a constructor;
  - `Reset`, `LoadRom` and `ExecuteCycle`;
  - one method per group of opcode cases, with the `DXYN` row/column loops and the `FX55`/`FX65` copy loops kept as loops.
  
  `Reset`, `LoadRom`, `ExecuteCycle` and every opcode method are proved against the value layer through the ghost function `State()`. The helpers (`InstallFont`, `Fill`, `ExecuteAlu` and `DrawRow`) state their effect on the arrays they change directly.

The C++ code checks no bounds. Every access it makes out of range is modelled as a `Fault` result that leaves the machine as it was, except the last case below, where the copied ROM stays in memory (see "## Left out"). These are:

- a fetch at `PC + 1 >= 4096`;
- a call with `SP = 16`;
- a return whose 8-bit `--SP` leaves `0..15`;
- a `Keymap[VX]` read with `VX > 15`;
- a `Memory[I + k]` access past 4095;
- a `DXYN` pixel index past 2047;
- a ROM larger than `4096 - 0x200` bytes;
- a ROM path without a `'\\'`.

The random byte of `CXNN` is a parameter of the cycle.

Where a plain reading of CHIP-8 and this code disagree, the model follows the code:

- **The font is erased.** The constructor writes the font to `0x50` and then calls `Reset`, which zeroes all 4096 bytes. The font area is zero after construction and after every `Reset`, and nothing writes the font again; a program can still store other bytes there, for instance with `FX33` or `FX55` after `FX29` (`Properties.FontErased`, `Properties.GlyphBlankAfterReset`).
- **`DXYN` wraps only the start position.** `Xpos = VX % 64` and `Ypos = VY % 32`, but the pixel index `(Ypos + row) * 64 + Xpos + col` is not wrapped. A sprite that runs off the right edge continues at the left of the next row (`Properties.HorizontalSpill`). One that runs off the bottom indexes past the framebuffer, which is a fault here.
- **`8XY6` and `8XYE` shift VX, not VY.** In every flag operation VF is written before VX (`Properties.AluFlagAliasing`).
- **`FX55` and `FX65` leave `I` unchanged.**
- **The decoder looks at fewer bits than the opcode table suggests:**
  - the `0___` family looks at the low nibble only;
  - `5XY_` and `9XY_` ignore it;
  - the `E___` family is decided by the low nibble;
  - an unrecognised sub-opcode is a no-op, though `PC` still advances and the timers still tick.

## Model

| member | source | states |
|---|---|---|
| `Words.Wrap16` | Src/Emulator.h:51-54 | storing an integer in a `uint16_t` keeps values in range and shifts one period below or above by 65536 |
| `Words.Wrap8` | Src/Emulator.h:44-45 | storing an integer in a `uint8_t` keeps values in range and shifts one period below or above by 256 |
| `Words.BitAnd` | Src/Emulator.cpp:220-225 | the byte AND is no larger than either operand |
| `Words.BitOr` | Src/Emulator.cpp:214-219 | the byte OR is at least as large as either operand |
| `Words.BitXor` | Src/Emulator.cpp:226-231 | the byte XOR is zero exactly when the operands are equal |
| `Words.AndBitsDigit` | Src/Emulator.cpp:220-225 | the AND is bitwise: bit `k` of the result is set exactly when bit `k` of both operands is |
| `Words.OrBitsDigit` | Src/Emulator.cpp:214-219 | the OR is bitwise: bit `k` of the result is set exactly when bit `k` of either operand is |
| `Words.XorBitsDigit` | Src/Emulator.cpp:226-231 | the XOR is bitwise: bit `k` of the result is set exactly when bit `k` of the operands differs |
| `Words.Flip` | Src/Emulator.cpp:360 | XOR with `0xFFFFFFFF` turns an unlit pixel lit and a lit pixel unlit, and nothing else into either |
| `Words.XorAllOnes` | Src/Emulator.cpp:360 | XOR with the all-ones value of `n` bits equals subtracting from that value |
| `Words.FlipIsXor` | Src/Emulator.cpp:360 | `Flip(p)` is the 32-bit `p ^ 0xFFFFFFFF` for every pixel value |
| `Instruction.AluCode` | Src/Emulator.cpp:205-309 | each `8XY_` operation has a low nibble that the decoder maps back to it |
| `Instruction.DecodeFamily` | Src/Emulator.cpp:137-525 | the decoder dispatches on the high nibble: a decoded instruction belongs to its opcode's family, and only the `0`, `8`, `E` and `F` families, which dispatch again, can yield an unknown instruction |
| `Instruction.DecodeEncode` | Src/Emulator.cpp:137-525 | every instruction has an opcode that the decoder maps back to exactly that instruction |
| `Instruction.SystemFamilyLowNibble` | Src/Emulator.cpp:139-156 | in the `0___` family only the low nibble counts: `0NN0` clears the screen, `0NNE` returns, anything else is unknown |
| `Instruction.DecodeUnknownIff` | Src/Emulator.cpp:137-525 | an opcode is unknown exactly when it is `0___` with a low nibble other than `0` and `E`, `8XY_` with a low nibble outside the nine operations, `E___` with a low nibble other than `E` and `1`, or `F___` with a low byte outside its nine codes; these are the inner switches at lines 141, 207, 369 and 392, where an unmatched case falls out without effect |
| `Instruction.RegisterSkipIgnoresLowNibble` | Src/Emulator.cpp:187-194 | `5XY_` and `9XY_` (lines 310-317) decode to the register skips whatever their low nibble |
| `Instruction.KeyFamilyLowNibble` | Src/Emulator.cpp:367-389 | the `E___` family is decided by the low nibble: `E` skips on a pressed key and `1` on a released key, whatever the third nibble |
| `Sprite.Blit` | Src/Emulator.cpp:344-362 | after the draw a pixel differs from before exactly when a set sprite bit targets it, and a changed pixel is flipped |
| `Sprite.Collides` | Src/Emulator.cpp:342-358 | a collision needs a lit pixel somewhere before the draw, and an empty sprite never collides |
| `Sprite.HitIff` | Src/Emulator.cpp:344-353 | a pixel is hit by the sprite exactly when some set bit `(row, col)` of it targets that pixel |
| `Sprite.CollidesIff` | Src/Emulator.cpp:353-358 | the collision flag is raised exactly when some set sprite bit targets a pixel that was lit |
| `Sprite.BlitTwice` | Src/Emulator.cpp:360 | blitting the same sprite twice at the same place restores the framebuffer |
| `Sprite.BlitChanges` | Src/Emulator.cpp:348-362 | the blit flips each pixel a set bit targets and leaves every other pixel of the framebuffer, inside or outside the sprite's box, unchanged |
| `Sprite.BlitMonochrome` | Src/Emulator.cpp:355-360 | a framebuffer of unlit and lit pixels stays so after a blit |
| `Sprite.BlitStep` | Src/Emulator.cpp:348-362 | one more iteration of the column loop XORs exactly the next bit's target, read before any earlier bit changed it |
| `Sprite.CollidesStep` | Src/Emulator.cpp:353-358 | after one more iteration the flag is set when it was set before or the next set bit's target was lit |
| `Sprite.BlitStart` | Src/Emulator.cpp:342-344 | before the first bit the framebuffer is untouched and no collision has occurred |
| `Machine.Initial` | Src/Emulator.cpp:54-91 | the reset state has `SP` within the stack and a framebuffer of unlit and lit pixels |
| `Machine.Loaded` | Src/Emulator.cpp:110-113 | memory holds the ROM's bytes at `0x200 + k` and is unchanged everywhere else |
| `Machine.LastIndexOf` | Src/Emulator.cpp:117 | `find_last_of` finds a position exactly when the character occurs, and no later position holds it |
| `Machine.RomNameOf` | Src/Emulator.cpp:117 | the ROM name is the suffix of the path from its last `'\\'` on, that backslash included; there is none exactly when the path has no backslash |
| `Machine.Fetch` | Src/Emulator.cpp:124 | the opcode's high byte is `Memory[PC]` and its low byte is `Memory[PC + 1]` |
| `Machine.AluStep` | Src/Emulator.cpp:205-309 | an `8XY_` instruction changes no register other than VX and VF |
| `Machine.SkipIf` | Src/Emulator.cpp:171-194 | a skip changes only `PC`, and changes it, by 2, exactly when the condition holds |
| `Machine.ExecDraw` | Src/Emulator.cpp:333-366 | a successful `DXYN` changes only the framebuffer and VF, and VF is 0 or 1; a failing one reports a memory or framebuffer overrun |
| `Machine.ExecKeySkip` | Src/Emulator.cpp:367-389 | `EX9E`/`EXA1` fault exactly when VX is past the keymap; otherwise only `PC` changes, by 2, and exactly when the key is in the tested state |
| `Machine.ExecWaitKey` | Src/Emulator.cpp:399-473 | `FX0A` either keeps `PC` and puts a pressed key with no lower pressed key into VX, or, exactly when no key is pressed, steps `PC` back by 2 and keeps the registers |
| `Machine.ExecBcd` | Src/Emulator.cpp:494-501 | `FX33` faults exactly when `I + 2` is past memory; otherwise it changes memory only, and only at `I..I + 2` |
| `Machine.ExecStore` | Src/Emulator.cpp:502-511 | `FX55` faults exactly when `I + X` is past memory; otherwise `Memory[I + k]` is `Vk` for `k <= X`, the rest of memory and every other field are unchanged, `I` included |
| `Machine.ExecLoad` | Src/Emulator.cpp:512-521 | `FX65` faults exactly when `I + X` is past memory; otherwise `Vk` is `Memory[I + k]` for `k <= X`, the higher registers and every other field are unchanged, `I` included |
| `Machine.FirstPressed` | Src/Emulator.cpp:399-473 | the key found is pressed and no lower key is; none is found exactly when no key is pressed |
| `Machine.Execute` | Src/Emulator.cpp:137-525 | an executed instruction never changes the keymap and never faults on the fetch |
| `Machine.Tick` | Src/Emulator.cpp:527-535 | each nonzero timer drops by one, a zero timer stays zero, and nothing else changes |
| `Machine.Fetched` | Src/Emulator.cpp:123-134 | after the fetch, `PC` is two past the instruction |
| `Machine.Cycle` | Src/Emulator.cpp:121-536 | a cycle faults on the fetch exactly when `PC + 1` is past memory, and never changes the keymap |
| `Properties.SkipAdvance` | Src/Emulator.cpp:171-194 | `3XNN`, `4XNN`, `5XY0` and `9XY0` (lines 310-317) net `PC + 4` when taken and `PC + 2` otherwise |
| `Properties.KeySkipAdvance` | Src/Emulator.cpp:367-389 | `EX9E` and `EXA1` fault exactly when VX is no key index; otherwise they net `PC + 4` when the key is held (`EX9E`) or released (`EXA1`) and `PC + 2` otherwise |
| `Properties.ClearScreenCycle` | Src/Emulator.cpp:143-147 | a `00E0` cycle turns every pixel off and changes nothing else but `PC` (by 2) and the timers |
| `Properties.JumpTarget` | Src/Emulator.cpp:157-162 | `1NNN` sets `PC` to `NNN`, and `BNNN` (lines 323-327) sets it to `NNN + V0` |
| `Properties.StraightLineAdvance` | Src/Emulator.cpp:133-134 | every successful instruction that does not transfer control leaves `PC` just past itself |
| `Properties.ExecutePcUnchanged` | Src/Emulator.cpp:137-525 | the instructions that do not transfer control never write `PC` |
| `Properties.CallPushes` | Src/Emulator.cpp:163-170 | `2NNN` faults exactly when the stack is full; otherwise it pushes the address after itself, deepens the stack by one and jumps to `NNN` |
| `Properties.ReturnPops` | Src/Emulator.cpp:148-153 | `00EE` faults exactly when `SP` is 0 or past the stack; otherwise it pops the top slot into `PC` |
| `Properties.CallThenReturn` | Src/Emulator.cpp:148-170 | a return at the depth a call left returns to the call's address plus 2 and restores `SP` |
| `Properties.AluExact` | Src/Emulator.cpp:209-306 | with X and Y other than F: `8XY4` gives result + 256 × flag = the exact sum; `8XY5` and `8XY7` set VF to 1 exactly on a positive difference and to 0 otherwise, and store the difference modulo 256; `8XY6` and `8XYE` shift VX and keep the lost bit in VF; `8XY0`..`8XY3` store VY, `VX | VY`, `VX & VY` and `VX ^ VY` and leave VF alone |
| `Properties.AluLogicBits` | Src/Emulator.cpp:214-231 | `8XY1`, `8XY2` and `8XY3` are bitwise: bit `k` of the new VX is the OR, AND or XOR of bit `k` of VX and VY, and VF is untouched when X is not F |
| `Properties.AluFlagAliasing` | Src/Emulator.cpp:232-306 | VF is written before VX in `8XY4`, `8XY5`, `8XY6`, `8XY7` and `8XYE`: with `X = F` the result replaces the flag, and with `Y = F` the freshly written flag is the operand; with `X = Y = F`, `8FF4` leaves twice its carry and `8FF5`/`8FF7` leave 0 |
| `Properties.AddImmNoCarry` | Src/Emulator.cpp:200-204 | `7XNN` adds modulo 256 and leaves VF alone |
| `Properties.RandomMasked` | Src/Emulator.cpp:328-332 | a `CXNN` cycle stores the random byte AND `NN` in VX, bit by bit, changes no other register and advances `PC` by 2 |
| `Properties.DrawEffect` | Src/Emulator.cpp:333-366 | after `DXYN`, VF is 1 exactly when a set sprite bit landed on a lit pixel; the targeted pixels are flipped and every other pixel is unchanged |
| `Properties.DrawFaults` | Src/Emulator.cpp:344-351 | `DXYN` faults exactly when it reads a sprite row past memory or a set bit lands past the framebuffer |
| `Properties.DrawTwice` | Src/Emulator.cpp:333-366 | drawing the same sprite twice, with VX and VY unchanged by the first draw, restores the framebuffer, and the second VF reports only the second draw's collisions |
| `Properties.HorizontalSpill` | Src/Emulator.cpp:339-351 | a two-pixel sprite row drawn at column 63 flips the last pixel of its row and the FIRST pixel of the next row, and leaves the first pixel of its own row unchanged: only the start position wraps |
| `Properties.SpillTargets` | Src/Emulator.cpp:344-353 | the row `0xC0` at column 63 stays inside the framebuffer, targets the last pixel of its row and the first of the next, and misses the first pixel of its own row |
| `Properties.WaitKeyCycle` | Src/Emulator.cpp:399-473 | `FX0A` with no key down leaves `PC` on itself; otherwise VX becomes the lowest pressed key |
| `Properties.TimersTick` | Src/Emulator.cpp:527-535 | every successful cycle, a waiting one included, counts each nonzero timer down by one; a timer the instruction loads counts down from the loaded value |
| `Properties.ExecuteTimers` | Src/Emulator.cpp:474-483 | only `FX15` and `FX18` load a timer |
| `Properties.BcdDigits` | Src/Emulator.cpp:494-501 | `FX33` faults exactly when `I + 2` is past memory; otherwise it writes three decimal digits that spell VX and changes neither `I` nor the registers |
| `Properties.DecimalDigits` | Src/Emulator.cpp:496-499 | the hundreds, tens and units of a byte are digits below 10 that spell it |
| `Properties.StoreThenLoad` | Src/Emulator.cpp:502-521 | `FX55` then `FX65` with the same `I` and `X` gives V0..VX back and leaves `I` unchanged |
| `Properties.AddIndexWraps` | Src/Emulator.cpp:484-488 | `FX1E` adds VX to the 16-bit `I` modulo 65536 and sets no flag |
| `Properties.UnknownIsNop` | Src/Emulator.cpp:137-525 | an unrecognised opcode only advances `PC` by 2 and ticks the timers |
| `Properties.FontErased` | Src/Emulator.cpp:35-47 | after construction the font area no longer holds the font |
| `Properties.FontGlyphAddress` | Src/Emulator.cpp:489-493 | `FX29` points `I` at the five rows of digit VX, inside the font area when VX is a hex digit |
| `Properties.GlyphBlankAfterReset` | Src/Emulator.cpp:489-493 | with the font area zeroed, drawing the glyph `FX29` selects changes no pixel and clears VF |
| `Properties.CycleKeepsConsistent` | Src/Emulator.cpp:121-536 | cycle after cycle `SP` stays within the stack and every pixel stays unlit or lit |
| `Properties.LoadImmCycle` | Src/Emulator.cpp:195-199 | `6XNN` stores `NN` in VX in one cycle |
| `Properties.AddImmCycle` | Src/Emulator.cpp:200-204 | `7XNN` adds `NN` to VX modulo 256 in one cycle |
| `Properties.LoadAddProgram` | Src/Emulator.cpp:195-204 | `6005 7003` run as two cycles leaves 8 in V0 and `PC` four bytes on |
| `Properties.LoadAddProgramAfterReset` | Src/Emulator.cpp:54-119 | a reset machine with that program loaded runs it from `0x200` |
| `Properties.ProgramDecodes` | Src/Emulator.cpp:195-204 | the loaded bytes `60 05 70 03` at `0x200` decode to `6XNN` and `7XNN` with `X = 0`, `NN = 5` and `NN = 3` |
| `Emulator.Emulator.constructor` | Src/Emulator.cpp:35-47 | the new emulator is in the reset state, with fresh arrays and a blank ROM name |
| `Emulator.Emulator.InstallFont` | Src/Emulator.cpp:38-41 | the font lies at `0x50` onwards and the rest of memory is unchanged |
| `Emulator.Emulator.Fill` | Src/Emulator.cpp:62-85 | every element of the array holds the value |
| `Emulator.Emulator.Reset` | Src/Emulator.cpp:54-91 | the object is in the reset state and its ROM name is a blank |
| `Emulator.Emulator.LoadRom` | Src/Emulator.cpp:93-119 | an unreadable file changes nothing; an oversized ROM faults and changes nothing; otherwise memory holds the ROM from `0x200`, and the ROM name becomes the path's suffix from its last backslash, or a fault is reported when there is none |
| `Emulator.Emulator.ExecuteCycle` | Src/Emulator.cpp:121-536 | the object goes to the state of the value-level cycle, or reports its fault and stays as it was |
| `Emulator.Emulator.ExecuteInstruction` | Src/Emulator.cpp:137-525 | the object goes to the state of the value-level instruction, or reports its fault and stays as it was |
| `Emulator.Emulator.ExecuteControl` | Src/Emulator.cpp:139-194 | the same, for the screen clear, jumps, calls, returns and value skips |
| `Emulator.Emulator.ExecuteRegister` | Src/Emulator.cpp:195-332 | the same, for `FX07` (lines 394-398) and the other instructions that only write registers, none of which faults |
| `Emulator.Emulator.ExecuteIndex` | Src/Emulator.cpp:318-322 | the same, for `ANNN`, `FX1E` and `FX29` (lines 484-493), none of which faults |
| `Emulator.Emulator.ExecuteTimer` | Src/Emulator.cpp:474-483 | the same, for `FX15` and `FX18` |
| `Emulator.Emulator.ExecuteDevice` | Src/Emulator.cpp:333-521 | the same, for drawing, the key instructions, BCD and the register blocks |
| `Emulator.Emulator.ReturnFromSubroutine` | Src/Emulator.cpp:148-153 | `00EE` pops the stack into `PC`, or reports the underflow and changes nothing |
| `Emulator.Emulator.CallSubroutine` | Src/Emulator.cpp:163-170 | `2NNN` pushes `PC` and jumps, or reports the overflow and changes nothing |
| `Emulator.Emulator.ExecuteAlu` | Src/Emulator.cpp:205-309 | the registers become those of the value-level `8XY_` step |
| `Emulator.Emulator.DrawSprite` | Src/Emulator.cpp:333-366 | the framebuffer becomes the closed-form blit and VF the collision flag, or a fault is reported and nothing changes |
| `Emulator.Emulator.DrawRow` | Src/Emulator.cpp:346-363 | one sprite row advances the blit and the collision flag by eight bits and touches no other register |
| `Emulator.Emulator.SkipOnKey` | Src/Emulator.cpp:367-389 | `EX9E` and `EXA1` skip as the value model does, or report a key index past the keymap |
| `Emulator.Emulator.WaitForKey` | Src/Emulator.cpp:399-473 | the lowest pressed key goes to VX, or `PC` steps back onto the instruction |
| `Emulator.Emulator.StoreDigits` | Src/Emulator.cpp:494-501 | the three BCD digits go to `I`, `I + 1` and `I + 2`, or the overrun is reported |
| `Emulator.Emulator.StoreRegisterBlock` | Src/Emulator.cpp:502-511 | V0..VX go to `Memory[I..I + X]`, or the overrun is reported and memory is unchanged |
| `Emulator.Emulator.LoadRegisterBlock` | Src/Emulator.cpp:512-521 | `Memory[I..I + X]` goes to V0..VX, or the overrun is reported and the registers are unchanged |

## Left out

- The SDL window, renderer and event polling in `Src/AppWindow.cpp` and `Src/AppWindow.h` are not part of this model. They are host I/O. The host's writes to `Keymap` are a free part of the state.
- The real-time loop and its timing in `Src/Chip8-Emu.cpp` are not part of this model. That file is a process entry point with clock-driven pacing.
- The file reading in `LoadRom` (`std::ifstream`, `tellg`, `read`) is replaced by an input. That input is the file's content, or none when the file cannot be opened.
- The debug trace written to `std::cout` in every cycle is left out. It is a diagnostic side effect only.
- The random engine and its distribution are left out. The random byte of `CXNN` is a parameter of the cycle.
- `GetRomName` returns the `romName` field unchanged. It is not modelled as a separate member.
- Out-of-range accesses are undefined behaviour in C++. Here each is a fault that leaves the state unchanged. The model does not capture what the C++ program would actually do after such an access. An oversized ROM is refused before any byte is copied. A path without a backslash keeps the copied ROM and reports the fault, as the throwing `substr` would after the copy.
- `DXYN` forms the address of a pixel even for a clear sprite bit. The model checks only the pixels that set bits write. An unused out-of-range pointer is not an access.
- `Emulator.Emulator.ExecuteCycle` restores `PC` and the opcode when the instruction faults. This keeps the object equal to its pre-cycle state, which the source, having no fault at all, does not specify.
- The bitwise AND, OR and XOR are recursive functions on integers, proved one bit at a time. They are not hardware bit-vector operations.
