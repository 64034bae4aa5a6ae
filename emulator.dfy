/** The `Emulator` class: the machine's arrays and registers updated in place.

    `Reset`, `LoadRom`, `ExecuteCycle` and the per-opcode methods are proved
    against the value-level model of module `Machine` (the helpers
    `InstallFont`, `Fill`, `ExecuteAlu` and `DrawRow` state their effect on
    the arrays directly):
    `State()` reads the object as a `Machine.State`, the constructor and
    `Reset` produce `Initial()`, `LoadRom` produces `Loaded`, and
    `ExecuteCycle` produces `Cycle`. Where the source would index out of range
    the method reports the `Fault` and leaves the object as it was. */
module Emulator {
  import opened Words
  import opened Instruction
  import opened Sprite
  import opened Machine

  class Emulator {
    /** The hex keypad; the host writes 1 for a held key and 0 otherwise. */
    const keymap: array<Byte>
    /** The 64x32 framebuffer, row by row, one 32-bit pixel each. */
    const screenPixels: array<Pixel>
    var romName: string
    /** V0..VF; VF doubles as the flag register. */
    const registers: array<Byte>
    const memory: array<Byte>
    var i: Word
    var pc: Word
    const stack: array<Word>
    var sp: Byte
    var delayTimer: Byte
    var soundTimer: Byte
    var opcode: Word

    /** The arrays have the sizes the class declares and never share storage. */
    ghost predicate Valid()
      reads this
    {
      && memory.Length == MEMORY_SIZE
      && registers.Length == REGISTER_COUNT
      && stack.Length == STACK_DEPTH
      && keymap.Length == KEY_COUNT
      && screenPixels.Length == PIXELS
      && memory != registers && memory != keymap && registers != keymap
    }

    /** The object as a value of the machine model. */
    ghost function State(): (m: Machine.State)
      reads this, memory, registers, stack, keymap, screenPixels
      requires Valid()
      ensures WellFormed(m)
    {
      Machine.State(memory[..], registers[..], i, pc, stack[..], sp, delayTimer, soundTimer,
            opcode, keymap[..], screenPixels[..])
    }

    /** `Emulator::Emulator`: writes the font to `0x50`, then resets, which
        zeroes all of memory again, the font included. */
    constructor()
      ensures Valid() && State() == Initial() && romName == " "
      ensures fresh(memory) && fresh(registers) && fresh(stack) && fresh(keymap) && fresh(screenPixels)
    {
      memory := new Byte[MEMORY_SIZE];
      registers := new Byte[REGISTER_COUNT];
      stack := new Word[STACK_DEPTH];
      keymap := new Byte[KEY_COUNT];
      screenPixels := new Pixel[PIXELS];
      new;
      InstallFont(FONTSET);
      Reset();
    }

    /** The font loop of the constructor: `font` to `0x50` onwards. */
    method InstallFont(font: seq<Byte>)
      requires Valid() && |font| == FONTSET_SIZE
      modifies memory
      ensures forall a | 0 <= a < MEMORY_SIZE ::
        memory[a] == if FONT_START_ADDRESS <= a < FONT_START_ADDRESS + FONTSET_SIZE
          then font[a - FONT_START_ADDRESS] else old(memory[a])
    {
      for k := 0 to FONTSET_SIZE
        invariant forall a | 0 <= a < MEMORY_SIZE ::
          memory[a] == if FONT_START_ADDRESS <= a < FONT_START_ADDRESS + k
            then font[a - FONT_START_ADDRESS] else old(memory[a])
      {
        memory[FONT_START_ADDRESS + k] := font[k];
      }
    }

    /** One of the clearing loops of `Reset`: every element of `a` to `value`. */
    static method Fill<T>(a: array<T>, value: T)
      modifies a
      ensures a[..] == seq(a.Length, _ => value)
    {
      for k := 0 to a.Length
        invariant forall j | 0 <= j < k :: a[j] == value
      {
        a[k] := value;
      }
    }

    /** `Emulator::Reset`: `PC` to `0x200`, everything else to zero, the ROM name to a blank. */
    method Reset()
      requires Valid()
      modifies this, memory, registers, stack, keymap, screenPixels
      ensures Valid() && State() == Initial() && romName == " "
    {
      pc := START_ADDRESS;
      opcode := 0;
      i := 0;
      sp := 0;
      Fill(registers, 0);
      Fill(memory, 0);
      Fill(stack, 0);
      Fill(keymap, 0);
      Fill(screenPixels, 0);
      delayTimer := 0;
      soundTimer := 0;
      romName := " ";
      assert memory[..] == Initial().memory;
      assert registers[..] == Initial().v;
      assert stack[..] == Initial().stack;
      assert keymap[..] == Initial().keymap;
      assert screenPixels[..] == Initial().screen;
    }
  
    /** `Emulator::LoadRom`. `file` is the content of the file at `path`, or
        `None` when it cannot be opened, in which case nothing happens.
        Otherwise the bytes are copied to `0x200` onwards and the ROM name
        becomes the path from its last backslash on. */
    method LoadRom(file: Option<seq<Byte>>, path: string) returns (fault: Option<Fault>)
      requires Valid()
      modifies this, memory
      ensures Valid()
      ensures file.None? ==> fault.None? && State() == old(State()) && romName == old(romName)
      ensures file.Some? && |file.value| > MEMORY_SIZE - START_ADDRESS ==>
        fault == Some(RomTooLarge) && State() == old(State()) && romName == old(romName)
      ensures file.Some? && |file.value| <= MEMORY_SIZE - START_ADDRESS ==>
        && State() == old(State()).(memory := Loaded(old(memory[..]), file.value))
        && match RomNameOf(path)
           case None => fault == Some(PathWithoutSeparator) && romName == old(romName)
           case Some(name) => fault.None? && romName == name
    {
      if file.None? {
        return None;
      }
      var rom := file.value;
      if |rom| > MEMORY_SIZE - START_ADDRESS {
        return Some(RomTooLarge);
      }
      for k := 0 to |rom|
        modifies memory
        invariant forall a | 0 <= a < MEMORY_SIZE ::
          memory[a] == if START_ADDRESS <= a < START_ADDRESS + k then rom[a - START_ADDRESS] else old(memory[a])
      {
        memory[START_ADDRESS + k] := rom[k];
      }
      assert memory[..] == Loaded(old(memory[..]), rom);
      match RomNameOf(path)
      case None =>
        fault := Some(PathWithoutSeparator);
      case Some(name) =>
        romName := name;
        fault := None;
    }

    /** `fault` is what the model reports, and the object holds the model's
        new state, or the state `before` when the model faults. */
    ghost predicate Reports(r: Result<Machine.State>, before: Machine.State, fault: Option<Fault>)
      reads this, memory, registers, stack, keymap, screenPixels
      requires Valid()
    {
      match r
      case Ok(m) => fault == None && State() == m
      case Err(e) => fault == Some(e) && State() == before
    }

    /** `Emulator::ExecuteCycle`: fetch the big-endian opcode at `PC`, advance
        `PC` by 2, execute, then count both timers down. A fault leaves the
        machine as it was before the fetch. */
    method ExecuteCycle(rand: Byte) returns (fault: Option<Fault>)
      requires Valid()
      modifies this, memory, registers, stack, screenPixels
      ensures Valid() && romName == old(romName)
      ensures Reports(Cycle(old(State()), rand), old(State()), fault)
    {
      if pc as int + 1 >= MEMORY_SIZE {
        return Some(FetchOutOfBounds);
      }
      ghost var m0 := State();
      var fetchedFrom, previous := pc, opcode;
      opcode := (memory[pc] as int) * 0x100 + memory[pc + 1];
      pc := pc + 2;
      assert State() == Fetched(m0);
      fault := ExecuteInstruction(Decode(opcode), rand);
      if fault.Some? {
        pc, opcode := fetchedFrom, previous;
        return;
      }
      if delayTimer > 0 {
        delayTimer := delayTimer - 1;
      }
      if soundTimer > 0 {
        soundTimer := soundTimer - 1;
      }
    }

    /** The `switch` of `ExecuteCycle` on the decoded instruction; `PC` has
        already been advanced. */
    method ExecuteInstruction(instr: Instr, rand: Byte) returns (fault: Option<Fault>)
      requires Valid()
      modifies this, memory, registers, stack, screenPixels
      ensures Valid() && romName == old(romName)
      ensures Reports(Machine.Execute(old(State()), instr, rand), old(State()), fault)
    {
      if IsControl(instr) {
        fault := ExecuteControl(instr);
      } else if WritesRegister(instr) {
        ExecuteRegister(instr, rand);
        fault := None;
      } else if WritesIndex(instr) {
        ExecuteIndex(instr);
        fault := None;
      } else if WritesTimer(instr) {
        ExecuteTimer(instr);
        fault := None;
      } else if instr.Unknown? {
        fault := None;
      } else {
        fault := ExecuteDevice(instr);
      }
    }

    /** The instructions that only move `PC`, `SP` and the stack, or clear the screen. */
    static predicate IsControl(instr: Instr)
    {
      || instr.ClearScreen? || instr.Return? || instr.Jump? || instr.Call? || instr.JumpOffset?
      || instr.SkipIfEqualImm? || instr.SkipIfNotEqualImm? || instr.SkipIfEqual? || instr.SkipIfNotEqual?
    }

    /** The instructions that only update V0..VF, and cannot fault. */
    static predicate WritesRegister(instr: Instr)
    {
      instr.LoadImm? || instr.AddImm? || instr.Alu? || instr.Random? || instr.ReadDelay?
    }

    /** The instructions that only update `I`. */
    static predicate WritesIndex(instr: Instr)
    {
      instr.LoadIndex? || instr.AddIndex? || instr.FontGlyph?
    }

    /** The instructions that only load a timer. */
    static predicate WritesTimer(instr: Instr)
    {
      instr.SetDelay? || instr.SetSound?
    }

    method ExecuteControl(instr: Instr) returns (fault: Option<Fault>)
      requires Valid() && IsControl(instr)
      modifies this, stack, screenPixels
      ensures Valid() && romName == old(romName)
      ensures Reports(Machine.Execute(old(State()), instr, 0), old(State()), fault)
    {
      fault := None;
      match instr
      case ClearScreen => Fill(screenPixels, 0);
      case Return => fault := ReturnFromSubroutine();
      case Jump(nnn) => pc := nnn;
      case Call(nnn) => fault := CallSubroutine(nnn);
      case JumpOffset(nnn) => pc := nnn + registers[0];
      case SkipIfEqualImm(x, nn) =>
        if registers[x] == nn { pc := Wrap16(pc as int + 2); }
      case SkipIfNotEqualImm(x, nn) =>
        if registers[x] != nn { pc := Wrap16(pc as int + 2); }
      case SkipIfEqual(x, y) =>
        if registers[x] == registers[y] { pc := Wrap16(pc as int + 2); }
      case SkipIfNotEqual(x, y) =>
        if registers[x] != registers[y] { pc := Wrap16(pc as int + 2); }
      case _ =>
    }

    method ExecuteRegister(instr: Instr, rand: Byte)
      requires Valid() && WritesRegister(instr)
      modifies registers
      ensures Machine.Execute(old(State()), instr, rand) == Ok(State())
    {
      match instr
      case LoadImm(x, nn) => registers[x] := nn;
      case AddImm(x, nn) => registers[x] := Wrap8(registers[x] as int + nn);
      case Alu(op, x, y) => ExecuteAlu(op, x, y);
      case Random(x, nn) => registers[x] := BitAnd(rand, nn);
      case ReadDelay(x) => registers[x] := delayTimer;
      case _ =>
    }

    method ExecuteIndex(instr: Instr)
      requires Valid() && WritesIndex(instr)
      modifies this
      ensures Valid() && romName == old(romName)
      ensures Machine.Execute(old(State()), instr, 0) == Ok(State())
    {
      match instr
      case LoadIndex(nnn) => i := nnn;
      case AddIndex(x) => i := Wrap16(i as int + registers[x]);
      case FontGlyph(x) => i := FONT_START_ADDRESS + 5 * (registers[x] as int);
      case _ =>
    }

    method ExecuteTimer(instr: Instr)
      requires Valid() && WritesTimer(instr)
      modifies this
      ensures Valid() && romName == old(romName)
      ensures Machine.Execute(old(State()), instr, 0) == Ok(State())
    {
      match instr
      case SetDelay(x) => delayTimer := registers[x];
      case SetSound(x) => soundTimer := registers[x];
      case _ =>
    }

    method ExecuteDevice(instr: Instr) returns (fault: Option<Fault>)
      requires Valid() && !IsControl(instr) && !WritesRegister(instr)
      requires !WritesIndex(instr) && !WritesTimer(instr) && !instr.Unknown?
      modifies this, memory, registers, screenPixels
      ensures Valid() && romName == old(romName)
      ensures Reports(Machine.Execute(old(State()), instr, 0), old(State()), fault)
    {
      fault := None;
      match instr
      case Draw(x, y, n) => fault := DrawSprite(x, y, n);
      case SkipIfKey(x) => fault := SkipOnKey(x, true);
      case SkipIfNotKey(x) => fault := SkipOnKey(x, false);
      case WaitKey(x) => WaitForKey(x);
      case StoreBcd(x) => fault := StoreDigits(x);
      case StoreRegisters(x) => fault := StoreRegisterBlock(x);
      case LoadRegisters(x) => fault := LoadRegisterBlock(x);
      case _ =>
    }

    /** `00EE`: `--SP` on the 8-bit stack pointer, then `PC = Stack[SP]`. */
    method ReturnFromSubroutine() returns (fault: Option<Fault>)
      requires Valid()
      modifies this
      ensures Valid() && romName == old(romName)
      ensures Reports(Machine.Execute(old(State()), Return, 0), old(State()), fault)
    {
      var top := Wrap8(sp as int - 1);
      if top >= STACK_DEPTH {
        return Some(StackUnderflow);
      }
      sp := top;
      pc := stack[sp];
      fault := None;
    }

    /** `2NNN`: `Stack[SP] = PC`, `++SP`, `PC = NNN`. */
    method CallSubroutine(nnn: Addr) returns (fault: Option<Fault>)
      requires Valid()
      modifies this, stack
      ensures Valid() && romName == old(romName)
      ensures Reports(Machine.Execute(old(State()), Call(nnn), 0), old(State()), fault)
    {
      if sp >= STACK_DEPTH {
        return Some(StackOverflow);
      }
      stack[sp] := pc;
      sp := sp + 1;
      pc := nnn;
      fault := None;
    }

    /** `8XY_`: VF is written before VX for the flag-setting operations. */
    method ExecuteAlu(op: AluOp, x: Nibble, y: Nibble)
      requires Valid()
      modifies registers
      ensures registers[..] == AluStep(op, old(registers[..]), x, y)
    {
      match op
      case Move => registers[x] := registers[y];
      case Or => registers[x] := BitOr(registers[x], registers[y]);
      case And => registers[x] := BitAnd(registers[x], registers[y]);
      case Xor => registers[x] := BitXor(registers[x], registers[y]);
      case Add =>
        registers[FLAG] := if registers[x] as int + registers[y] > 0xFF then 1 else 0;
        registers[x] := Wrap8(registers[x] as int + registers[y]);
      case Sub =>
        registers[FLAG] := if registers[x] > registers[y] then 1 else 0;
        registers[x] := Wrap8(registers[x] as int - registers[y]);
      case ShiftRight =>
        registers[FLAG] := registers[x] % 2;
        registers[x] := registers[x] / 2;
      case SubReverse =>
        registers[FLAG] := if registers[x] < registers[y] then 1 else 0;
        registers[x] := Wrap8(registers[y] as int - registers[x]);
      case ShiftLeft =>
        registers[FLAG] := registers[x] / 0x80;
        registers[x] := Wrap8(registers[x] as int * 2);
    }

    /** `DXYN`: draw the `N` sprite rows at `I` at (VX mod 64, VY mod 32) by XOR,
        row by row and left to right, and set VF when a lit pixel is erased. */
    method DrawSprite(x: Nibble, y: Nibble, n: Nibble) returns (fault: Option<Fault>)
      requires Valid()
      modifies registers, screenPixels
      ensures Valid()
      ensures Reports(ExecDraw(old(State()), x, y, n), old(State()), fault)
    {
      ghost var m0 := State();
      var xpos := registers[x] % WIDTH;
      var ypos := registers[y] % HEIGHT;
      if n > 0 && i as int + n > MEMORY_SIZE {
        return Some(MemoryOutOfBounds);
      }
      var sprite := if n == 0 then [] else memory[i .. i as int + n];
      assert sprite == SpriteRows(m0, n);
      if !InBounds(sprite, xpos, ypos) {
        return Some(PixelOutOfBounds);
      }
      ghost var screen0 := screenPixels[..];
      registers[FLAG] := 0;
      BlitStart(screen0, sprite, xpos, ypos);
      for row := 0 to n
        invariant registers[..] == m0.v[FLAG := registers[FLAG]]
        invariant screenPixels[..] == BlitWithin(screen0, sprite, xpos, ypos, row * 8)
        invariant registers[FLAG] == if CollidesWithin(screen0, sprite, xpos, ypos, row * 8) then 1 else 0
      {
        DrawRow(memory[i as int + row], sprite, xpos, ypos, row, screen0);
      }
      fault := None;
    }

    /** The inner loop of `DXYN`: the eight bits of sprite row `row`, left to right. */
    method DrawRow(spriteByte: Byte, ghost sprite: seq<Byte>, xpos: nat, ypos: nat, row: nat, ghost screen0: seq<Pixel>)
      requires Valid() && |screen0| == PIXELS && row < |sprite| && spriteByte == sprite[row]
      requires InBounds(sprite, xpos, ypos)
      requires screenPixels[..] == BlitWithin(screen0, sprite, xpos, ypos, row * 8)
      requires registers[FLAG] == if CollidesWithin(screen0, sprite, xpos, ypos, row * 8) then 1 else 0
      modifies registers, screenPixels
      ensures registers[..] == old(registers[..])[FLAG := registers[FLAG]]
      ensures screenPixels[..] == BlitWithin(screen0, sprite, xpos, ypos, row * 8 + 8)
      ensures registers[FLAG] == if CollidesWithin(screen0, sprite, xpos, ypos, row * 8 + 8) then 1 else 0
    {
      for col := 0 to 8
        invariant registers[..] == old(registers[..])[FLAG := registers[FLAG]]
        invariant screenPixels[..] == BlitWithin(screen0, sprite, xpos, ypos, row * 8 + col)
        invariant registers[FLAG] == if CollidesWithin(screen0, sprite, xpos, ypos, row * 8 + col) then 1 else 0
      {
        BlitStep(screen0, sprite, xpos, ypos, row, col);
        CollidesStep(screen0, sprite, xpos, ypos, row, col);
        if Bit(spriteByte, col) {
          var target := (ypos + row) * WIDTH + (xpos + col);
          if screenPixels[target] == PIXEL_ON {
            registers[FLAG] := 1;
          }
          screenPixels[target] := Flip(screenPixels[target]);
        }
      }
    }

    /** `EX9E` (`pressed`) and `EXA1`: skip when `Keymap[VX]` is 1, or 0. */
    method SkipOnKey(x: Nibble, pressed: bool) returns (fault: Option<Fault>)
      requires Valid()
      modifies this
      ensures Valid() && romName == old(romName)
      ensures Reports(ExecKeySkip(old(State()), x, pressed), old(State()), fault)
    {
      var key := registers[x];
      if key >= KEY_COUNT {
        return Some(KeyOutOfBounds);
      }
      if keymap[key] == if pressed then 1 else 0 {
        pc := Wrap16(pc as int + 2);
      }
      fault := None;
    }

    /** `FX0A`: the first pressed key in the order 0..F into VX, or `PC -= 2`. */
    method WaitForKey(x: Nibble)
      requires Valid()
      modifies this, registers
      ensures Valid() && romName == old(romName)
      ensures State() == ExecWaitKey(old(State()), x)
    {
      match FirstPressed(keymap[..], 0)
      case Some(k) => registers[x] := k;
      case None => pc := Wrap16(pc as int - 2);
    }

    /** `FX33`: the decimal digits of VX at `I`, `I + 1`, `I + 2`. */
    method StoreDigits(x: Nibble) returns (fault: Option<Fault>)
      requires Valid()
      modifies memory
      ensures Valid()
      ensures Reports(ExecBcd(old(State()), x), old(State()), fault)
    {
      if i as int + 2 >= MEMORY_SIZE {
        return Some(MemoryOutOfBounds);
      }
      var vx := registers[x];
      memory[i] := vx / 100;
      memory[i + 1] := (vx / 10) % 10;
      memory[i + 2] := (vx % 100) % 10;
      fault := None;
    }

    /** `FX55`: V0..VX to `Memory[I + k]`, one register at a time. */
    method StoreRegisterBlock(x: Nibble) returns (fault: Option<Fault>)
      requires Valid()
      modifies memory
      ensures Valid()
      ensures Reports(ExecStore(old(State()), x), old(State()), fault)
    {
      if i as int + x >= MEMORY_SIZE {
        return Some(MemoryOutOfBounds);
      }
      for k := 0 to x + 1
        invariant forall a | 0 <= a < MEMORY_SIZE ::
          memory[a] == if i <= a < i as int + k then registers[a - i] else old(memory[a])
      {
        memory[i as int + k] := registers[k];
      }
      assert memory[..] == ExecStore(old(State()), x).value.memory;
      fault := None;
    }

    /** `FX65`: `Memory[I + k]` to V0..VX, one register at a time. */
    method LoadRegisterBlock(x: Nibble) returns (fault: Option<Fault>)
      requires Valid()
      modifies registers
      ensures Valid()
      ensures Reports(ExecLoad(old(State()), x), old(State()), fault)
    {
      if i as int + x >= MEMORY_SIZE {
        return Some(MemoryOutOfBounds);
      }
      for k := 0 to x + 1
        invariant forall j | 0 <= j < REGISTER_COUNT ::
          registers[j] == if j < k then memory[i as int + j] else old(registers[j])
      {
        registers[k] := memory[i as int + k];
      }
      assert registers[..] == ExecLoad(old(State()), x).value.v;
      fault := None;
    }
  }
}
