/** The state of the CHIP-8 machine as a value, and one emulation cycle as a
    function of it.

    `State` holds exactly the fields of the `Emulator` class that the cycle
    reads or writes: memory, the register file, `I`, `PC`, the stack and `SP`,
    both timers, the current opcode, the keymap and the framebuffer.
    `Cycle` is `Emulator::ExecuteCycle`: fetch, advance `PC`, execute, tick
    the timers. Where the C++ code would index an array out of range (it checks
    no bound at all) the cycle instead returns a `Fault` and the machine is
    left as it was. The random byte of `CXNN` is a parameter. */
module Machine {
  import opened Words
  import opened Instruction
  import opened Sprite

  const MEMORY_SIZE := 4096
  const REGISTER_COUNT := 16
  /** VF, the last register, doubles as the carry, borrow and collision flag. */
  const FLAG: Nibble := 0xF
  const STACK_DEPTH := 16
  const KEY_COUNT := 16
  /** The first address of program ROM and work RAM. */
  const START_ADDRESS := 0x200
  const FONT_START_ADDRESS := 0x50
  const FONTSET_SIZE := 80

  /** The sprites of the hexadecimal digits 0 to F, five rows each. */
  const FONTSET: seq<Byte> :=
    [0xF0, 0x90, 0x90, 0x90, 0xF0] + // 0
    [0x20, 0x60, 0x20, 0x20, 0x70] + // 1
    [0xF0, 0x10, 0xF0, 0x80, 0xF0] + // 2
    [0xF0, 0x10, 0xF0, 0x10, 0xF0] + // 3
    [0x90, 0x90, 0xF0, 0x10, 0x10] + // 4
    [0xF0, 0x80, 0xF0, 0x10, 0xF0] + // 5
    [0xF0, 0x80, 0xF0, 0x90, 0xF0] + // 6
    [0xF0, 0x10, 0x20, 0x40, 0x40] + // 7
    [0xF0, 0x90, 0xF0, 0x90, 0xF0] + // 8
    [0xF0, 0x90, 0xF0, 0x10, 0xF0] + // 9
    [0xF0, 0x90, 0xF0, 0x90, 0x90] + // A
    [0xE0, 0x90, 0xE0, 0x90, 0xE0] + // B
    [0xF0, 0x80, 0x80, 0x80, 0xF0] + // C
    [0xE0, 0x90, 0x90, 0x90, 0xE0] + // D
    [0xF0, 0x80, 0xF0, 0x80, 0xF0] + // E
    [0xF0, 0x80, 0xF0, 0x80, 0x80] // F

  /** The out-of-range accesses the emulator performs without checking. */
  datatype Fault =
    | FetchOutOfBounds   // Memory[PC + 1] with PC + 1 >= 4096
    | StackOverflow      // Stack[SP] with SP >= 16 on a call
    | StackUnderflow     // Stack[--SP] with the decremented 8-bit SP >= 16 on a return
    | MemoryOutOfBounds  // Memory[I + k] with I + k >= 4096
    | KeyOutOfBounds     // Keymap[VX] with VX >= 16
    | PixelOutOfBounds   // ScreenPixels[(Ypos + row) * 64 + Xpos + col] at or past 2048
    | RomTooLarge        // a ROM longer than 4096 - 0x200 bytes
    | PathWithoutSeparator // FilePath.substr(npos): the path has no '\\'

  datatype Result<T> = Ok(value: T) | Err(fault: Fault)

  datatype State = State(
    memory: seq<Byte>,
    v: seq<Byte>,
    i: Word,
    pc: Word,
    stack: seq<Word>,
    sp: Byte,
    delay: Byte,
    sound: Byte,
    opcode: Word,
    keymap: seq<Byte>,
    screen: seq<Pixel>)

  /** Every array has the size the emulator declares. */
  predicate WellFormed(m: State)
  {
    && |m.memory| == MEMORY_SIZE
    && |m.v| == REGISTER_COUNT
    && |m.stack| == STACK_DEPTH
    && |m.keymap| == KEY_COUNT
    && |m.screen| == PIXELS
  }

  /** What every reachable state satisfies besides its shape: `SP` never
      exceeds the stack depth and every pixel is off or fully on. */
  predicate Consistent(m: State)
  {
    WellFormed(m) && m.sp <= STACK_DEPTH && Monochrome(m.screen)
  }

  /** The state `Emulator::Reset` leaves: everything zero but `PC`. */
  function Initial(): (m: State)
    ensures Consistent(m)
  {
    State(seq(MEMORY_SIZE, _ => 0), seq(REGISTER_COUNT, _ => 0), 0, START_ADDRESS,
          seq(STACK_DEPTH, _ => 0), 0, 0, 0, 0, seq(KEY_COUNT, _ => 0), seq(PIXELS, _ => 0))
  }

  /** Memory after copying `rom` to `START_ADDRESS` onwards. */
  function Loaded(memory: seq<Byte>, rom: seq<Byte>): (r: seq<Byte>)
    requires |memory| == MEMORY_SIZE && |rom| <= MEMORY_SIZE - START_ADDRESS
    ensures |r| == MEMORY_SIZE
    ensures forall a | 0 <= a < MEMORY_SIZE ::
      r[a] == if START_ADDRESS <= a < START_ADDRESS + |rom| then rom[a - START_ADDRESS] else memory[a]
  {
    memory[..START_ADDRESS] + rom + memory[START_ADDRESS + |rom|..]
  }

  /** `find_last_of(c)`: the last position of `c` in `s`, if any. */
  function LastIndexOf(s: string, c: char): (r: Option<nat>)
    ensures r.None? <==> c !in s
    ensures r.Some? ==>
      r.value < |s| && s[r.value] == c && forall k | r.value < k < |s| :: s[k] != c
  {
    if |s| == 0 then None
    else if s[|s| - 1] == c then Some(|s| - 1)
    else
      var r := LastIndexOf(s[..|s| - 1], c);
      assert s == s[..|s| - 1] + [s[|s| - 1]];
      r
  }

  /** `FilePath.substr(FilePath.find_last_of('\\'))`: the suffix of the path
      from its last backslash on, backslash included; a path without a
      backslash makes `substr` throw, which is `None` here. */
  function RomNameOf(path: string): (r: Option<string>)
    ensures r.None? <==> '\\' !in path
    ensures r.Some? ==>
      && 0 < |r.value| <= |path| && r.value == path[|path| - |r.value|..]
      && r.value[0] == '\\' && '\\' !in r.value[1..]
  {
    match LastIndexOf(path, '\\')
    case None => None
    case Some(k) => Some(path[k..])
  }

  /** The big-endian instruction word at `PC`. */
  function Fetch(m: State): (op: Word)
    requires WellFormed(m) && m.pc + 1 < MEMORY_SIZE
    ensures op / 0x100 == m.memory[m.pc] && op % 0x100 == m.memory[m.pc + 1]
  {
    (m.memory[m.pc] as int) * 0x100 + m.memory[m.pc + 1]
  }

  /** `PC += 2` when the condition holds: skip the following instruction. */
  function SkipIf(m: State, cond: bool): (r: State)
    ensures r == m.(pc := r.pc)
    ensures r.pc != m.pc <==> cond
    ensures cond ==> r.pc == Wrap16(m.pc + 2)
  {
    if cond then m.(pc := Wrap16(m.pc + 2)) else m
  }

  /** The register file after an `8XY_` instruction. The flag operations
      write VF first and then compute VX from the updated registers, as the
      source does, so `X = F` overwrites the flag and `Y = F` reads it. */
  function AluStep(op: AluOp, v: seq<Byte>, x: Nibble, y: Nibble): (r: seq<Byte>)
    requires |v| == REGISTER_COUNT
    ensures |r| == REGISTER_COUNT
    ensures forall k | 0 <= k < REGISTER_COUNT && k != x && k != FLAG :: r[k] == v[k]
  {
    match op
    case Move => v[x := v[y]]
    case Or => v[x := BitOr(v[x], v[y])]
    case And => v[x := BitAnd(v[x], v[y])]
    case Xor => v[x := BitXor(v[x], v[y])]
    case Add =>
      var w := v[FLAG := if (v[x] as int) + v[y] > 0xFF then 1 else 0];
      w[x := Wrap8(w[x] + w[y])]
    case Sub =>
      var w := v[FLAG := if v[x] > v[y] then 1 else 0];
      w[x := Wrap8(w[x] - w[y])]
    case ShiftRight =>
      var w := v[FLAG := v[x] % 2];
      w[x := w[x] / 2]
    case SubReverse =>
      var w := v[FLAG := if v[x] < v[y] then 1 else 0];
      w[x := Wrap8(w[y] - w[x])]
    case ShiftLeft =>
      var w := v[FLAG := v[x] / 0x80];
      w[x := Wrap8(w[x] * 2)]
  }

  /** The `FX0A` scan: the lowest key index from `from` on whose keymap entry is nonzero. */
  function FirstPressed(keymap: seq<Byte>, from: nat): (r: Option<Nibble>)
    requires |keymap| == KEY_COUNT
    ensures r.Some? ==>
      from <= r.value && keymap[r.value] != 0 && forall k | from <= k < r.value :: keymap[k] == 0
    ensures r.None? ==> forall k | from <= k < KEY_COUNT :: keymap[k] == 0
    decreases KEY_COUNT - from
  {
    if from >= KEY_COUNT then None
    else if keymap[from] != 0 then Some(from)
    else FirstPressed(keymap, from + 1)
  }

  /** The sprite rows `DXYN` reads: `Memory[I .. I + N)`. */
  function SpriteRows(m: State, n: Nibble): seq<Byte>
    requires WellFormed(m) && (n == 0 || m.i + n <= MEMORY_SIZE)
  {
    if n == 0 then [] else m.memory[m.i .. m.i + n]
  }

  /** `DXYN`: the sprite at `Memory[I .. I + N)` XOR-ed onto the framebuffer
      at (VX mod 64, VY mod 32), VF the collision flag. */
  function ExecDraw(m: State, x: Nibble, y: Nibble, n: Nibble): (r: Result<State>)
    requires WellFormed(m)
    ensures r.Ok? ==> WellFormed(r.value)
    ensures r.Ok? ==> r.value == m.(screen := r.value.screen, v := m.v[FLAG := r.value.v[FLAG]])
    ensures r.Ok? ==> r.value.v[FLAG] <= 1
    ensures r.Err? ==> r.fault == MemoryOutOfBounds || r.fault == PixelOutOfBounds
  {
    var xpos, ypos := m.v[x] % WIDTH, m.v[y] % HEIGHT;
    if n > 0 && m.i + n > MEMORY_SIZE then Err(MemoryOutOfBounds)
    else
      var sprite := SpriteRows(m, n);
      if !InBounds(sprite, xpos, ypos) then Err(PixelOutOfBounds)
      else
        Ok(m.(screen := Blit(m.screen, sprite, xpos, ypos),
              v := m.v[FLAG := if Collides(m.screen, sprite, xpos, ypos) then 1 else 0]))
  }

  /** `FX33`: the hundreds, tens and units digits of VX at `I`, `I + 1`, `I + 2`. */
  function ExecBcd(m: State, x: Nibble): (r: Result<State>)
    requires WellFormed(m)
    ensures r.Ok? ==> WellFormed(r.value)
    ensures r.Err? <==> m.i + 2 >= MEMORY_SIZE
    ensures r.Err? ==> r.fault == MemoryOutOfBounds
    ensures r.Ok? ==> r.value == m.(memory := r.value.memory)
    ensures r.Ok? ==> forall a | 0 <= a < MEMORY_SIZE && (a < m.i || m.i + 2 < a) ::
      r.value.memory[a] == m.memory[a]
  {
    if m.i + 2 >= MEMORY_SIZE then Err(MemoryOutOfBounds)
    else
      var vx := m.v[x];
      Ok(m.(memory := m.memory[m.i := vx / 100][m.i + 1 := (vx / 10) % 10][m.i + 2 := (vx % 100) % 10]))
  }

  /** `FX55`: V0..VX to `Memory[I .. I + X]`; `I` is not changed. */
  function ExecStore(m: State, x: Nibble): (r: Result<State>)
    requires WellFormed(m)
    ensures r.Ok? ==> WellFormed(r.value)
    ensures r.Err? <==> m.i + x >= MEMORY_SIZE
    ensures r.Err? ==> r.fault == MemoryOutOfBounds
    ensures r.Ok? ==> r.value == m.(memory := r.value.memory)
    ensures r.Ok? ==> forall k | 0 <= k <= x :: r.value.memory[m.i + k] == m.v[k]
    ensures r.Ok? ==> forall a | 0 <= a < MEMORY_SIZE && (a < m.i || m.i + x < a) ::
      r.value.memory[a] == m.memory[a]
  {
    if m.i + x >= MEMORY_SIZE then Err(MemoryOutOfBounds)
    else
      Ok(m.(memory := seq(MEMORY_SIZE, a requires 0 <= a < MEMORY_SIZE =>
        if m.i <= a <= m.i + x then m.v[a - m.i] else m.memory[a])))
  }

  /** `FX65`: `Memory[I .. I + X]` to V0..VX; `I` is not changed. */
  function ExecLoad(m: State, x: Nibble): (r: Result<State>)
    requires WellFormed(m)
    ensures r.Ok? ==> WellFormed(r.value)
    ensures r.Err? <==> m.i + x >= MEMORY_SIZE
    ensures r.Err? ==> r.fault == MemoryOutOfBounds
    ensures r.Ok? ==> r.value == m.(v := r.value.v)
    ensures r.Ok? ==> forall k | 0 <= k <= x :: r.value.v[k] == m.memory[m.i + k]
    ensures r.Ok? ==> forall k | x < k < REGISTER_COUNT :: r.value.v[k] == m.v[k]
  {
    if m.i + x >= MEMORY_SIZE then Err(MemoryOutOfBounds)
    else
      Ok(m.(v := seq(REGISTER_COUNT, k requires 0 <= k < REGISTER_COUNT =>
        if k <= x then m.memory[m.i + k] else m.v[k])))
  }

  /** `EX9E` and `EXA1`: skip when `Keymap[VX]` is 1 (pressed) or 0 (released). */
  function ExecKeySkip(m: State, x: Nibble, pressed: bool): (r: Result<State>)
    requires WellFormed(m)
    ensures r.Ok? ==> WellFormed(r.value)
    ensures r.Err? <==> m.v[x] >= KEY_COUNT
    ensures r.Err? ==> r.fault == KeyOutOfBounds
    ensures r.Ok? ==> r.value == m.(pc := r.value.pc)
    ensures r.Ok? ==> (r.value.pc != m.pc <==> m.keymap[m.v[x]] == if pressed then 1 else 0)
    ensures r.Ok? && r.value.pc != m.pc ==> r.value.pc == Wrap16(m.pc + 2)
  {
    if m.v[x] >= KEY_COUNT then Err(KeyOutOfBounds)
    else Ok(SkipIf(m, m.keymap[m.v[x]] == if pressed then 1 else 0))
  }

  /** `FX0A`: the lowest pressed key into VX, or `PC -= 2` to run this instruction again. */
  function ExecWaitKey(m: State, x: Nibble): (r: State)
    requires WellFormed(m)
    ensures WellFormed(r)
    ensures r == m.(v := r.v, pc := r.pc)
    ensures r.pc == m.pc ==>
      && r.v == m.v[x := r.v[x]] && r.v[x] < KEY_COUNT && m.keymap[r.v[x]] != 0
      && forall k | 0 <= k < r.v[x] :: m.keymap[k] == 0
    ensures r.pc != m.pc ==>
      && r.v == m.v && r.pc == Wrap16(m.pc - 2)
      && forall k | 0 <= k < KEY_COUNT :: m.keymap[k] == 0
  {
    match FirstPressed(m.keymap, 0)
    case Some(k) => m.(v := m.v[x := k])
    case None => m.(pc := Wrap16(m.pc - 2))
  }

  /** The effect of one decoded instruction; `PC` has already been advanced. */
  function Execute(m: State, instr: Instr, rand: Byte): (r: Result<State>)
    requires WellFormed(m)
    ensures r.Ok? ==> WellFormed(r.value) && r.value.keymap == m.keymap
    ensures r.Err? ==> !r.fault.FetchOutOfBounds?
  {
    match instr
    case ClearScreen => Ok(m.(screen := seq(PIXELS, _ => 0)))
    case Return =>
      var sp := Wrap8(m.sp - 1);
      if sp >= STACK_DEPTH then Err(StackUnderflow) else Ok(m.(sp := sp, pc := m.stack[sp]))
    case Jump(nnn) => Ok(m.(pc := nnn))
    case Call(nnn) =>
      if m.sp >= STACK_DEPTH then Err(StackOverflow)
      else Ok(m.(stack := m.stack[m.sp := m.pc], sp := m.sp + 1, pc := nnn))
    case SkipIfEqualImm(x, nn) => Ok(SkipIf(m, m.v[x] == nn))
    case SkipIfNotEqualImm(x, nn) => Ok(SkipIf(m, m.v[x] != nn))
    case SkipIfEqual(x, y) => Ok(SkipIf(m, m.v[x] == m.v[y]))
    case LoadImm(x, nn) => Ok(m.(v := m.v[x := nn]))
    case AddImm(x, nn) => Ok(m.(v := m.v[x := Wrap8(m.v[x] + nn)]))
    case Alu(op, x, y) => Ok(m.(v := AluStep(op, m.v, x, y)))
    case SkipIfNotEqual(x, y) => Ok(SkipIf(m, m.v[x] != m.v[y]))
    case LoadIndex(nnn) => Ok(m.(i := nnn))
    // NNN + V0 is at most 0xFFF + 0xFF, so the 16-bit assignment never truncates.
    case JumpOffset(nnn) => Ok(m.(pc := nnn + m.v[0]))
    case Random(x, nn) => Ok(m.(v := m.v[x := BitAnd(rand, nn)]))
    case Draw(x, y, n) => ExecDraw(m, x, y, n)
    case SkipIfKey(x) => ExecKeySkip(m, x, true)
    case SkipIfNotKey(x) => ExecKeySkip(m, x, false)
    case ReadDelay(x) => Ok(m.(v := m.v[x := m.delay]))
    case WaitKey(x) => Ok(ExecWaitKey(m, x))
    case SetDelay(x) => Ok(m.(delay := m.v[x]))
    case SetSound(x) => Ok(m.(sound := m.v[x]))
    case AddIndex(x) => Ok(m.(i := Wrap16(m.i + m.v[x])))
    case FontGlyph(x) => Ok(m.(i := FONT_START_ADDRESS + 5 * (m.v[x] as int)))
    case StoreBcd(x) => ExecBcd(m, x)
    case StoreRegisters(x) => ExecStore(m, x)
    case LoadRegisters(x) => ExecLoad(m, x)
    case Unknown => Ok(m)
  }

  /** The end of every cycle: each nonzero timer counts down by one. */
  function Tick(m: State): (r: State)
    ensures r.delay == if m.delay > 0 then m.delay - 1 else 0
    ensures r.sound == if m.sound > 0 then m.sound - 1 else 0
    ensures r == m.(delay := r.delay, sound := r.sound)
  {
    m.(delay := if m.delay > 0 then m.delay - 1 else 0,
       sound := if m.sound > 0 then m.sound - 1 else 0)
  }

  /** The state after `PC` has been fetched from and advanced. */
  function Fetched(m: State): (r: State)
    requires WellFormed(m) && m.pc + 1 < MEMORY_SIZE
    ensures WellFormed(r) && r.pc == m.pc + 2
  {
    m.(opcode := Fetch(m), pc := Wrap16(m.pc + 2))
  }

  /** One emulation cycle: fetch, advance `PC` by 2, execute, tick the timers. */
  function Cycle(m: State, rand: Byte): (r: Result<State>)
    requires WellFormed(m)
    ensures r.Ok? ==> WellFormed(r.value) && r.value.keymap == m.keymap
    ensures m.pc + 1 >= MEMORY_SIZE <==> r == Err(FetchOutOfBounds)
  {
    if m.pc + 1 >= MEMORY_SIZE then Err(FetchOutOfBounds)
    else
      var fetched := Fetched(m);
      match Execute(fetched, Decode(fetched.opcode), rand)
      case Ok(next) => Ok(Tick(next))
      case Err(f) => Err(f)
  }
}
