/** What one emulation cycle guarantees, stated over `Machine.Cycle` and
    `Machine.Execute`: program-counter arithmetic, call and return, the flag
    conventions of the arithmetic instructions, the XOR sprite blit, the key
    wait, the timers, the BCD and register-block instructions, and the
    invariant every cycle keeps. */
module Properties {
  import opened Words
  import opened Instruction
  import opened Sprite
  import opened Machine

  /** The instruction the next cycle executes. */
  function Next(m: State): Instr
    requires WellFormed(m) && m.pc + 1 < MEMORY_SIZE
  {
    Decode(Fetch(m))
  }

  // ---------------------------------------------------------------------
  // Fetch and the program counter

  /** A conditional skip nets `PC + 4` when taken and `PC + 2` otherwise. */
  lemma {:induction false} SkipAdvance(m: State, rand: Byte)
    requires WellFormed(m) && m.pc + 1 < MEMORY_SIZE
    requires Next(m).SkipIfEqualImm? || Next(m).SkipIfNotEqualImm?
      || Next(m).SkipIfEqual? || Next(m).SkipIfNotEqual?
    ensures Cycle(m, rand).Ok?
    ensures var taken := match Next(m)
        case SkipIfEqualImm(x, nn) => m.v[x] == nn
        case SkipIfNotEqualImm(x, nn) => m.v[x] != nn
        case SkipIfEqual(x, y) => m.v[x] == m.v[y]
        case SkipIfNotEqual(x, y) => m.v[x] != m.v[y];
      Cycle(m, rand).value.pc == if taken then m.pc + 4 else m.pc + 2
  {
    var f := Fetched(m);
    assert f.v == m.v && f.pc == m.pc + 2;
  }

  /** `EX9E` and `EXA1` fault exactly when VX is no key index; otherwise they
      net `PC + 4` when the key is held (`EX9E`) or released (`EXA1`) and
      `PC + 2` otherwise. */
  lemma {:induction false} KeySkipAdvance(m: State, rand: Byte)
    requires WellFormed(m) && m.pc + 1 < MEMORY_SIZE
    requires Next(m).SkipIfKey? || Next(m).SkipIfNotKey?
    ensures m.v[Next(m).x] >= KEY_COUNT <==> Cycle(m, rand) == Err(KeyOutOfBounds)
    ensures m.v[Next(m).x] < KEY_COUNT ==>
      && Cycle(m, rand).Ok?
      && var key := m.keymap[m.v[Next(m).x]];
         var taken := if Next(m).SkipIfKey? then key == 1 else key == 0;
         Cycle(m, rand).value.pc == if taken then m.pc + 4 else m.pc + 2
  {
    var f := Fetched(m);
    assert f.v == m.v && f.keymap == m.keymap && f.pc == m.pc + 2;
  }

  /** `00E0` turns every pixel off and touches nothing but the framebuffer,
      `PC` and the timers. */
  lemma {:induction false} ClearScreenCycle(m: State, rand: Byte)
    requires WellFormed(m) && m.pc + 1 < MEMORY_SIZE && Next(m).ClearScreen?
    ensures Cycle(m, rand).Ok?
    ensures var r := Cycle(m, rand).value;
      && (forall p | 0 <= p < PIXELS :: r.screen[p] == 0)
      && r == Tick(m.(opcode := Fetch(m), pc := m.pc + 2, screen := r.screen))
  {
  }

  /** `1NNN` sets `PC` to `NNN` exactly and `BNNN` to `NNN + V0`. */
  lemma {:induction false} JumpTarget(m: State, rand: Byte)
    requires WellFormed(m) && m.pc + 1 < MEMORY_SIZE
    requires Next(m).Jump? || Next(m).JumpOffset?
    ensures Cycle(m, rand).Ok?
    ensures Next(m).Jump? ==> Cycle(m, rand).value.pc == Next(m).nnn
    ensures Next(m).JumpOffset? ==> Cycle(m, rand).value.pc == Next(m).nnn + m.v[0]
  {
    assert Fetched(m).v == m.v;
  }

  /** Every instruction that does not transfer control leaves `PC` just past itself. */
  lemma {:induction false} StraightLineAdvance(m: State, rand: Byte)
    requires WellFormed(m) && m.pc + 1 < MEMORY_SIZE
    requires var i := Next(m);
      !(i.Return? || i.Jump? || i.Call? || i.JumpOffset? || i.WaitKey? || i.SkipIfEqualImm?
        || i.SkipIfNotEqualImm? || i.SkipIfEqual? || i.SkipIfNotEqual? || i.SkipIfKey? || i.SkipIfNotKey?)
    requires Cycle(m, rand).Ok?
    ensures Cycle(m, rand).value.pc == m.pc + 2
  {
    var f := Fetched(m);
    match Execute(f, Next(m), rand)
    case Ok(n) => ExecutePcUnchanged(f, Next(m), rand);
    case Err(_) =>
  }

  lemma {:induction false} ExecutePcUnchanged(m: State, instr: Instr, rand: Byte)
    requires WellFormed(m)
    requires !(instr.Return? || instr.Jump? || instr.Call? || instr.JumpOffset? || instr.WaitKey?
      || instr.SkipIfEqualImm? || instr.SkipIfNotEqualImm? || instr.SkipIfEqual?
      || instr.SkipIfNotEqual? || instr.SkipIfKey? || instr.SkipIfNotKey?)
    requires Execute(m, instr, rand).Ok?
    ensures Execute(m, instr, rand).value.pc == m.pc
  {
  }

  // ---------------------------------------------------------------------
  // Subroutine call and return

  /** `2NNN` pushes the address after itself, deepens the stack by one and jumps;
      with all 16 slots in use it overflows. */
  lemma {:induction false} CallPushes(m: State, rand: Byte)
    requires WellFormed(m) && m.pc + 1 < MEMORY_SIZE && Next(m).Call?
    ensures m.sp >= STACK_DEPTH <==> Cycle(m, rand) == Err(StackOverflow)
    ensures m.sp < STACK_DEPTH ==>
      var r := Cycle(m, rand).value;
      && r.sp == m.sp + 1 && r.pc == Next(m).nnn
      && r.stack == m.stack[m.sp := m.pc + 2]
  {
    assert Fetched(m).sp == m.sp && Fetched(m).stack == m.stack;
  }

  /** `00EE` pops the top of the stack into `PC`. From `SP = 0` the 8-bit
      decrement wraps to 255, which is out of range. */
  lemma {:induction false} ReturnPops(m: State, rand: Byte)
    requires WellFormed(m) && m.pc + 1 < MEMORY_SIZE && Next(m).Return?
    ensures m.sp == 0 || m.sp > STACK_DEPTH <==> Cycle(m, rand) == Err(StackUnderflow)
    ensures 0 < m.sp <= STACK_DEPTH ==>
      var r := Cycle(m, rand).value;
      r.sp == m.sp - 1 && r.pc == m.stack[m.sp - 1] && r.stack == m.stack
  {
    assert Fetched(m).sp == m.sp && Fetched(m).stack == m.stack;
  }

  /** A return executed at the depth a call left, with the pushed slot intact,
      resumes just after the call and restores `SP`. */
  lemma {:induction false} CallThenReturn(m: State, later: State, rand1: Byte, rand2: Byte)
    requires WellFormed(m) && m.pc + 1 < MEMORY_SIZE && Next(m).Call? && m.sp < STACK_DEPTH
    requires WellFormed(later) && later.pc + 1 < MEMORY_SIZE && Next(later).Return?
    requires later.sp == Cycle(m, rand1).value.sp
    requires later.stack[m.sp] == Cycle(m, rand1).value.stack[m.sp]
    ensures Cycle(later, rand2).Ok?
    ensures Cycle(later, rand2).value.pc == m.pc + 2
    ensures Cycle(later, rand2).value.sp == m.sp
  {
    CallPushes(m, rand1);
    ReturnPops(later, rand2);
  }

  // ---------------------------------------------------------------------
  // Arithmetic and the flag register

  /** With `X` and `Y` other than VF, each flag-setting `8XY_` instruction
      stores a result and a flag that together give the exact arithmetic
      value: the carry is the ninth bit of the sum, the borrow flag is set
      only when VX is STRICTLY larger than VY (so equal operands yield 0), and
      each shift flag is the bit shifted out. */
  lemma {:induction false} AluExact(op: AluOp, v: seq<Byte>, x: Nibble, y: Nibble)
    requires |v| == REGISTER_COUNT && x != FLAG && y != FLAG
    ensures var r := AluStep(op, v, x, y);
      var a, b, rx, f := v[x] as int, v[y] as int, r[x] as int, r[FLAG] as int;
      match op
      case Add => rx + 0x100 * f == a + b && (f == 1 <==> a + b > 0xFF)
      case Sub => (f == 1 <==> a > b) && f <= 1 && rx == (if a >= b then a - b else a - b + 0x100)
      case SubReverse => (f == 1 <==> a < b) && f <= 1 && rx == (if b >= a then b - a else b - a + 0x100)
      case ShiftRight => 2 * rx + f == a && f <= 1
      case ShiftLeft => rx + 0x100 * f == 2 * a && f <= 1
      case Move => rx == b && f == v[FLAG]
      case Or => rx == BitOr(a, b) as int && f == v[FLAG]
      case And => rx == BitAnd(a, b) as int && f == v[FLAG]
      case Xor => rx == BitXor(a, b) as int && f == v[FLAG]
  {
    var r := AluStep(op, v, x, y);
    match op
    case ShiftRight => assert r[x] == v[x] / 2 && r[FLAG] == v[x] % 2;
    case ShiftLeft => assert r[x] == (2 * (v[x] as int)) % 0x100 && r[FLAG] == v[x] / 0x80;
    case _ =>
  }

  /** `8XY1`, `8XY2` and `8XY3` are bitwise: bit `k` of the new VX is the OR,
      AND or XOR of bit `k` of VX and VY, and with `X` other than VF the flag
      register is untouched. */
  lemma {:induction false} AluLogicBits(op: AluOp, v: seq<Byte>, x: Nibble, y: Nibble, k: nat)
    requires |v| == REGISTER_COUNT && (op.Or? || op.And? || op.Xor?) && k < 8
    ensures x != FLAG ==> AluStep(op, v, x, y)[FLAG] == v[FLAG]
    ensures var rx, a, b := AluStep(op, v, x, y)[x], v[x], v[y];
      && (op.Or? ==> Digit(rx, k) == if Digit(a, k) == 1 || Digit(b, k) == 1 then 1 else 0)
      && (op.And? ==> Digit(rx, k) == if Digit(a, k) == 1 && Digit(b, k) == 1 then 1 else 0)
      && (op.Xor? ==> Digit(rx, k) == if Digit(a, k) != Digit(b, k) then 1 else 0)
  {
    Pow2Byte();
    match op
    case Or => OrBitsDigit(v[x], v[y], 8, k);
    case And => AndBitsDigit(v[x], v[y], 8, k);
    case Xor => XorBitsDigit(v[x], v[y], 8, k);
  }

  /** VF is written before VX: with `X = F` the stored result replaces the
      flag (a right shift of VF leaves 0 there), and with `Y = F` the
      operand is the freshly written flag. */
  lemma {:induction false} AluFlagAliasing(v: seq<Byte>, y: Nibble)
    requires |v| == REGISTER_COUNT && y != FLAG
    ensures AluStep(ShiftRight, v, FLAG, y)[FLAG] == 0
    ensures AluStep(ShiftLeft, v, FLAG, y)[FLAG] == 2 * (v[FLAG] / 0x80)
    ensures AluStep(Add, v, FLAG, y)[FLAG] == Wrap8((v[y] as int) + if (v[FLAG] as int) + v[y] > 0xFF then 1 else 0)
    ensures AluStep(Add, v, y, FLAG)[y] == Wrap8((v[y] as int) + if (v[y] as int) + v[FLAG] > 0xFF then 1 else 0)
    ensures AluStep(Sub, v, FLAG, y)[FLAG] == Wrap8((if v[FLAG] > v[y] then 1 else 0) - (v[y] as int))
    ensures AluStep(SubReverse, v, FLAG, y)[FLAG] == Wrap8((v[y] as int) - if v[FLAG] < v[y] then 1 else 0)
    ensures AluStep(Sub, v, y, FLAG)[y] == Wrap8((v[y] as int) - if v[y] > v[FLAG] then 1 else 0)
    ensures AluStep(SubReverse, v, y, FLAG)[y] == Wrap8((if v[y] < v[FLAG] then 1 else 0) - (v[y] as int))
    ensures AluStep(Add, v, FLAG, FLAG)[FLAG] == 2 * (if 2 * (v[FLAG] as int) > 0xFF then 1 else 0)
    ensures AluStep(Sub, v, FLAG, FLAG)[FLAG] == 0
    ensures AluStep(SubReverse, v, FLAG, FLAG)[FLAG] == 0
  {
    assert AluStep(ShiftRight, v, FLAG, y)[FLAG] == (v[FLAG] % 2) / 2;
  }

  /** `7XNN` adds modulo 256 and never touches VF (unless X is F). */
  lemma {:induction false} AddImmNoCarry(m: State, x: Nibble, nn: Byte, rand: Byte)
    requires WellFormed(m) && x != FLAG
    ensures var r := Execute(m, AddImm(x, nn), rand).value;
      r.v[FLAG] == m.v[FLAG] && (r.v[x] == m.v[x] + nn || r.v[x] == m.v[x] + nn - 0x100)
  {
  }

  /** `CXNN` stores the random byte AND-ed with NN in VX, bit by bit, and
      changes no other register. */
  lemma {:induction false} RandomMasked(m: State, rand: Byte)
    requires WellFormed(m) && m.pc + 1 < MEMORY_SIZE && Next(m).Random?
    ensures Cycle(m, rand).Ok?
    ensures var r, x, nn := Cycle(m, rand).value, Next(m).x, Next(m).nn;
      && r.v == m.v[x := BitAnd(rand, nn)]
      && r.v[x] <= nn && r.pc == m.pc + 2
      && forall k: nat | k < 8 ::
           Digit(r.v[x], k) == if Digit(rand, k) == 1 && Digit(nn, k) == 1 then 1 else 0
  {
    var x, nn := Next(m).x, Next(m).nn;
    Pow2Byte();
    forall k: nat | k < 8
      ensures Digit(BitAnd(rand, nn), k) == if Digit(rand, k) == 1 && Digit(nn, k) == 1 then 1 else 0
    {
      AndBitsDigit(rand, nn, 8, k);
    }
  }

  // ---------------------------------------------------------------------
  // Sprite drawing

  /** A successful `DXYN` sets VF to 1 exactly when a set sprite bit lands on a
      lit pixel, flips exactly the targeted pixels and leaves the others alone. */
  lemma {:induction false} DrawEffect(m: State, x: Nibble, y: Nibble, n: Nibble, rand: Byte)
    requires WellFormed(m) && Execute(m, Draw(x, y, n), rand).Ok?
    ensures var r := Execute(m, Draw(x, y, n), rand).value;
      var sprite, xpos, ypos := SpriteRows(m, n), m.v[x] % WIDTH, m.v[y] % HEIGHT;
      && (r.v[FLAG] == 1 <==> exists row: nat, col: nat | row < |sprite| && col < 8 ::
            Bit(sprite[row], col) && m.screen[Target(xpos, ypos, row, col)] == PIXEL_ON)
      && r.v[FLAG] <= 1
      && forall p | 0 <= p < PIXELS ::
           r.screen[p] == if Hit(sprite, xpos, ypos, p) then Flip(m.screen[p]) else m.screen[p]
  {
    var sprite, xpos, ypos := SpriteRows(m, n), m.v[x] % WIDTH, m.v[y] % HEIGHT;
    CollidesIff(m.screen, sprite, xpos, ypos);
  }

  /** `DXYN` faults exactly when it would read past memory or write past the
      framebuffer. */
  lemma {:induction false} DrawFaults(m: State, x: Nibble, y: Nibble, n: Nibble, rand: Byte)
    requires WellFormed(m)
    ensures var r := Execute(m, Draw(x, y, n), rand);
      && (r == Err(MemoryOutOfBounds) <==> n > 0 && m.i + n > MEMORY_SIZE)
      && (r == Err(PixelOutOfBounds) <==>
            (n == 0 || m.i + n <= MEMORY_SIZE) && !InBounds(SpriteRows(m, n), m.v[x] % WIDTH, m.v[y] % HEIGHT))
  {
  }

  /** Drawing the same sprite twice at the same place, with `I`, VX and VY
      unchanged in between, restores the framebuffer; VF then reports only
      the second draw's collisions. */
  lemma {:induction false} DrawTwice(m: State, x: Nibble, y: Nibble, n: Nibble, rand1: Byte, rand2: Byte)
    requires WellFormed(m) && Execute(m, Draw(x, y, n), rand1).Ok?
    requires var once := Execute(m, Draw(x, y, n), rand1).value;
      once.v[x] == m.v[x] && once.v[y] == m.v[y]
    ensures var once := Execute(m, Draw(x, y, n), rand1).value;
      var twice := Execute(once, Draw(x, y, n), rand2);
      && twice.Ok? && twice.value.screen == m.screen
      && twice.value.v[FLAG] == (if Collides(once.screen, SpriteRows(m, n), m.v[x] % WIDTH, m.v[y] % HEIGHT) then 1 else 0)
  {
    var once := Execute(m, Draw(x, y, n), rand1).value;
    assert once.v[x] == m.v[x] && once.v[y] == m.v[y];
    assert once.memory == m.memory && once.i == m.i;
    assert SpriteRows(once, n) == SpriteRows(m, n);
    BlitTwice(m.screen, SpriteRows(m, n), m.v[x] % WIDTH, m.v[y] % HEIGHT);
  }

  /** Only the start position wraps: a sprite row `0xC0` (two set bits)
      drawn at column 63 lights the last pixel of its own row and the first
      pixel of the NEXT row, and leaves the first pixel of its own row alone. */
  lemma {:induction false} HorizontalSpill(m: State, x: Nibble, y: Nibble, rand: Byte)
    requires WellFormed(m) && m.v[x] % WIDTH == WIDTH - 1 && m.v[y] % HEIGHT < HEIGHT - 1
    requires m.i < MEMORY_SIZE && m.memory[m.i] == 0xC0
    ensures var r, ypos := Execute(m, Draw(x, y, 1), rand), m.v[y] % HEIGHT;
      && r.Ok?
      && r.value.screen[ypos * WIDTH + WIDTH - 1] == Flip(m.screen[ypos * WIDTH + WIDTH - 1])
      && r.value.screen[(ypos + 1) * WIDTH] == Flip(m.screen[(ypos + 1) * WIDTH])
      && r.value.screen[ypos * WIDTH] == m.screen[ypos * WIDTH]
  {
    var xpos, ypos := m.v[x] % WIDTH, m.v[y] % HEIGHT;
    var sprite := SpriteRows(m, 1);
    assert sprite == [0xC0];
    SpillTargets(xpos, ypos);
    var screen := Blit(m.screen, sprite, xpos, ypos);
    assert ExecDraw(m, x, y, 1).value.screen == screen;
    assert Execute(m, Draw(x, y, 1), rand) == ExecDraw(m, x, y, 1);
  }

  /** The sprite row `0xC0` drawn at column 63 lies inside the framebuffer,
      hits the last pixel of its row and the first of the next, and misses
      the first pixel of its own row. */
  lemma {:induction false} SpillTargets(xpos: nat, ypos: nat)
    requires xpos == WIDTH - 1 && ypos < HEIGHT - 1
    ensures InBounds([0xC0], xpos, ypos)
    ensures Hit([0xC0], xpos, ypos, ypos * WIDTH + WIDTH - 1)
    ensures Hit([0xC0], xpos, ypos, (ypos + 1) * WIDTH)
    ensures !Hit([0xC0], xpos, ypos, ypos * WIDTH)
  {
    var sprite: seq<Byte> := [0xC0];
    Pow2Byte();
    assert ColumnMask(1) == 0x40;
    assert BitAnd(0xC0, 0x80) == 0x80;
    assert BitAnd(0xC0, 0x40) == 0x40;
    assert InBounds(sprite, xpos, ypos) by {
      forall row: nat, col: nat | row < |sprite| && col < 8
        ensures Target(xpos, ypos, row, col) < PIXELS
      {
      }
    }
    HitWithinTarget(sprite, xpos, ypos, 0, 0, 8);
    HitWithinTarget(sprite, xpos, ypos, 0, 1, 8);
  }

  // ---------------------------------------------------------------------
  // Keys and timers

  /** `FX0A` with no key down leaves `PC` on itself so that it runs again;
      the timers still tick. With a key down it stores the lowest one. */
  lemma {:induction false} WaitKeyCycle(m: State, rand: Byte)
    requires WellFormed(m) && m.pc + 1 < MEMORY_SIZE && Next(m).WaitKey?
    ensures Cycle(m, rand).Ok?
    ensures var r, x := Cycle(m, rand).value, Next(m).x;
      && (r.delay == if m.delay > 0 then m.delay - 1 else 0)
      && ((forall k | 0 <= k < KEY_COUNT :: m.keymap[k] == 0) ==> r.pc == m.pc && r.v == m.v)
      && ((exists k | 0 <= k < KEY_COUNT :: m.keymap[k] != 0) ==>
            r.pc == m.pc + 2 && m.keymap[r.v[x]] != 0
            && (forall k | 0 <= k < r.v[x] :: m.keymap[k] == 0)
            && r.v == m.v[x := r.v[x]])
  {
    var f := Fetched(m);
    assert f.keymap == m.keymap && f.v == m.v && f.delay == m.delay;
  }

  /** Every successful cycle counts each nonzero timer down by exactly one and
      leaves a zero timer at zero, unless the instruction itself loaded that
      timer (which then counts down from the loaded value). */
  lemma {:induction false} TimersTick(m: State, rand: Byte)
    requires WellFormed(m) && Cycle(m, rand).Ok?
    ensures !Next(m).SetDelay? ==>
      Cycle(m, rand).value.delay == if m.delay > 0 then m.delay - 1 else 0
    ensures !Next(m).SetSound? ==>
      Cycle(m, rand).value.sound == if m.sound > 0 then m.sound - 1 else 0
    ensures Next(m).SetDelay? ==> Cycle(m, rand).value.delay == Tick(m.(delay := m.v[Next(m).x])).delay
    ensures Next(m).SetSound? ==> Cycle(m, rand).value.sound == Tick(m.(sound := m.v[Next(m).x])).sound
  {
    var f := Fetched(m);
    ExecuteTimers(f, Next(m), rand);
  }

  lemma {:induction false} ExecuteTimers(m: State, instr: Instr, rand: Byte)
    requires WellFormed(m) && Execute(m, instr, rand).Ok?
    ensures !instr.SetDelay? ==> Execute(m, instr, rand).value.delay == m.delay
    ensures !instr.SetSound? ==> Execute(m, instr, rand).value.sound == m.sound
  {
  }

  // ---------------------------------------------------------------------
  // BCD and register blocks

  /** `FX33` stores three decimal digits whose value is VX, leaves `I` and the
      rest of memory alone, and faults when `I + 2` is past memory. */
  lemma {:induction false} BcdDigits(m: State, x: Nibble, rand: Byte)
    requires WellFormed(m)
    ensures Execute(m, StoreBcd(x), rand).Err? <==> m.i + 2 >= MEMORY_SIZE
    ensures m.i + 2 < MEMORY_SIZE ==>
      var r := Execute(m, StoreBcd(x), rand).value;
      var d0, d1, d2 := r.memory[m.i], r.memory[m.i + 1], r.memory[m.i + 2];
      && d0 < 10 && d1 < 10 && d2 < 10
      && 100 * d0 + 10 * d1 + d2 == m.v[x]
      && r.i == m.i && r.v == m.v
      && forall a | 0 <= a < MEMORY_SIZE && !(m.i <= a <= m.i + 2) :: r.memory[a] == m.memory[a]
  {
    if m.i + 2 < MEMORY_SIZE {
      DecimalDigits(m.v[x]);
      var r := Execute(m, StoreBcd(x), rand).value;
      assert r.memory == m.memory[m.i := m.v[x] / 100][m.i + 1 := (m.v[x] / 10) % 10][m.i + 2 := (m.v[x] % 100) % 10];
    }
  }

  /** The three digits `FX33` computes are decimal digits and spell the value. */
  lemma DecimalDigits(vx: Byte)
    ensures vx / 100 < 10 && (vx / 10) % 10 < 10 && (vx % 100) % 10 < 10
    ensures 100 * (vx / 100) + 10 * ((vx / 10) % 10) + (vx % 100) % 10 == vx
  {
    assert vx == 100 * (vx / 100) + 10 * ((vx / 10) % 10) + (vx % 100) % 10;
  }

  /** `FX55` followed by `FX65` with the same `I` and `X` gives V0..VX back
      their values; neither moves `I`. */
  lemma {:induction false} StoreThenLoad(m: State, x: Nibble, rand1: Byte, rand2: Byte)
    requires WellFormed(m) && m.i + x < MEMORY_SIZE
    ensures var stored := Execute(m, StoreRegisters(x), rand1);
      && stored.Ok? && stored.value.i == m.i
      && var loaded := Execute(stored.value, LoadRegisters(x), rand2);
         loaded.Ok? && loaded.value.i == m.i && loaded.value.v == m.v
  {
    var stored := Execute(m, StoreRegisters(x), rand1).value;
    var loaded := Execute(stored, LoadRegisters(x), rand2).value;
    forall k | 0 <= k < REGISTER_COUNT
      ensures loaded.v[k] == m.v[k]
    {
      if k <= x {
        assert loaded.v[k] == stored.memory[m.i + k];
      }
    }
  }

  // ---------------------------------------------------------------------
  // Widths and unknown opcodes

  /** `FX1E` adds VX to the 16-bit `I`, wrapping past 0xFFFF with no flag. */
  lemma {:induction false} AddIndexWraps(m: State, x: Nibble, rand: Byte)
    requires WellFormed(m)
    ensures var r := Execute(m, AddIndex(x), rand).value;
      && (m.i + m.v[x] <= 0xFFFF ==> r.i == m.i + m.v[x])
      && (m.i + m.v[x] > 0xFFFF ==> r.i == m.i + m.v[x] - 0x1_0000 && r.i < m.v[x])
      && r.v == m.v
  {
  }

  /** An opcode no case of the decoder matches only advances `PC` and ticks the timers. */
  lemma {:induction false} UnknownIsNop(m: State, rand: Byte)
    requires WellFormed(m) && m.pc + 1 < MEMORY_SIZE && Next(m).Unknown?
    ensures Cycle(m, rand) == Ok(Tick(m.(opcode := Fetch(m), pc := m.pc + 2)))
  {
  }

  // ---------------------------------------------------------------------
  // The font

  /** The constructor's font does not survive `Reset`: the font area of the
      initial state is not the font set. */
  lemma FontErased()
    ensures Initial().memory[FONT_START_ADDRESS .. FONT_START_ADDRESS + FONTSET_SIZE] != FONTSET
  {
    assert |FONTSET| == FONTSET_SIZE;
    assert FONTSET[0] == 0xF0;
    assert Initial().memory[FONT_START_ADDRESS .. FONT_START_ADDRESS + FONTSET_SIZE][0] == 0;
  }

  /** `FX29` points `I` at the five font rows of digit VX, which lie inside the
      font area exactly when VX is a hexadecimal digit. */
  lemma {:induction false} FontGlyphAddress(m: State, x: Nibble, rand: Byte)
    requires WellFormed(m)
    ensures var r := Execute(m, FontGlyph(x), rand).value;
      && r.i == FONT_START_ADDRESS + 5 * (m.v[x] as int)
      && (r.i + 5 <= FONT_START_ADDRESS + FONTSET_SIZE <==> m.v[x] < 0x10)
      && r.v == m.v && r.memory == m.memory
  {
  }

  /** With the font area zeroed, as `Reset` leaves it, `FX29` followed by a
      five-row `DXYN` draws nothing and reports no collision. */
  lemma {:induction false} GlyphBlankAfterReset(m: State, x: Nibble, a: Nibble, b: Nibble, rand1: Byte, rand2: Byte)
    requires WellFormed(m) && m.v[x] < 0x10
    requires forall k | FONT_START_ADDRESS <= k < FONT_START_ADDRESS + FONTSET_SIZE :: m.memory[k] == 0
    ensures var glyph := Execute(m, FontGlyph(x), rand1).value;
      var drawn := Execute(glyph, Draw(a, b, 5), rand2);
      drawn.Ok? && drawn.value.screen == m.screen && drawn.value.v[FLAG] == 0
  {
    var glyph := Execute(m, FontGlyph(x), rand1).value;
    var sprite := SpriteRows(glyph, 5);
    assert forall row | 0 <= row < 5 :: sprite[row] == 0;
    var xpos, ypos := glyph.v[a] % WIDTH, glyph.v[b] % HEIGHT;
    forall p | 0 <= p < PIXELS
      ensures !Hit(sprite, xpos, ypos, p)
    {
      var d := p - (ypos * WIDTH + xpos);
      if 0 <= d && d / WIDTH < |sprite| && d % WIDTH < 8 {
        assert sprite[d / WIDTH] == 0;
      }
    }
    assert Blit(glyph.screen, sprite, xpos, ypos) == m.screen;
  }

  // ---------------------------------------------------------------------
  // The invariant of reachable states

  /** `SP` stays within the stack and pixels stay off or fully on, cycle after cycle. */
  lemma {:induction false} CycleKeepsConsistent(m: State, rand: Byte)
    requires Consistent(m) && Cycle(m, rand).Ok?
    ensures Consistent(Cycle(m, rand).value)
  {
    var f := Fetched(m);
    var instr := Next(m);
    var r := Execute(f, instr, rand).value;
    match instr
    case Draw(x, y, n) =>
      BlitMonochrome(f.screen, SpriteRows(f, n), f.v[x] % WIDTH, f.v[y] % HEIGHT);
    case _ =>
  }

  // ---------------------------------------------------------------------
  // A two-instruction program

  /** `6XNN` followed by `7XNN`: one cycle each, VX ends at the wrapped sum. */
  lemma {:induction false} LoadImmCycle(m: State, rand: Byte)
    requires WellFormed(m) && m.pc + 1 < MEMORY_SIZE && Next(m).LoadImm?
    ensures Cycle(m, rand).Ok?
    ensures var r := Cycle(m, rand).value;
      r.memory == m.memory && r.pc == m.pc + 2 && r.v == m.v[Next(m).x := Next(m).nn]
  {
  }

  lemma {:induction false} AddImmCycle(m: State, rand: Byte)
    requires WellFormed(m) && m.pc + 1 < MEMORY_SIZE && Next(m).AddImm?
    ensures Cycle(m, rand).Ok?
    ensures var r, x := Cycle(m, rand).value, Next(m).x;
      r.pc == m.pc + 2 && r.v == m.v[x := Wrap8(m.v[x] + Next(m).nn)]
  {
  }

  /** The program `6005 7003` (V0 := 5; V0 += 3) at `PC`: two cycles leave 8
      in V0 and `PC` four bytes further on. */
  lemma {:induction false} LoadAddProgram(m: State, rand1: Byte, rand2: Byte)
    requires WellFormed(m) && m.pc + 3 < MEMORY_SIZE
    requires Next(m) == LoadImm(0, 5)
    requires Decode((m.memory[m.pc + 2] as int) * 0x100 + m.memory[m.pc + 3]) == AddImm(0, 3)
    ensures Cycle(m, rand1).Ok?
    ensures var m1 := Cycle(m, rand1).value;
      && Cycle(m1, rand2).Ok?
      && Cycle(m1, rand2).value.v[0] == 8
      && Cycle(m1, rand2).value.pc == m.pc + 4
  {
    LoadImmCycle(m, rand1);
    var m1 := Cycle(m, rand1).value;
    assert Fetch(m1) == (m.memory[m.pc + 2] as int) * 0x100 + m.memory[m.pc + 3];
    AddImmCycle(m1, rand2);
  }

  /** A freshly reset machine with that program loaded runs it from `0x200`. */
  lemma LoadAddProgramAfterReset(rand1: Byte, rand2: Byte)
    ensures var m := Initial().(memory := Loaded(Initial().memory, [0x60, 0x05, 0x70, 0x03]));
      && Cycle(m, rand1).Ok?
      && Cycle(Cycle(m, rand1).value, rand2).Ok?
      && Cycle(Cycle(m, rand1).value, rand2).value.v[0] == 8
      && Cycle(Cycle(m, rand1).value, rand2).value.pc == 0x204
  {
    var m := Initial().(memory := Loaded(Initial().memory, [0x60, 0x05, 0x70, 0x03]));
    ProgramDecodes(m);
    LoadAddProgram(m, rand1, rand2);
  }

  lemma ProgramDecodes(m: State)
    requires WellFormed(m) && m.pc == START_ADDRESS
    requires m.memory == Loaded(Initial().memory, [0x60, 0x05, 0x70, 0x03])
    ensures Next(m) == LoadImm(0, 5)
    ensures Decode((m.memory[m.pc + 2] as int) * 0x100 + m.memory[m.pc + 3]) == AddImm(0, 3)
  {
    assert Fetch(m) == 0x6005;
    assert (m.memory[m.pc + 2] as int) * 0x100 + m.memory[m.pc + 3] == 0x7003;
  }
}
