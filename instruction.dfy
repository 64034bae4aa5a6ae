/** The CHIP-8 instruction set as the emulator's `switch` in
    `Emulator::ExecuteCycle` recognises it.

    `Decode` splits a fetched 16-bit opcode into the fields the source
    extracts with masks and shifts (`(Opcode & 0x0F00) >> 8` is
    `(op / 0x100) % 0x10`, and so on) and picks the case the nested switches
    pick, including the bits the source does NOT examine. `Encode` is the
    canonical encoding of each instruction; the two form a round trip. */
module Instruction {
  import opened Words

  /** The register-to-register operations of the `8XY_` family. */
  datatype AluOp =
    | Move        // 8XY0
    | Or          // 8XY1
    | And         // 8XY2
    | Xor         // 8XY3
    | Add         // 8XY4
    | Sub         // 8XY5
    | ShiftRight  // 8XY6
    | SubReverse  // 8XY7
    | ShiftLeft   // 8XYE

  datatype Instr =
    | ClearScreen                          // 00E0, and every 0NN0
    | Return                               // 00EE, and every 0NNE
    | Jump(nnn: Addr)                      // 1NNN
    | Call(nnn: Addr)                      // 2NNN
    | SkipIfEqualImm(x: Nibble, nn: Byte)  // 3XNN
    | SkipIfNotEqualImm(x: Nibble, nn: Byte) // 4XNN
    | SkipIfEqual(x: Nibble, y: Nibble)    // 5XY0, low nibble ignored
    | LoadImm(x: Nibble, nn: Byte)         // 6XNN
    | AddImm(x: Nibble, nn: Byte)          // 7XNN
    | Alu(op: AluOp, x: Nibble, y: Nibble) // 8XY0 .. 8XYE
    | SkipIfNotEqual(x: Nibble, y: Nibble) // 9XY0, low nibble ignored
    | LoadIndex(nnn: Addr)                 // ANNN
    | JumpOffset(nnn: Addr)                // BNNN
    | Random(x: Nibble, nn: Byte)          // CXNN
    | Draw(x: Nibble, y: Nibble, n: Nibble) // DXYN
    | SkipIfKey(x: Nibble)                 // EX9E, and every EXNE
    | SkipIfNotKey(x: Nibble)              // EXA1, and every EXN1
    | ReadDelay(x: Nibble)                 // FX07
    | WaitKey(x: Nibble)                   // FX0A
    | SetDelay(x: Nibble)                  // FX15
    | SetSound(x: Nibble)                  // FX18
    | AddIndex(x: Nibble)                  // FX1E
    | FontGlyph(x: Nibble)                 // FX29
    | StoreBcd(x: Nibble)                  // FX33
    | StoreRegisters(x: Nibble)            // FX55
    | LoadRegisters(x: Nibble)             // FX65
    | Unknown                              // an unrecognised sub-opcode: a no-op

  /** The four opcode fields. */
  function FieldX(op: Word): Nibble { (op / 0x100) % 0x10 }
  function FieldY(op: Word): Nibble { (op / 0x10) % 0x10 }
  function FieldN(op: Word): Nibble { op % 0x10 }
  function FieldNN(op: Word): Byte { op % 0x100 }
  function FieldNNN(op: Word): Addr { op % 0x1000 }

  /** The `8XY_` sub-opcode selected by the low nibble. */
  function AluOpOf(n: Nibble): Option<AluOp>
  {
    match n
    case 0x0 => Some(Move)
    case 0x1 => Some(Or)
    case 0x2 => Some(And)
    case 0x3 => Some(Xor)
    case 0x4 => Some(Add)
    case 0x5 => Some(Sub)
    case 0x6 => Some(ShiftRight)
    case 0x7 => Some(SubReverse)
    case 0xE => Some(ShiftLeft)
    case _ => None
  }

  function AluCode(op: AluOp): (n: Nibble)
    ensures AluOpOf(n) == Some(op)
  {
    match op
    case Move => 0x0
    case Or => 0x1
    case And => 0x2
    case Xor => 0x3
    case Add => 0x4
    case Sub => 0x5
    case ShiftRight => 0x6
    case SubReverse => 0x7
    case ShiftLeft => 0xE
  }

  datatype Option<T> = None | Some(value: T)

  /** The case of the opcode switch that `op` selects. The `0`, `8` and `E`
      families look only at the low nibble, the `F` family only at the low
      byte, and `5XY_` and `9XY_` not at the low nibble at all. */
  function Decode(op: Word): Instr
  {
    var x, y, n, nn, nnn := FieldX(op), FieldY(op), FieldN(op), FieldNN(op), FieldNNN(op);
    match op / 0x1000
    case 0x0 => if n == 0x0 then ClearScreen else if n == 0xE then Return else Unknown
    case 0x1 => Jump(nnn)
    case 0x2 => Call(nnn)
    case 0x3 => SkipIfEqualImm(x, nn)
    case 0x4 => SkipIfNotEqualImm(x, nn)
    case 0x5 => SkipIfEqual(x, y)
    case 0x6 => LoadImm(x, nn)
    case 0x7 => AddImm(x, nn)
    case 0x8 => (match AluOpOf(n) case Some(a) => Alu(a, x, y) case None => Unknown)
    case 0x9 => SkipIfNotEqual(x, y)
    case 0xA => LoadIndex(nnn)
    case 0xB => JumpOffset(nnn)
    case 0xC => Random(x, nn)
    case 0xD => Draw(x, y, n)
    case 0xE => if n == 0xE then SkipIfKey(x) else if n == 0x1 then SkipIfNotKey(x) else Unknown
    case _ =>
      if nn == 0x07 then ReadDelay(x)
      else if nn == 0x0A then WaitKey(x)
      else if nn == 0x15 then SetDelay(x)
      else if nn == 0x18 then SetSound(x)
      else if nn == 0x1E then AddIndex(x)
      else if nn == 0x29 then FontGlyph(x)
      else if nn == 0x33 then StoreBcd(x)
      else if nn == 0x55 then StoreRegisters(x)
      else if nn == 0x65 then LoadRegisters(x)
      else Unknown
  }

  /** The opcode family, the high nibble, that an instruction belongs to. */
  function Family(i: Instr): Nibble
    requires !i.Unknown?
  {
    match i
    case ClearScreen | Return => 0x0
    case Jump(_) => 0x1
    case Call(_) => 0x2
    case SkipIfEqualImm(_, _) => 0x3
    case SkipIfNotEqualImm(_, _) => 0x4
    case SkipIfEqual(_, _) => 0x5
    case LoadImm(_, _) => 0x6
    case AddImm(_, _) => 0x7
    case Alu(_, _, _) => 0x8
    case SkipIfNotEqual(_, _) => 0x9
    case LoadIndex(_) => 0xA
    case JumpOffset(_) => 0xB
    case Random(_, _) => 0xC
    case Draw(_, _, _) => 0xD
    case SkipIfKey(_) | SkipIfNotKey(_) => 0xE
    case _ => 0xF
  }

  /** An opcode from its family and its `X`, `Y` and `N` fields. */
  function Op(family: Nibble, x: Nibble, y: Nibble, n: Nibble): Word
  {
    family * 0x1000 + x * 0x100 + y * 0x10 + n
  }

  /** An opcode with a 12-bit operand `NNN`. */
  function OpNNN(family: Nibble, nnn: Addr): Word
  {
    Op(family, nnn / 0x100, (nnn / 0x10) % 0x10, nnn % 0x10)
  }

  /** An opcode with a register `X` and an 8-bit operand `NN`. */
  function OpXNN(family: Nibble, x: Nibble, nn: Byte): Word
  {
    Op(family, x, nn / 0x10, nn % 0x10)
  }

  /** The conventional encoding of each instruction (`Unknown` as `FFFF`). */
  function Encode(i: Instr): Word
  {
    match i
    case ClearScreen => Op(0x0, 0x0, 0xE, 0x0)
    case Return => Op(0x0, 0x0, 0xE, 0xE)
    case Jump(nnn) => OpNNN(0x1, nnn)
    case Call(nnn) => OpNNN(0x2, nnn)
    case SkipIfEqualImm(x, nn) => OpXNN(0x3, x, nn)
    case SkipIfNotEqualImm(x, nn) => OpXNN(0x4, x, nn)
    case SkipIfEqual(x, y) => Op(0x5, x, y, 0x0)
    case LoadImm(x, nn) => OpXNN(0x6, x, nn)
    case AddImm(x, nn) => OpXNN(0x7, x, nn)
    case Alu(a, x, y) => Op(0x8, x, y, AluCode(a))
    case SkipIfNotEqual(x, y) => Op(0x9, x, y, 0x0)
    case LoadIndex(nnn) => OpNNN(0xA, nnn)
    case JumpOffset(nnn) => OpNNN(0xB, nnn)
    case Random(x, nn) => OpXNN(0xC, x, nn)
    case Draw(x, y, n) => Op(0xD, x, y, n)
    case SkipIfKey(x) => OpXNN(0xE, x, 0x9E)
    case SkipIfNotKey(x) => OpXNN(0xE, x, 0xA1)
    case ReadDelay(x) => OpXNN(0xF, x, 0x07)
    case WaitKey(x) => OpXNN(0xF, x, 0x0A)
    case SetDelay(x) => OpXNN(0xF, x, 0x15)
    case SetSound(x) => OpXNN(0xF, x, 0x18)
    case AddIndex(x) => OpXNN(0xF, x, 0x1E)
    case FontGlyph(x) => OpXNN(0xF, x, 0x29)
    case StoreBcd(x) => OpXNN(0xF, x, 0x33)
    case StoreRegisters(x) => OpXNN(0xF, x, 0x55)
    case LoadRegisters(x) => OpXNN(0xF, x, 0x65)
    case Unknown => OpXNN(0xF, 0xF, 0xFF)
  }

  /** The fields of an opcode assembled by `Op` are the ones it was built from. */
  lemma OpFields(family: Nibble, x: Nibble, y: Nibble, n: Nibble)
    ensures var op := Op(family, x, y, n);
      op / 0x1000 == family && FieldX(op) == x && FieldY(op) == y && FieldN(op) == n
      && FieldNN(op) == y * 0x10 + n && FieldNNN(op) == x * 0x100 + y * 0x10 + n
  {
    var op := Op(family, x, y, n);
    var low := x * 0x100 + y * 0x10 + n;
    assert low < 0x1000;
    assert op / 0x1000 == family && op % 0x1000 == low;
    assert op / 0x100 == family * 0x10 + x && (op / 0x100) % 0x10 == x;
    assert op / 0x10 == family * 0x100 + x * 0x10 + y && (op / 0x10) % 0x10 == y;
    assert op % 0x100 == y * 0x10 + n;
  }

  /** An opcode built by `OpNNN` carries `NNN` in its low 12 bits. */
  lemma OpNNNFields(family: Nibble, nnn: Addr)
    ensures var op := OpNNN(family, nnn); op / 0x1000 == family && FieldNNN(op) == nnn
  {
    OpFields(family, nnn / 0x100, (nnn / 0x10) % 0x10, nnn % 0x10);
  }

  /** An opcode built by `OpXNN` carries `X` and `NN` in their fields. */
  lemma OpXNNFields(family: Nibble, x: Nibble, nn: Byte)
    ensures var op := OpXNN(family, x, nn);
      op / 0x1000 == family && FieldX(op) == x && FieldNN(op) == nn
      && FieldY(op) == nn / 0x10 && FieldN(op) == nn % 0x10
  {
    OpFields(family, x, nn / 0x10, nn % 0x10);
  }

  /** Decoding the conventional encoding of an instruction gives that instruction back. */
  lemma {:induction false} DecodeEncode(i: Instr)
    ensures Decode(Encode(i)) == i
  {
    if i.ClearScreen? || i.Return? {
      DecodeEncodeSystem(i);
    } else if i.Jump? || i.Call? || i.LoadIndex? || i.JumpOffset? {
      DecodeEncodeControl(i);
    } else if i.SkipIfEqualImm? || i.SkipIfNotEqualImm? || i.SkipIfEqual? || i.SkipIfNotEqual?
      || i.SkipIfKey? || i.SkipIfNotKey? {
      DecodeEncodeSkip(i);
    } else if i.LoadImm? || i.AddImm? || i.Alu? || i.Random? || i.Draw? {
      DecodeEncodeRegister(i);
    } else if i.ReadDelay? || i.WaitKey? || i.SetDelay? {
      DecodeEncodeTimer(i);
    } else if i.SetSound? || i.AddIndex? || i.FontGlyph? {
      DecodeEncodeIndex(i);
    } else {
      DecodeEncodeMemory(i);
    }
  }

  lemma {:induction false} DecodeEncodeSystem(i: Instr)
    requires i.ClearScreen? || i.Return?
    ensures Decode(Encode(i)) == i
  {
    var op := Encode(i);
    assert op == if i.ClearScreen? then 0x00E0 else 0x00EE;
    assert op / 0x1000 == 0 && FieldN(op) == (if i.ClearScreen? then 0x0 else 0xE);
  }

  lemma {:induction false} DecodeEncodeControl(i: Instr)
    requires i.Jump? || i.Call? || i.LoadIndex? || i.JumpOffset?
    ensures Decode(Encode(i)) == i
  {
    match i
    case Jump(nnn) => OpNNNFields(0x1, nnn);
    case Call(nnn) => OpNNNFields(0x2, nnn);
    case LoadIndex(nnn) => OpNNNFields(0xA, nnn);
    case JumpOffset(nnn) => OpNNNFields(0xB, nnn);
  }

  lemma {:induction false} DecodeEncodeSkip(i: Instr)
    requires i.SkipIfEqualImm? || i.SkipIfNotEqualImm? || i.SkipIfEqual? || i.SkipIfNotEqual?
      || i.SkipIfKey? || i.SkipIfNotKey?
    ensures Decode(Encode(i)) == i
  {
    match i
    case SkipIfEqualImm(x, nn) => OpXNNFields(0x3, x, nn);
    case SkipIfNotEqualImm(x, nn) => OpXNNFields(0x4, x, nn);
    case SkipIfEqual(x, y) => OpFields(0x5, x, y, 0x0);
    case SkipIfNotEqual(x, y) => OpFields(0x9, x, y, 0x0);
    case SkipIfKey(x) => OpXNNFields(0xE, x, 0x9E);
    case SkipIfNotKey(x) => OpXNNFields(0xE, x, 0xA1);
  }

  lemma {:induction false} DecodeEncodeRegister(i: Instr)
    requires i.LoadImm? || i.AddImm? || i.Alu? || i.Random? || i.Draw?
    ensures Decode(Encode(i)) == i
  {
    match i
    case LoadImm(x, nn) => OpXNNFields(0x6, x, nn);
    case AddImm(x, nn) => OpXNNFields(0x7, x, nn);
    case Alu(a, x, y) => OpFields(0x8, x, y, AluCode(a));
    case Random(x, nn) => OpXNNFields(0xC, x, nn);
    case Draw(x, y, n) => OpFields(0xD, x, y, n);
  }

  lemma {:induction false} DecodeEncodeTimer(i: Instr)
    requires i.ReadDelay? || i.WaitKey? || i.SetDelay?
    ensures Decode(Encode(i)) == i
  {
    match i
    case ReadDelay(x) => OpXNNFields(0xF, x, 0x07);
    case WaitKey(x) => OpXNNFields(0xF, x, 0x0A);
    case SetDelay(x) => OpXNNFields(0xF, x, 0x15);
  }

  lemma {:induction false} DecodeEncodeIndex(i: Instr)
    requires i.SetSound? || i.AddIndex? || i.FontGlyph?
    ensures Decode(Encode(i)) == i
  {
    match i
    case SetSound(x) => OpXNNFields(0xF, x, 0x18);
    case AddIndex(x) => OpXNNFields(0xF, x, 0x1E);
    case FontGlyph(x) => OpXNNFields(0xF, x, 0x29);
  }

  lemma {:induction false} DecodeEncodeMemory(i: Instr)
    requires i.StoreBcd? || i.StoreRegisters? || i.LoadRegisters? || i.Unknown?
    ensures Decode(Encode(i)) == i
  {
    match i
    case StoreBcd(x) => OpXNNFields(0xF, x, 0x33);
    case StoreRegisters(x) => OpXNNFields(0xF, x, 0x55);
    case LoadRegisters(x) => OpXNNFields(0xF, x, 0x65);
    case Unknown => OpXNNFields(0xF, 0xF, 0xFF);
  }

  /** The high nibble selects the family: a decoded instruction belongs to
      the family of its opcode, and only the families that dispatch again on
      a sub-opcode (`0`, `8`, `E`, `F`) can yield an unknown instruction. */
  lemma {:induction false} DecodeFamily(op: Word)
    ensures Decode(op).Unknown? ==> op / 0x1000 == 0x0 || op / 0x1000 == 0x8 || op / 0x1000 == 0xE || op / 0x1000 == 0xF
    ensures !Decode(op).Unknown? ==> Family(Decode(op)) == op / 0x1000
  {
  }

  /** The opcodes that decode to `Unknown` are exactly the unmatched
      sub-opcodes of the four families that dispatch again: `0___` with a
      low nibble other than `0` and `E`, `8XY_` with a low nibble outside
      the nine operations, `E___` with a low nibble other than `E` and `1`,
      and `F___` with a low byte outside its nine codes. */
  lemma {:induction false} DecodeUnknownIff(op: Word)
    ensures var family, n, nn := op / 0x1000, FieldN(op), FieldNN(op);
      Decode(op).Unknown? <==>
        || (family == 0x0 && n != 0x0 && n != 0xE)
        || (family == 0x8 && AluOpOf(n).None?)
        || (family == 0xE && n != 0xE && n != 0x1)
        || (family == 0xF && nn !in {0x07, 0x0A, 0x15, 0x18, 0x1E, 0x29, 0x33, 0x55, 0x65})
  {
  }

  /** In the `0___` family only the low nibble is examined: `0NN0` clears
      the screen and `0NNE` returns, whatever `NN` is. */
  lemma {:induction false} SystemFamilyLowNibble(op: Word)
    requires op < 0x1000
    ensures Decode(op) == Decode(FieldN(op))
    ensures FieldN(op) == 0x0 ==> Decode(op) == ClearScreen
    ensures FieldN(op) == 0xE ==> Decode(op) == Return
    ensures FieldN(op) != 0x0 && FieldN(op) != 0xE ==> Decode(op) == Unknown
  {
    var n := FieldN(op);
    assert op / 0x1000 == 0 && n / 0x1000 == 0 && FieldN(n) == n;
  }

  /** `5XY_` and `9XY_` ignore their low nibble. */
  lemma {:induction false} RegisterSkipIgnoresLowNibble(op: Word)
    requires op / 0x1000 == 0x5 || op / 0x1000 == 0x9
    ensures Decode(op) == Decode(Op(op / 0x1000, FieldX(op), FieldY(op), 0))
    ensures op / 0x1000 == 0x5 ==> Decode(op) == SkipIfEqual(FieldX(op), FieldY(op))
    ensures op / 0x1000 == 0x9 ==> Decode(op) == SkipIfNotEqual(FieldX(op), FieldY(op))
  {
    OpFields(op / 0x1000, FieldX(op), FieldY(op), 0);
  }

  /** The `E___` family is decided by the low nibble alone: `EXNE` skips on a
      pressed key and `EXN1` on a released one, whatever `N` is. */
  lemma {:induction false} KeyFamilyLowNibble(op: Word)
    requires op / 0x1000 == 0xE
    ensures Decode(op) == Decode(Op(0xE, FieldX(op), 0, FieldN(op)))
    ensures FieldN(op) == 0xE ==> Decode(op) == SkipIfKey(FieldX(op))
    ensures FieldN(op) == 0x1 ==> Decode(op) == SkipIfNotKey(FieldX(op))
  {
    OpFields(0xE, FieldX(op), 0, FieldN(op));
  }
}
