/** Fixed-width unsigned integers of the CHIP-8 machine.

    The emulator stores its state in `uint8_t`, `uint16_t` and `uint32_t`
    cells; here each width is a subset type of `int`, and every place where
    the C++ code relies on an implicit truncation is written out with `%`. */
module Words {

  /** An 8-bit cell: a register, a memory byte, a timer, `SP`, a key state. */
  type Byte = b: int | 0 <= b < 0x100

  /** A 16-bit cell: `I`, `PC`, a stack slot, the current opcode. */
  type Word = w: int | 0 <= w < 0x1_0000

  /** A 32-bit framebuffer cell. */
  type Pixel = p: int | 0 <= p < 0x1_0000_0000

  /** A 4-bit opcode field (`X`, `Y`, `N`). */
  type Nibble = n: int | 0 <= n < 0x10

  /** A 12-bit opcode field (`NNN`). */
  type Addr = a: int | 0 <= a < 0x1000

  /** A lit pixel: all 32 bits set. An unlit pixel is 0. */
  const PIXEL_ON: Pixel := 0xFFFF_FFFF

  /** Assignment of an integer to a `uint16_t` (modulo 65536). */
  function Wrap16(x: int): (r: Word)
    ensures 0 <= x < 0x1_0000 ==> r == x
    ensures -0x1_0000 <= x < 0 ==> r == x + 0x1_0000
    ensures 0x1_0000 <= x < 0x2_0000 ==> r == x - 0x1_0000
  {
    x % 0x1_0000
  }

  /** Assignment of an integer to a `uint8_t` (modulo 256). */
  function Wrap8(x: int): (r: Byte)
    ensures 0 <= x < 0x100 ==> r == x
    ensures -0x100 <= x < 0 ==> r == x + 0x100
    ensures 0x100 <= x < 0x200 ==> r == x - 0x100
  {
    x % 0x100
  }

  /** 2 to the power `n`. */
  function Pow2(n: nat): (r: nat)
    ensures r >= 1
  {
    if n == 0 then 1 else 2 * Pow2(n - 1)
  }

  /** Bitwise AND of the low `n` bits of `a` and `b`, one bit at a time from the lowest. */
  function AndBits(a: nat, b: nat, n: nat): (r: nat)
    requires a < Pow2(n) && b < Pow2(n)
    ensures r <= a && r <= b
  {
    if n == 0 then 0
    else 2 * AndBits(a / 2, b / 2, n - 1) + (if a % 2 == 1 && b % 2 == 1 then 1 else 0)
  }

  /** Bitwise OR of the low `n` bits of `a` and `b`. */
  function OrBits(a: nat, b: nat, n: nat): (r: nat)
    requires a < Pow2(n) && b < Pow2(n)
    ensures a <= r && b <= r && r < Pow2(n)
  {
    if n == 0 then 0
    else 2 * OrBits(a / 2, b / 2, n - 1) + (if a % 2 == 1 || b % 2 == 1 then 1 else 0)
  }

  /** Bitwise XOR of the low `n` bits of `a` and `b`. */
  function XorBits(a: nat, b: nat, n: nat): (r: nat)
    requires a < Pow2(n) && b < Pow2(n)
    ensures r < Pow2(n)
    ensures r == 0 <==> a == b
  {
    if n == 0 then 0
    else 2 * XorBits(a / 2, b / 2, n - 1) + (if a % 2 != b % 2 then 1 else 0)
  }

  /** Bit `k` of `x`, counted from the lowest. */
  function Digit(x: nat, k: nat): (d: nat)
    ensures d <= 1
  {
    if k == 0 then x % 2 else Digit(x / 2, k - 1)
  }

  /** Bit `k` of `2 * x + b`, for a bit `b`: `b` itself at 0, bit `k - 1` of `x` above. */
  lemma DigitShift(x: nat, b: nat, k: nat)
    requires b <= 1
    ensures Digit(2 * x + b, k) == if k == 0 then b else Digit(x, k - 1)
  {
    assert (2 * x + b) / 2 == x && (2 * x + b) % 2 == b;
  }

  /** `AndBits` is bitwise: bit `k` of the result is set exactly when bit `k` of both operands is. */
  lemma {:induction false} AndBitsDigit(a: nat, b: nat, n: nat, k: nat)
    requires a < Pow2(n) && b < Pow2(n) && k < n
    ensures Digit(AndBits(a, b, n), k) == if Digit(a, k) == 1 && Digit(b, k) == 1 then 1 else 0
  {
    var low := if a % 2 == 1 && b % 2 == 1 then 1 else 0;
    DigitShift(AndBits(a / 2, b / 2, n - 1), low, k);
    if k > 0 {
      AndBitsDigit(a / 2, b / 2, n - 1, k - 1);
    }
  }

  /** `OrBits` is bitwise: bit `k` of the result is set exactly when bit `k` of either operand is. */
  lemma {:induction false} OrBitsDigit(a: nat, b: nat, n: nat, k: nat)
    requires a < Pow2(n) && b < Pow2(n) && k < n
    ensures Digit(OrBits(a, b, n), k) == if Digit(a, k) == 1 || Digit(b, k) == 1 then 1 else 0
  {
    var low := if a % 2 == 1 || b % 2 == 1 then 1 else 0;
    DigitShift(OrBits(a / 2, b / 2, n - 1), low, k);
    if k > 0 {
      OrBitsDigit(a / 2, b / 2, n - 1, k - 1);
    }
  }

  /** `XorBits` is bitwise: bit `k` of the result is set exactly when bit `k` of the operands differs. */
  lemma {:induction false} XorBitsDigit(a: nat, b: nat, n: nat, k: nat)
    requires a < Pow2(n) && b < Pow2(n) && k < n
    ensures Digit(XorBits(a, b, n), k) == if Digit(a, k) != Digit(b, k) then 1 else 0
  {
    var low := if a % 2 != b % 2 then 1 else 0;
    DigitShift(XorBits(a / 2, b / 2, n - 1), low, k);
    if k > 0 {
      XorBitsDigit(a / 2, b / 2, n - 1, k - 1);
    }
  }

  lemma Pow2Byte()
    ensures Pow2(8) == 0x100
  {
    assert Pow2(4) == 16;
  }

  /** `a & b` on `uint8_t`. */
  function BitAnd(a: Byte, b: Byte): (r: Byte)
    ensures r <= a && r <= b
  {
    Pow2Byte();
    AndBits(a, b, 8)
  }

  /** `a | b` on `uint8_t`. */
  function BitOr(a: Byte, b: Byte): (r: Byte)
    ensures a <= r && b <= r
  {
    Pow2Byte();
    OrBits(a, b, 8)
  }

  /** `a ^ b` on `uint8_t`. */
  function BitXor(a: Byte, b: Byte): (r: Byte)
    ensures r == 0 <==> a == b
  {
    Pow2Byte();
    XorBits(a, b, 8)
  }

  /** XOR with the all-ones value of `n` bits complements each bit, which is
      subtracting from that value. */
  lemma {:induction false} XorAllOnes(a: nat, n: nat)
    requires a < Pow2(n)
    ensures XorBits(a, Pow2(n) - 1, n) == Pow2(n) - 1 - a
  {
    if n > 0 {
      assert (Pow2(n) - 1) / 2 == Pow2(n - 1) - 1 && (Pow2(n) - 1) % 2 == 1;
      XorAllOnes(a / 2, n - 1);
    }
  }

  lemma Pow2Word()
    ensures Pow2(32) == 0x1_0000_0000
  {
    Pow2Byte();
    assert Pow2(16) == 0x100 * 0x100 by {
      assert Pow2(12) == 16 * 0x100;
    }
    assert Pow2(24) == 0x100 * Pow2(16) by {
      assert Pow2(20) == 16 * Pow2(16);
    }
    assert Pow2(32) == 0x100 * Pow2(24) by {
      assert Pow2(28) == 16 * Pow2(24);
    }
  }

  /** `p ^ 0xFFFFFFFF` on a 32-bit pixel: every bit is complemented, which
      for an unsigned 32-bit value is the same as `0xFFFFFFFF - p`. */
  function Flip(p: Pixel): (r: Pixel)
    ensures p == 0 <==> r == PIXEL_ON
    ensures p == PIXEL_ON <==> r == 0
  {
    PIXEL_ON - p
  }

  /** `Flip` is the 32-bit XOR with `0xFFFFFFFF` that the draw loop applies. */
  lemma {:induction false} FlipIsXor(p: Pixel)
    ensures Pow2(32) == PIXEL_ON + 1
    ensures XorBits(p, PIXEL_ON, 32) == Flip(p)
  {
    Pow2Word();
    XorAllOnes(p, 32);
  }
}
