/** The `DXYN` sprite blit on the 64x32 framebuffer.

    The emulator wraps only the start position (`Xpos = VX % 64`,
    `Ypos = VY % 32`) and then writes the pixel at
    `(Ypos + row) * 64 + (Xpos + col)` for every set bit of the sprite, with no
    further wrapping: a sprite that runs off the right edge continues at the
    left of the next row, and one that runs off the bottom indexes past the
    end of the framebuffer. `Blit` gives the resulting framebuffer in closed
    form, one pixel at a time; the lemmas below tie it back to the row/column
    loop of the source. */
module Sprite {
  import opened Words

  const WIDTH := 64
  const HEIGHT := 32
  const PIXELS := 2048

  /** `0x80 >> col`: the mask of bit `col` of a sprite row, counted from the left. */
  function ColumnMask(col: nat): (r: Byte)
    requires col < 8
  {
    if col == 0 then 0x80 else ColumnMask(col - 1) / 2
  }

  /** `SpriteByte & (0x80 >> col)` is nonzero. */
  predicate Bit(b: Byte, col: nat)
    requires col < 8
  {
    BitAnd(b, ColumnMask(col)) != 0
  }

  /** The framebuffer index the emulator computes for bit `col` of sprite row `row`. */
  function Target(xpos: nat, ypos: nat, row: nat, col: nat): nat
  {
    (ypos + row) * WIDTH + (xpos + col)
  }

  /** Pixel `p` is the target of a set bit among the first `k` bits of the
      sprite, in the order of the source's loops (row by row, left to right). */
  predicate HitWithin(sprite: seq<Byte>, xpos: nat, ypos: nat, p: int, k: int)
  {
    var d := p - (ypos * WIDTH + xpos);
    0 <= d && d / WIDTH < |sprite| && d % WIDTH < 8
    && (d / WIDTH) * 8 + d % WIDTH < k
    && Bit(sprite[d / WIDTH], d % WIDTH)
  }

  /** Pixel `p` is the target of some set bit of the sprite. */
  predicate Hit(sprite: seq<Byte>, xpos: nat, ypos: nat, p: int)
  {
    HitWithin(sprite, xpos, ypos, p, 8 * |sprite|)
  }

  /** Every set bit of the sprite lands inside the framebuffer. */
  predicate InBounds(sprite: seq<Byte>, xpos: nat, ypos: nat)
  {
    forall row: nat, col: nat | row < |sprite| && col < 8 ::
      Bit(sprite[row], col) ==> Target(xpos, ypos, row, col) < PIXELS
  }

  /** The framebuffer after the first `k` bits of the sprite have been drawn:
      every pixel they target XOR-ed with `0xFFFFFFFF`. */
  function BlitWithin(screen: seq<Pixel>, sprite: seq<Byte>, xpos: nat, ypos: nat, k: int): (r: seq<Pixel>)
    requires |screen| == PIXELS
    ensures |r| == PIXELS
  {
    seq(PIXELS, p requires 0 <= p < PIXELS =>
      if HitWithin(sprite, xpos, ypos, p, k) then Flip(screen[p]) else screen[p])
  }

  /** The framebuffer after the whole sprite has been drawn. */
  function Blit(screen: seq<Pixel>, sprite: seq<Byte>, xpos: nat, ypos: nat): (r: seq<Pixel>)
    requires |screen| == PIXELS
    ensures |r| == PIXELS
    ensures forall p | 0 <= p < PIXELS :: r[p] != screen[p] <==> Hit(sprite, xpos, ypos, p)
    ensures forall p | 0 <= p < PIXELS :: r[p] == screen[p] || r[p] == Flip(screen[p])
  {
    BlitWithin(screen, sprite, xpos, ypos, 8 * |sprite|)
  }

  /** One of the first `k` bits of the sprite targets a pixel that was lit before the draw. */
  predicate CollidesWithin(screen: seq<Pixel>, sprite: seq<Byte>, xpos: nat, ypos: nat, k: int)
    requires |screen| == PIXELS
  {
    exists p | 0 <= p < PIXELS :: HitWithin(sprite, xpos, ypos, p, k) && screen[p] == PIXEL_ON
  }

  /** Some target pixel of the sprite is lit before the blit. */
  predicate Collides(screen: seq<Pixel>, sprite: seq<Byte>, xpos: nat, ypos: nat)
    requires |screen| == PIXELS
    ensures Collides(screen, sprite, xpos, ypos) ==> exists p | 0 <= p < PIXELS :: screen[p] == PIXEL_ON
    ensures |sprite| == 0 ==> !Collides(screen, sprite, xpos, ypos)
  {
    CollidesWithin(screen, sprite, xpos, ypos, 8 * |sprite|)
  }

  /** Every pixel is either off or fully on. */
  predicate Monochrome(screen: seq<Pixel>)
  {
    forall p | 0 <= p < |screen| :: screen[p] == 0 || screen[p] == PIXEL_ON
  }

  /** The offset of a target from the sprite origin splits back into the
      row and column it came from. */
  lemma TargetOffset(xpos: nat, ypos: nat, row: nat, col: nat)
    requires col < 8
    ensures var d := Target(xpos, ypos, row, col) - (ypos * WIDTH + xpos);
      d == row * WIDTH + col && d / WIDTH == row && d % WIDTH == col
  {
    var d := Target(xpos, ypos, row, col) - (ypos * WIDTH + xpos);
    assert d == row * WIDTH + col;
  }

  /** The target of bit `(row, col)` is hit by the first `k` bits exactly when
      that bit is set and comes before position `k` in loop order. */
  lemma {:induction false} HitWithinTarget(sprite: seq<Byte>, xpos: nat, ypos: nat, row: nat, col: nat, k: int)
    requires row < |sprite| && col < 8
    ensures HitWithin(sprite, xpos, ypos, Target(xpos, ypos, row, col), k)
      <==> Bit(sprite[row], col) && row * 8 + col < k
  {
    TargetOffset(xpos, ypos, row, col);
  }

  /** Advancing the loop by one bit adds at most the target of that bit:
      distinct sprite bits never share a pixel. */
  lemma {:induction false} HitWithinStep(sprite: seq<Byte>, xpos: nat, ypos: nat, p: int, row: nat, col: nat)
    requires row < |sprite| && col < 8
    requires p != Target(xpos, ypos, row, col)
    ensures HitWithin(sprite, xpos, ypos, p, row * 8 + col + 1)
      <==> HitWithin(sprite, xpos, ypos, p, row * 8 + col)
  {
    var d := p - (ypos * WIDTH + xpos);
    if 0 <= d && d % WIDTH < 8 {
      OffsetUnique(d, row, col);
    }
  }

  /** Within one row of the framebuffer a sprite bit's offset determines its
      row and column. */
  lemma OffsetUnique(d: nat, row: nat, col: nat)
    requires d % WIDTH < 8 && col < 8
    ensures (d / WIDTH) * 8 + d % WIDTH == row * 8 + col <==> d == row * WIDTH + col
  {
    var q, r := d / WIDTH, d % WIDTH;
    assert d == q * WIDTH + r;
    if q * 8 + r == row * 8 + col {
      assert q == row;
    }
    if d == row * WIDTH + col {
      assert q == row;
    }
  }

  /** `Hit` says exactly that some set sprite bit targets the pixel. */
  lemma {:induction false} HitIff(sprite: seq<Byte>, xpos: nat, ypos: nat, p: int)
    ensures Hit(sprite, xpos, ypos, p) <==>
      exists row: nat, col: nat | row < |sprite| && col < 8 ::
        Bit(sprite[row], col) && Target(xpos, ypos, row, col) == p
  {
    if Hit(sprite, xpos, ypos, p) {
      var d := p - (ypos * WIDTH + xpos);
      var row, col := d / WIDTH, d % WIDTH;
      assert Target(xpos, ypos, row, col) == p;
    }
    if exists row: nat, col: nat | row < |sprite| && col < 8 ::
        Bit(sprite[row], col) && Target(xpos, ypos, row, col) == p {
      var row: nat, col: nat :| row < |sprite| && col < 8 &&
        Bit(sprite[row], col) && Target(xpos, ypos, row, col) == p;
      HitWithinTarget(sprite, xpos, ypos, row, col, 8 * |sprite|);
    }
  }

  /** The collision flag is raised exactly when some set sprite bit lands on a lit pixel. */
  lemma {:induction false} CollidesIff(screen: seq<Pixel>, sprite: seq<Byte>, xpos: nat, ypos: nat)
    requires |screen| == PIXELS && InBounds(sprite, xpos, ypos)
    ensures Collides(screen, sprite, xpos, ypos) <==>
      exists row: nat, col: nat | row < |sprite| && col < 8 ::
        Bit(sprite[row], col) && screen[Target(xpos, ypos, row, col)] == PIXEL_ON
  {
    if Collides(screen, sprite, xpos, ypos) {
      var p :| 0 <= p < PIXELS && Hit(sprite, xpos, ypos, p) && screen[p] == PIXEL_ON;
      HitIff(sprite, xpos, ypos, p);
    }
    if exists row: nat, col: nat | row < |sprite| && col < 8 ::
        Bit(sprite[row], col) && screen[Target(xpos, ypos, row, col)] == PIXEL_ON {
      var row: nat, col: nat :| row < |sprite| && col < 8 &&
        Bit(sprite[row], col) && screen[Target(xpos, ypos, row, col)] == PIXEL_ON;
      var p := Target(xpos, ypos, row, col);
      HitWithinTarget(sprite, xpos, ypos, row, col, 8 * |sprite|);
      assert Hit(sprite, xpos, ypos, p) && screen[p] == PIXEL_ON;
    }
  }

  /** XOR-blitting the same sprite twice at the same place restores the framebuffer. */
  lemma {:induction false} BlitTwice(screen: seq<Pixel>, sprite: seq<Byte>, xpos: nat, ypos: nat)
    requires |screen| == PIXELS
    ensures Blit(Blit(screen, sprite, xpos, ypos), sprite, xpos, ypos) == screen
  {
    var once := Blit(screen, sprite, xpos, ypos);
    var twice := Blit(once, sprite, xpos, ypos);
    forall p | 0 <= p < PIXELS
      ensures twice[p] == screen[p]
    {
      if Hit(sprite, xpos, ypos, p) {
        assert twice[p] == PIXEL_ON - (PIXEL_ON - screen[p]);
      }
    }
  }

  /** The blit flips every pixel a set sprite bit targets and leaves every
      other pixel of the framebuffer, inside the sprite's box or not, alone. */
  lemma {:induction false} BlitChanges(screen: seq<Pixel>, sprite: seq<Byte>, xpos: nat, ypos: nat, row: nat, col: nat)
    requires |screen| == PIXELS && row < |sprite| && col < 8
    requires Target(xpos, ypos, row, col) < PIXELS
    ensures var t := Target(xpos, ypos, row, col);
      Blit(screen, sprite, xpos, ypos)[t] == if Bit(sprite[row], col) then Flip(screen[t]) else screen[t]
    ensures forall p | 0 <= p < PIXELS ::
      Blit(screen, sprite, xpos, ypos)[p] ==
        if exists row': nat, col': nat | row' < |sprite| && col' < 8 ::
             Bit(sprite[row'], col') && Target(xpos, ypos, row', col') == p
        then Flip(screen[p]) else screen[p]
  {
    HitWithinTarget(sprite, xpos, ypos, row, col, 8 * |sprite|);
    forall p | 0 <= p < PIXELS {
      HitIff(sprite, xpos, ypos, p);
    }
  }

  /** A framebuffer of unlit and lit pixels stays that way after a blit. */
  lemma {:induction false} BlitMonochrome(screen: seq<Pixel>, sprite: seq<Byte>, xpos: nat, ypos: nat)
    requires |screen| == PIXELS && Monochrome(screen)
    ensures Monochrome(Blit(screen, sprite, xpos, ypos))
  {
    var r := Blit(screen, sprite, xpos, ypos);
    forall p | 0 <= p < PIXELS
      ensures r[p] == 0 || r[p] == PIXEL_ON
    {
      assert screen[p] == 0 || screen[p] == PIXEL_ON;
    }
  }

  /** Drawing bit `(row, col)`, the next one in loop order, XORs its target
      if the bit is set and changes nothing else; until then the target
      still holds its value from before the draw. */
  lemma {:induction false} BlitStep(screen: seq<Pixel>, sprite: seq<Byte>, xpos: nat, ypos: nat, row: nat, col: nat)
    requires |screen| == PIXELS && row < |sprite| && col < 8
    requires Bit(sprite[row], col) ==> Target(xpos, ypos, row, col) < PIXELS
    ensures var k, t := row * 8 + col, Target(xpos, ypos, row, col);
      var before := BlitWithin(screen, sprite, xpos, ypos, k);
      && (Bit(sprite[row], col) ==> before[t] == screen[t])
      && BlitWithin(screen, sprite, xpos, ypos, k + 1)
         == (if Bit(sprite[row], col) then before[t := Flip(before[t])] else before)
  {
    var k, t := row * 8 + col, Target(xpos, ypos, row, col);
    var before := BlitWithin(screen, sprite, xpos, ypos, k);
    var after := BlitWithin(screen, sprite, xpos, ypos, k + 1);
    HitWithinTarget(sprite, xpos, ypos, row, col, k);
    HitWithinTarget(sprite, xpos, ypos, row, col, k + 1);
    forall p | 0 <= p < PIXELS && p != t
      ensures after[p] == before[p]
    {
      HitWithinStep(sprite, xpos, ypos, p, row, col);
    }
    if Bit(sprite[row], col) {
      assert after == before[t := Flip(before[t])];
    } else {
      assert after == before;
    }
  }

  /** The collision flag after bit `(row, col)`: raised before, or that bit
      is set and its target was lit before the draw. */
  lemma {:induction false} CollidesStep(screen: seq<Pixel>, sprite: seq<Byte>, xpos: nat, ypos: nat, row: nat, col: nat)
    requires |screen| == PIXELS && row < |sprite| && col < 8
    requires Bit(sprite[row], col) ==> Target(xpos, ypos, row, col) < PIXELS
    ensures var k, t := row * 8 + col, Target(xpos, ypos, row, col);
      CollidesWithin(screen, sprite, xpos, ypos, k + 1)
      <==> CollidesWithin(screen, sprite, xpos, ypos, k) || (Bit(sprite[row], col) && screen[t] == PIXEL_ON)
  {
    var k, t := row * 8 + col, Target(xpos, ypos, row, col);
    HitWithinTarget(sprite, xpos, ypos, row, col, k + 1);
    if CollidesWithin(screen, sprite, xpos, ypos, k + 1) {
      var p :| 0 <= p < PIXELS && HitWithin(sprite, xpos, ypos, p, k + 1) && screen[p] == PIXEL_ON;
      if p != t {
        HitWithinStep(sprite, xpos, ypos, p, row, col);
      }
    }
    if CollidesWithin(screen, sprite, xpos, ypos, k) {
      var p :| 0 <= p < PIXELS && HitWithin(sprite, xpos, ypos, p, k) && screen[p] == PIXEL_ON;
      HitWithinTarget(sprite, xpos, ypos, row, col, k);
      if p != t {
        HitWithinStep(sprite, xpos, ypos, p, row, col);
      }
    }
  }

  /** Before the first bit nothing is drawn and nothing has collided. */
  lemma BlitStart(screen: seq<Pixel>, sprite: seq<Byte>, xpos: nat, ypos: nat)
    requires |screen| == PIXELS
    ensures BlitWithin(screen, sprite, xpos, ypos, 0) == screen
    ensures !CollidesWithin(screen, sprite, xpos, ypos, 0)
  {
    assert forall p | 0 <= p < PIXELS :: !HitWithin(sprite, xpos, ypos, p, 0);
  }
}
