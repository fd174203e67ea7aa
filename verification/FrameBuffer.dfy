/** The frame buffer of the round display and what is drawn into it.

Pixel (c, r) is column c of row r; the buffer holds the rows one after the other, and each colour with its
two bytes exchanged, so that on a little-endian machine the high byte goes over the wire first.  */
module FrameBuffer {

  const WIDTH: nat := 240
  const HEIGHT: nat := 240
  const SIZE: nat := 57600

  predicate OnScreen(c: int, r: int) {
    0 <= c < WIDTH && 0 <= r < HEIGHT
  }

  function Px(frame: array<bv16>, c: int, r: int): (p: bv16)
    requires frame.Length == SIZE && OnScreen(c, r)
    reads frame
  {
    frame[c + WIDTH * r]
  }

  function Swapped(color: bv16): (p: bv16) {
    (color >> 8) | (color << 8)
  }

  /** The two bytes of a word, as numbers. */
  lemma BytesOf(w: bv16)
    ensures (w >> 8) as int == w as int / 256 && (w & 0xFF) as int == w as int % 256
  {
    HighByte(w);
    BothBytes(w);
  }

  lemma HighByte(w: bv16)
    ensures (w >> 8) as int == w as int / 256
  {
  }

  lemma BothBytes(w: bv16)
    ensures w as int == ((w >> 8) as int) * 256 + (w & 0xFF) as int
  {
  }

  lemma SwappedBytes(color: bv16)
    ensures Swapped(color) >> 8 == color & 0xFF && Swapped(color) & 0xFF == color >> 8
    ensures Swapped(Swapped(color)) == color
  {
  }

  /** The stored colour has the low byte of the colour as its high byte, and the other way round. */
  lemma SwappedIs(color: bv16)
    ensures Swapped(color) as int == color as int % 256 * 256 + color as int / 256
    ensures Swapped(Swapped(color)) == color
  {
    hide Swapped;
    SwappedBytes(color);
    BytesOf(color);
    BothBytes(Swapped(color));
  }

  lemma Exchanged(c: int, s: int)
    requires 0 <= c < 65536 && s == c % 256 * 256 + c / 256
    ensures s % 256 == c / 256 && s / 256 == c % 256
  {
  }

  lemma SwappedHalves(color: bv16)
    ensures Swapped(color) as int % 256 == color as int / 256 && Swapped(color) as int / 256 == color as int % 256
  {
    hide Swapped;
    SwappedIs(color);
    Exchanged(color as int, Swapped(color) as int);
  }

  /** The rows lie one after the other, 240 words each. */
  lemma PxIs(frame: array<bv16>, c: int, r: int)
    requires frame.Length == 57600 && 0 <= c < 240 && 0 <= r < 240
    ensures OnScreen(c, r) && Px(frame, c, r) == frame[c + 240 * r]
  {
  }

  // ---------- rectangles ----------

  predicate InRect(x: int, y: int, w: int, h: int, c: int, r: int) {
    x <= c < x + w && y <= r < y + h
  }

  /** The width and height after the clip test, which lets a rectangle through that is one too wide. */
  function Clipped(x: nat, w: nat, limit: nat): (v: nat)
    requires x < limit
  {
    if x + w - 1 > limit then limit - x else w
  }

  /** The writes of the fill loop stay inside the buffer. */
  predicate FillInBounds(x: nat, y: nat, w: nat, h: nat) {
    x < WIDTH && y < HEIGHT ==>
      var v, g := Clipped(x, w, WIDTH), Clipped(y, h, HEIGHT);
      v > 0 && g > 0 ==> x + v - 1 + WIDTH * (y + g - 1) < SIZE
  }

  /** The pixels written once the first n pixels of a row have been. */
  predicate RowFilled(x: nat, y: nat, n: nat, c: int, r: int) {
    (x <= c < x + n && r == y) || (x + n == WIDTH + 1 && c == 0 && r == y + 1)
  }

  /** The pixels written once the first n rows have been. */
  predicate RowsFilled(x: nat, y: nat, w: nat, n: nat, c: int, r: int) {
    InRect(x, y, w, n, c, r) || (x + w == WIDTH + 1 && c == 0 && y < r <= y + n)
  }

  /** The pixels the fill loop writes: the clipped rectangle; and when it ends one column beyond the screen, the
      first pixel of each following row. */
  predicate FillWrites(x: nat, y: nat, w: nat, h: nat, c: int, r: int) {
    && x < WIDTH && y < HEIGHT
    && var v, g := Clipped(x, w, WIDTH), Clipped(y, h, HEIGHT);
       RowsFilled(x, y, v, g, c, r)
  }

  /** No rectangle ends exactly one column or row beyond the screen. */
  predicate NoSlip(x: nat, y: nat, w: nat, h: nat) {
    x >= WIDTH || y >= HEIGHT || w == 0 || h == 0 || (x + w != WIDTH + 1 && y + h != HEIGHT + 1)
  }

  /** Where nothing slips, the fill loop paints the rectangle as far as it is on the screen, and nothing else. */
  lemma FillIsClippedRectangle(x: nat, y: nat, w: nat, h: nat)
    requires NoSlip(x, y, w, h)
    ensures FillInBounds(x, y, w, h)
    ensures forall c, r | OnScreen(c, r) :: FillWrites(x, y, w, h, c, r) <==> InRect(x, y, w, h, c, r)
  {
  }

  /** Where it slips it writes outside the buffer, or a pixel that is not in the rectangle. */
  lemma FillSlips(x: nat, y: nat, w: nat, h: nat)
    requires !NoSlip(x, y, w, h)
    ensures FillInBounds(x, y, w, h) ==>
              OnScreen(0, y + h) && FillWrites(x, y, w, h, 0, y + h) && !InRect(x, y, w, h, 0, y + h)
  {
  }

  /** A rectangle is filled properly exactly when it does not slip. */
  lemma FillIsExactIff(x: nat, y: nat, w: nat, h: nat)
    ensures x >= 240 || y >= 240 || w == 0 || h == 0 || (x + w != 241 && y + h != 241) <==>
              && FillInBounds(x, y, w, h)
              && forall c, r | 0 <= c < 240 && 0 <= r < 240 ::
                   FillWrites(x, y, w, h, c, r) <==> x <= c < x + w && y <= r < y + h
  {
    if NoSlip(x, y, w, h) {
      FillIsClippedRectangle(x, y, w, h);
    } else {
      FillSlips(x, y, w, h);
    }
  }

  /** In bounds, the fill writes what the rectangle has on the screen, and where it ends one column beyond the screen
      the first pixel of the row below each of its own. */
  lemma FillWritesAre(x: nat, y: nat, w: nat, h: nat, c: int, r: int)
    requires FillInBounds(x, y, w, h) && 0 <= c < 240 && 0 <= r < 240
    ensures FillWrites(x, y, w, h, c, r) <==>
              || (x <= c < x + w && y <= r < y + h)
              || (x < 240 && y < 240 && x + w == 241 && c == 0 && y < r <= y + h)
  {
  }

  /** Ten columns from column 231 on: the first pixel of the next row is painted as well. */
  lemma SlipExample()
    ensures FillInBounds(231, 0, 10, 1) && FillWrites(231, 0, 10, 1, 0, 1) && !InRect(231, 0, 10, 1, 0, 1)
    ensures !FillInBounds(231, 239, 10, 1)
  {
  }

  method FillRectangle(frame: array<bv16>, x: nat, y: nat, width: nat, height: nat, color: bv16)
    requires frame.Length == SIZE && FillInBounds(x, y, width, height)
    modifies frame
    ensures forall c, r | OnScreen(c, r) ::
              Px(frame, c, r) == if FillWrites(x, y, width, height, c, r) then Swapped(color) else old(Px(frame, c, r))
    ensures forall c, r | 0 <= c < 240 && 0 <= r < 240 ::
              Px(frame, c, r) == if (x <= c < x + width && y <= r < y + height)
                                    || (x < 240 && y < 240 && x + width == 241 && c == 0 && y < r <= y + height)
                                 then Swapped(color) else old(Px(frame, c, r))
    ensures x >= 240 || y >= 240 ==> frame[..] == old(frame[..])
  {
    forall c, r | 0 <= c < 240 && 0 <= r < 240
      ensures FillWrites(x, y, width, height, c, r) <==>
                || (x <= c < x + width && y <= r < y + height)
                || (x < 240 && y < 240 && x + width == 241 && c == 0 && y < r <= y + height)
    {
      FillWritesAre(x, y, width, height, c, r);
    }
    if x >= WIDTH || y >= HEIGHT {
      return;
    }
    var w, h := width, height;
    if x + w - 1 > WIDTH {
      w := WIDTH - x;
    }
    if y + h - 1 > HEIGHT {
      h := HEIGHT - y;
    }
    for j := 0 to h
      invariant forall c, r | OnScreen(c, r) ::
                  Px(frame, c, r) == if RowsFilled(x, y, w, j, c, r) then Swapped(color) else old(Px(frame, c, r))
    {
      for i := 0 to w
        invariant forall c, r | OnScreen(c, r) ::
                    Px(frame, c, r) == if RowsFilled(x, y, w, j, c, r) || RowFilled(x, y + j, i, c, r)
                                       then Swapped(color) else old(Px(frame, c, r))
      {
        assert x + i <= WIDTH && y + j < HEIGHT;
        frame[(x + WIDTH * y) + (i + WIDTH * j)] := (color >> 8) | (color << 8);
      }
    }
  }

  /** Clears all but the last row and the last column: the width and height passed on are one too small. */
  method FillScreen(frame: array<bv16>, color: bv16)
    requires frame.Length == SIZE
    modifies frame
    ensures forall c, r | 0 <= c < 240 && 0 <= r < 240 ::
              Px(frame, c, r) == if c < 239 && r < 239 then Swapped(color) else old(Px(frame, c, r))
  {
    FillIsClippedRectangle(0, 0, WIDTH - 1, HEIGHT - 1);
    FillRectangle(frame, 0, 0, WIDTH - 1, HEIGHT - 1, color);
  }
}
