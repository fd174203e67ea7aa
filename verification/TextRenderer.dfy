/** Characters and strings drawn into the frame buffer.

A font holds, for each of the 95 printable characters from the space on, one 16-bit word per row of pixels, the
leftmost pixel in the highest bit.  */
module TextRenderer {

  import opened Arithmetic
  import opened FrameBuffer

  datatype Font = Font(width: nat, height: nat, data: seq<bv16>)

  const GLYPHS: nat := 95

  ghost predicate ValidFont(font: Font) {
    0 < font.width < 32 && 0 < font.height && |font.data| == GLYPHS * font.height
  }

  predicate Printable(ch: char) {
    ' ' <= ch <= '~'
  }

  /** The row of the table that row i of a character is drawn from. */
  function GlyphRow(ch: char, height: nat, i: nat): (k: nat)
    requires Printable(ch) && i < height
    ensures k < GLYPHS * height
  {
    assert (ch as int - 32) * height <= 94 * height;
    (ch as int - 32) * height + i
  }

  /** The test of the drawing loop for column j of a row of pixels; the shift happens in 32 bits. */
  predicate Lit(word: bv16, j: nat)
    requires j < 32
  {
    ((word as bv32) << (j as bv32)) & 0x8000 != 0
  }

  /** It picks bit 15 - j of the word, and no bit at all beyond column 15. */
  lemma LitIs(word: bv16, j: nat)
    requires j < 32
    ensures Lit(word, j) <==> j < 16 && ((word as bv32) >> (15 - j as bv32)) & 1 == 1
  {
    ShiftedBit(word as bv32, j as bv32);
  }

  lemma ShiftedBit(b: bv32, s: bv32)
    requires s < 32
    ensures (b << s) & 0x8000 != 0 <==> s < 16 && (b >> (15 - s)) & 1 == 1
  {
  }

  /** What pixel (j, i) of a character is to show. */
  function GlyphPixel(font: Font, ch: char, j: nat, i: nat, color: bv16, bgcolor: bv16): (p: bv16)
    requires ValidFont(font) && Printable(ch) && j < font.width && i < font.height
  {
    Swapped(if Lit(font.data[GlyphRow(ch, font.height, i)], j) then color else bgcolor)
  }

  /** A glyph has `height` words in the table, the first one that of the space; the leftmost pixel is bit 15 of its
      word, and a set bit is the colour of the text. */
  lemma GlyphPixelIs(font: Font, ch: char, j: nat, i: nat, color: bv16, bgcolor: bv16)
    requires ValidFont(font) && ' ' <= ch <= '~' && j < font.width && i < font.height
    ensures 0 <= (ch as int - 32) * font.height + i < |font.data|
    ensures GlyphPixel(font, ch, j, i, color, bgcolor)
         == if j < 16 && ((font.data[(ch as int - 32) * font.height + i] as bv32) >> (15 - j as bv32)) & 1 == 1
            then Swapped(color) else Swapped(bgcolor)
  {
    hide Lit, Swapped;
    LitIs(font.data[GlyphRow(ch, font.height, i)], j);
  }

  method PutChar(frame: array<bv16>, x: nat, y: nat, ch: char, font: Font, color: bv16, bgcolor: bv16)
    requires frame.Length == SIZE && ValidFont(font) && Printable(ch)
    requires x + font.width <= WIDTH && y + font.height <= HEIGHT
    modifies frame
    ensures forall c, r | 0 <= c < 240 && 0 <= r < 240 ::
              Px(frame, c, r) == if x <= c < x + font.width && y <= r < y + font.height
                                 then GlyphPixel(font, ch, c - x, r - y, color, bgcolor)
                                 else old(Px(frame, c, r))
  {
    hide Lit, Swapped, GlyphRow, Printable;
    for i := 0 to font.height
      invariant forall c, r | OnScreen(c, r) ::
                  Px(frame, c, r) == if InRect(x, y, font.width, i, c, r)
                                     then GlyphPixel(font, ch, c - x, r - y, color, bgcolor)
                                     else old(Px(frame, c, r))
    {
      var b := font.data[GlyphRow(ch, font.height, i)];
      for j := 0 to font.width
        invariant forall c, r | OnScreen(c, r) ::
                    Px(frame, c, r) == if InRect(x, y, font.width, i, c, r) || InRect(x, y + i, j, 1, c, r)
                                       then GlyphPixel(font, ch, c - x, r - y, color, bgcolor)
                                       else old(Px(frame, c, r))
      {
        if Lit(b, j) {
          frame[(x + WIDTH * y) + (j + WIDTH * i)] := Swapped(color);
        } else {
          frame[(x + WIDTH * y) + (j + WIDTH * i)] := Swapped(bgcolor);
        }
      }
    }
  }

  // ---------- strings ----------

  /** How many characters go on one line from column x on. */
  function PerLine(width: nat, x: nat): (m: nat)
    requires 0 < width && x + width <= WIDTH
    ensures 0 < m && width * m <= WIDTH - x < width * m + width
  {
    DivIs(WIDTH - x, width, (WIDTH - x) / width);
    (WIDTH - x) / width
  }

  /** How many lines n characters take, m to the line. */
  function Lines(n: nat, m: nat): (rows: nat)
    requires 0 < m
  {
    (n + m - 1) / m
  }

  /** A line is used exactly if its first character is there. */
  lemma LineUsed(n: nat, m: nat, row: nat)
    requires 0 < m
    ensures row < Lines(n, m) <==> m * row < n
  {
    DivIs(n + m - 1, m, Lines(n, m));
    if row < Lines(n, m) {
      assert m * row <= m * (Lines(n, m) - 1);
    } else {
      assert m * row >= m * Lines(n, m);
    }
  }

  /** The layout of a text: its top left corner and the size of a character. */
  datatype Layout = Layout(x: nat, y: nat, width: nat, height: nat)

  ghost predicate ValidLayout(at: Layout) {
    0 < at.width && 0 < at.height && at.x + at.width <= WIDTH
  }

  function Column(at: Layout, k: nat): (a: nat)
    requires ValidLayout(at)
    ensures a < PerLine(at.width, at.x)
  {
    k % PerLine(at.width, at.x)
  }

  function Row(at: Layout, k: nat): (b: nat)
    requires ValidLayout(at)
  {
    k / PerLine(at.width, at.x)
  }

  function CellX(at: Layout, k: nat): (x: nat)
    requires ValidLayout(at)
  {
    Monotone(at.width, 0, Column(at, k));
    at.x + at.width * Column(at, k)
  }

  function CellY(at: Layout, k: nat): (y: nat)
    requires ValidLayout(at)
  {
    Monotone(at.height, 0, Row(at, k));
    at.y + at.height * Row(at, k)
  }

  /** Pixel (c, r) lies in the cell of character k. */
  predicate InCell(at: Layout, k: nat, c: int, r: int)
    requires ValidLayout(at)
  {
    InRect(CellX(at, k), CellY(at, k), at.width, at.height, c, r)
  }

  /** The character whose cell pixel (c, r) lies in. */
  function CellOf(at: Layout, c: int, r: int): (k: int)
    requires ValidLayout(at)
  {
    (r - at.y) / at.height * PerLine(at.width, at.x) + (c - at.x) / at.width
  }

  lemma ColumnAndRow(at: Layout, k: nat, a: int, b: int)
    requires ValidLayout(at) && 0 <= a < PerLine(at.width, at.x)
    ensures k == b * PerLine(at.width, at.x) + a <==> Row(at, k) == b && Column(at, k) == a
  {
    var m := PerLine(at.width, at.x);
    DivIs(k, m, b);
    assert k == m * (k / m) + k % m;
    assert b * m == m * b;
  }

  lemma ColumnOf(at: Layout, c: int, a: int)
    requires ValidLayout(at)
    ensures (c - at.x) / at.width == a <==> at.x + at.width * a <= c < at.x + at.width * a + at.width
    ensures 0 <= (c - at.x) / at.width < PerLine(at.width, at.x) <==>
            at.x <= c < at.x + at.width * PerLine(at.width, at.x)
  {
    hide PerLine;
    DivIs(c - at.x, at.width, a);
    QuotientBelow(c - at.x, at.width, PerLine(at.width, at.x));
  }

  lemma RowOf(at: Layout, r: int, b: int)
    requires ValidLayout(at)
    ensures (r - at.y) / at.height == b <==> at.y + at.height * b <= r < at.y + at.height * b + at.height
    ensures 0 <= (r - at.y) / at.height <==> at.y <= r
  {
    DivIs(r - at.y, at.height, b);
  }

  /** The cells tile the block of the text: each of its pixels lies in exactly one cell, the one the formula names. */
  lemma CellsTile(at: Layout, k: nat, c: int, r: int)
    requires ValidLayout(at)
    ensures InCell(at, k, c, r) <==>
              at.x <= c < at.x + at.width * PerLine(at.width, at.x) && at.y <= r && k == CellOf(at, c, r)
  {
    hide PerLine, Column, Row;
    ColumnOf(at, c, Column(at, k));
    RowOf(at, r, Row(at, k));
    var a, b := (c - at.x) / at.width, (r - at.y) / at.height;
    if 0 <= a < PerLine(at.width, at.x) {
      ColumnAndRow(at, k, a, b);
    }
  }

  /** The first n characters leave room for themselves: the last line ends on the screen. */
  predicate Fits(at: Layout, n: nat)
    requires ValidLayout(at)
  {
    at.y + at.height * Lines(n, PerLine(at.width, at.x)) <= HEIGHT
  }

  /** That is so if and only if the line of the last character ends on the screen. */
  lemma FitsIff(at: Layout, n: nat)
    requires ValidLayout(at) && n > 0
    ensures Fits(at, n) <==> at.y + at.height * ((n - 1) / ((240 - at.x) / at.width)) + at.height <= 240
  {
    hide Fits, PerLine, Lines;
    PerLineIs(at);
    LinesAre(n, PerLine(at.width, at.x));
    Next(at.height, (n - 1) / PerLine(at.width, at.x));
    FitsMeans(at, n);
  }

  lemma PerLineIs(at: Layout)
    requires ValidLayout(at)
    ensures PerLine(at.width, at.x) == (240 - at.x) / at.width > 0
  {
  }

  lemma LinesAre(n: nat, m: nat)
    requires n > 0 && m > 0
    ensures Lines(n, m) == (n - 1) / m + 1
  {
    DivIs(n - 1, m, (n - 1) / m);
    Next(m, (n - 1) / m);
    DivIs(n + m - 1, m, (n - 1) / m + 1);
  }

  lemma FitsMeans(at: Layout, n: nat)
    requires ValidLayout(at)
    ensures Fits(at, n) <==> at.y + at.height * Lines(n, PerLine(at.width, at.x)) <= 240
  {
  }

  /** Character k is in column k mod m and row k div m, for m characters to the line. */
  lemma CellAt(at: Layout, k: nat)
    requires ValidLayout(at)
    ensures (240 - at.x) / at.width > 0
    ensures CellX(at, k) == at.x + at.width * (k % ((240 - at.x) / at.width))
    ensures CellY(at, k) == at.y + at.height * (k / ((240 - at.x) / at.width))
  {
    PerLineIs(at);
  }

  /** Then all their cells are on the screen. */
  lemma CellsOnScreen(at: Layout, n: nat, k: nat)
    requires ValidLayout(at) && k < n && Fits(at, n)
    ensures CellX(at, k) + at.width <= WIDTH && CellY(at, k) + at.height <= HEIGHT
  {
    hide PerLine, Lines, Column, Row;
    var m, a, b := PerLine(at.width, at.x), Column(at, k), Row(at, k);
    Next(at.width, a);
    Monotone(at.width, a + 1, m);
    RowUsed(at, n, k);
    Next(at.height, b);
    Monotone(at.height, b + 1, Lines(n, m));
  }

  /** The line of a character is one of the lines in use. */
  lemma RowUsed(at: Layout, n: nat, k: nat)
    requires ValidLayout(at) && k < n
    ensures Row(at, k) < Lines(n, PerLine(at.width, at.x))
  {
    var m, b := PerLine(at.width, at.x), Row(at, k);
    ColumnAndRow(at, k, Column(at, k), b);
    hide PerLine, Lines, Column, Row;
    assert m * b == b * m;
    LineUsed(n, m, b);
  }

  // ---------- the cursor ----------

  datatype Cursor = Cursor(x: nat, y: nat)

  /** Where the next character goes: on a new line when it does not fit on this one. */
  function Placed(at: Layout, cursor: Cursor): (p: Cursor) {
    if cursor.x + at.width > WIDTH then Cursor(at.x, cursor.y + at.height) else cursor
  }

  /** The cursor before character k, if drawing has not stopped. */
  function CursorAt(at: Layout, k: nat): (cursor: Cursor) {
    if k == 0 then
      Cursor(at.x, at.y)
    else
      var p := Placed(at, CursorAt(at, k - 1));
      Cursor(p.x + at.width, p.y)
  }

  /** The stop test, which looks at the line of the cursor and not at the one the character goes on. */
  predicate Stops(at: Layout, cursor: Cursor) {
    cursor.y + at.height > HEIGHT
  }

  /** The next character is in the next column, or in the first column of the next row. */
  lemma NextColumn(at: Layout, k: nat)
    requires ValidLayout(at)
    ensures var m, a, b := PerLine(at.width, at.x), Column(at, k), Row(at, k);
      && Column(at, k + 1) == (if a + 1 < m then a + 1 else 0)
      && Row(at, k + 1) == (if a + 1 < m then b else b + 1)
  {
    hide PerLine, Column, Row;
    var m, a, b := PerLine(at.width, at.x), Column(at, k), Row(at, k);
    ColumnAndRow(at, k, a, b);
    if a + 1 < m {
      ColumnAndRow(at, k + 1, a + 1, b);
    } else {
      assert (b + 1) * m == b * m + m;
      ColumnAndRow(at, k + 1, 0, b + 1);
    }
  }

  lemma NextCell(at: Layout, k: nat)
    requires ValidLayout(at)
    ensures Placed(at, Cursor(CellX(at, k) + at.width, CellY(at, k))) == Cursor(CellX(at, k + 1), CellY(at, k + 1))
  {
    hide PerLine, Column, Row;
    var m, a, b := PerLine(at.width, at.x), Column(at, k), Row(at, k);
    NextColumn(at, k);
    Next(at.width, a);
    Next(at.height, b);
    if a + 1 < m {
      Next(at.width, a + 1);
      Monotone(at.width, a + 2, m);
    } else {
      assert a + 1 == m;
    }
  }

  /** The running cursor finds the cells. */
  lemma {:induction false} CursorIs(at: Layout, k: nat)
    requires ValidLayout(at)
    ensures Placed(at, CursorAt(at, k)) == Cursor(CellX(at, k), CellY(at, k))
    ensures CursorAt(at, k).y == if k == 0 then at.y else CellY(at, k - 1)
  {
    hide PerLine, Column, Row;
    if k == 0 {
      ColumnAndRow(at, 0, 0, 0);
    } else {
      CursorIs(at, k - 1);
      NextCell(at, k - 1);
    }
  }

  /** Some character is drawn beyond the end of the frame buffer. */
  ghost predicate Overruns(at: Layout, n: nat)
    requires ValidLayout(at)
  {
    exists k: nat | k < n :: DrawnOutside(at, CursorAt(at, k))
  }

  predicate DrawnOutside(at: Layout, cursor: Cursor)
    requires ValidLayout(at)
  {
    var p := Placed(at, cursor);
    !Stops(at, cursor) && (p.x + at.width - 1) + WIDTH * (p.y + at.height - 1) >= SIZE
  }

  /** How many lines end on the screen. */
  function FullLines(at: Layout): (rows: nat)
    requires ValidLayout(at) && at.y + at.height <= HEIGHT
    ensures 0 < rows && at.y + at.height * rows <= HEIGHT < at.y + at.height * rows + at.height
  {
    DivIs(HEIGHT - at.y, at.height, (HEIGHT - at.y) / at.height);
    (HEIGHT - at.y) / at.height
  }

  lemma OverrunsWhenItDoesNotFit(at: Layout, n: nat)
    requires ValidLayout(at) && at.y + at.height <= HEIGHT && !Fits(at, n)
    ensures Overruns(at, n)
  {
    hide PerLine, Lines, FullLines, CursorAt, Column, Row;
    var m, rows := PerLine(at.width, at.x), FullLines(at);
    var k := rows * m;
    if Lines(n, m) <= rows {
      Monotone(at.height, Lines(n, m), rows);
    }
    LineUsed(n, m, rows);
    assert m * rows == k;
    ColumnAndRow(at, k, 0, rows);
    assert k - 1 == (rows - 1) * m + (m - 1);
    Monotone(m, 1, rows);
    ColumnAndRow(at, k - 1, m - 1, rows - 1);
    CursorIs(at, k);
    assert at.height * rows == at.height * (rows - 1) + at.height;
    assert DrawnOutside(at, CursorAt(at, k));
  }

  lemma InsideOrStopped(at: Layout, n: nat, k: nat)
    requires ValidLayout(at) && k < n && (Fits(at, n) || at.y + at.height > HEIGHT)
    ensures !DrawnOutside(at, CursorAt(at, k))
    ensures at.y + at.height > HEIGHT ==> Stops(at, CursorAt(at, k))
  {
    CursorIs(at, k);
    hide PerLine, Fits, Column, Row, CursorAt, CellX;
    if Fits(at, n) {
      CellsOnScreen(at, n, k);
    }
    Monotone(at.height, 0, Row(at, k));
  }

  /** A text whose first cell starts on a line that fits is drawn inside the frame buffer exactly if all of it fits;
      further down nothing at all is drawn. */
  lemma OverrunsIff(at: Layout, n: nat)
    requires ValidLayout(at)
    ensures Overruns(at, n) <==> at.y + at.height <= 240 && !Fits(at, n)
    ensures at.y + at.height > 240 ==> forall k: nat | k < n :: Stops(at, CursorAt(at, k))
  {
    forall k: nat | k < n && (Fits(at, n) || at.y + at.height > HEIGHT)
      ensures !DrawnOutside(at, CursorAt(at, k))
      ensures at.y + at.height > HEIGHT ==> Stops(at, CursorAt(at, k))
    {
      InsideOrStopped(at, n, k);
    }
    if at.y + at.height <= HEIGHT && !Fits(at, n) {
      OverrunsWhenItDoesNotFit(at, n);
    }
  }

  /** Two characters to the line and room for one line: the third character is drawn below the screen. */
  lemma OverrunExample()
    ensures var at := Layout(0, 230, 120, 10);
      PerLine(120, 0) == 2 && at.y + at.height == HEIGHT && !Fits(at, 3) && Overruns(at, 3) && !Overruns(at, 2)
  {
    OverrunsIff(Layout(0, 230, 120, 10), 3);
    OverrunsIff(Layout(0, 230, 120, 10), 2);
  }

  // ---------- drawing a string ----------

  /** Pixel (c, r) lies in the cell of one of the first n characters. */
  predicate Covered(at: Layout, n: nat, c: int, r: int)
    requires ValidLayout(at)
  {
    at.x <= c < at.x + at.width * PerLine(at.width, at.x) && at.y <= r && 0 <= CellOf(at, c, r) < n
  }

  function At(font: Font, x: nat, y: nat): (at: Layout) {
    Layout(x, y, font.width, font.height)
  }

  /** What a covered pixel shows: the pixel of the character of its cell. */
  function TextPixel(at: Layout, text: string, font: Font, c: int, r: int, color: bv16, bgcolor: bv16): (p: bv16)
    requires ValidFont(font) && ValidLayout(at) && at == At(font, at.x, at.y)
    requires (forall ch | ch in text :: Printable(ch)) && Covered(at, |text|, c, r)
  {
    var k := CellOf(at, c, r);
    CellsTile(at, k, c, r);
    GlyphPixel(font, text[k], c - CellX(at, k), r - CellY(at, k), color, bgcolor)
  }

  /** The cell of character k shows its glyph: the pixel in column j and row i of the cell is bit 15 - j of word i of
      the glyph. */
  lemma CellShows(at: Layout, text: string, font: Font, k: nat, j: nat, i: nat, color: bv16, bgcolor: bv16)
    requires ValidFont(font) && ValidLayout(at) && at == Layout(at.x, at.y, font.width, font.height)
    requires (forall ch | ch in text :: ' ' <= ch <= '~') && k < |text| && j < font.width && i < font.height
    ensures (240 - at.x) / font.width > 0
    ensures 0 <= (text[k] as int - 32) * font.height + i < |font.data|
    ensures var m, word := (240 - at.x) / font.width, font.data[(text[k] as int - 32) * font.height + i];
      var c, r := at.x + font.width * (k % m) + j, at.y + font.height * (k / m) + i;
      && Covered(at, |text|, c, r)
      && TextPixel(at, text, font, c, r, color, bgcolor)
         == if j < 16 && ((word as bv32) >> (15 - j as bv32)) & 1 == 1 then Swapped(color) else Swapped(bgcolor)
  {
    hide Covered, TextPixel, CellX, CellY, CellOf, PerLine, GlyphPixel, Swapped;
    assert text[k] in text;
    CellAt(at, k);
    GlyphPixelIs(font, text[k], j, i, color, bgcolor);
    var c, r := CellX(at, k) + j, CellY(at, k) + i;
    CoveredNext(at, text, font, k, c, r, color, bgcolor);
    assert InCell(at, k, c, r);
  }

  /** Nothing else is drawn: a covered pixel is in the cell of one of the characters. */
  lemma CoveredMeans(at: Layout, n: nat, c: int, r: int) returns (k: nat)
    requires ValidLayout(at) && Covered(at, n, c, r)
    ensures k < n && (240 - at.x) / at.width > 0
    ensures var m := (240 - at.x) / at.width;
      && at.x + at.width * (k % m) <= c < at.x + at.width * (k % m) + at.width
      && at.y + at.height * (k / m) <= r < at.y + at.height * (k / m) + at.height
  {
    k := CellOf(at, c, r);
    CellsTile(at, k, c, r);
    CellAt(at, k);
    hide CellX, CellY, CellOf, PerLine;
    assert InCell(at, k, c, r);
  }

  /** Covering one more character adds exactly the pixels of its cell, and they show it. */
  lemma CoveredNext(at: Layout, text: string, font: Font, k: nat, c: int, r: int, color: bv16, bgcolor: bv16)
    requires ValidFont(font) && ValidLayout(at) && at == At(font, at.x, at.y)
    requires forall ch | ch in text :: Printable(ch)
    requires k < |text|
    ensures Covered(at, k + 1, c, r) <==> Covered(at, k, c, r) || InCell(at, k, c, r)
    ensures InCell(at, k, c, r) ==>
              && Covered(at, |text|, c, r)
              && TextPixel(at, text, font, c, r, color, bgcolor)
                 == GlyphPixel(font, text[k], c - CellX(at, k), r - CellY(at, k), color, bgcolor)
  {
    hide CellX, CellY, InCell, CellOf, PerLine, GlyphPixel;
    CellsTile(at, k, c, r);
  }

  lemma NoneCovered(at: Layout)
    requires ValidLayout(at)
    ensures forall c, r :: !Covered(at, 0, c, r)
  {
  }

  /** Where nothing overruns, drawing stops at the first character if the text does not fit, and else not at all. */
  lemma StopsIff(at: Layout, n: nat, k: nat)
    requires ValidLayout(at) && k < n && !Overruns(at, n)
    ensures Stops(at, CursorAt(at, k)) <==> !Fits(at, n)
  {
    OverrunsIff(at, n);
    if Fits(at, n) {
      hide PerLine, Lines, Fits, CellX, CellY;
      CursorIs(at, k);
      CellsOnScreen(at, n, k);
      if k > 0 {
        CellsOnScreen(at, n, k - 1);
      }
    }
  }

  method PutString(frame: array<bv16>, text: string, x: nat, y: nat, font: Font, color: bv16, bgcolor: bv16)
    requires frame.Length == SIZE && ValidFont(font) && x + font.width <= WIDTH
    requires forall ch | ch in text :: Printable(ch)
    requires !Overruns(At(font, x, y), |text|)
    modifies frame
    ensures forall c, r | 0 <= c < 240 && 0 <= r < 240 ::
              Px(frame, c, r) == if Fits(At(font, x, y), |text|) && Covered(At(font, x, y), |text|, c, r)
                                 then TextPixel(At(font, x, y), text, font, c, r, color, bgcolor)
                                 else old(Px(frame, c, r))
  {
    hide Printable, Fits, Overruns, Covered, TextPixel, CellX, CellY, CellOf, PerLine, GlyphPixel;
    var localX: nat, localY: nat := x, y;
    ghost var at := At(font, x, y);
    OverrunsIff(at, |text|);
    NoneCovered(at);
    for i := 0 to |text|
      invariant Cursor(localX, localY) == CursorAt(at, i)
      invariant i > 0 ==> Fits(at, |text|)
      invariant forall c, r | OnScreen(c, r) ::
                  Px(frame, c, r) == if Covered(at, i, c, r) && Covered(at, |text|, c, r)
                                     then TextPixel(at, text, font, c, r, color, bgcolor)
                                     else old(Px(frame, c, r))
    {
      var moveToNextLine := localX + font.width > WIDTH;
      var stopDrawing := localY + font.height > HEIGHT;
      CursorIs(at, i);
      if stopDrawing {
        StopsIff(at, |text|, i);
        return;
      }
      if moveToNextLine {
        localY := localY + font.height;
        localX := x;
      }
      StopsIff(at, |text|, i);
      CellsOnScreen(at, |text|, i);
      PutChar(frame, localX, localY, text[i], font, color, bgcolor);
      forall c, r | OnScreen(c, r)
        ensures InRect(localX, localY, font.width, font.height, c, r) <==> InCell(at, i, c, r)
        ensures Covered(at, i + 1, c, r) <==> Covered(at, i, c, r) || InCell(at, i, c, r)
        ensures InCell(at, i, c, r) ==>
                  && Covered(at, |text|, c, r)
                  && TextPixel(at, text, font, c, r, color, bgcolor)
                     == GlyphPixel(font, text[i], c - CellX(at, i), r - CellY(at, i), color, bgcolor)
      {
        CoveredNext(at, text, font, i, c, r, color, bgcolor);
      }
      localX := localX + font.width;
    }
  }
}
