/** The framebuffer drawing of the UEFI heat demo (Heat2D.c, lines 225-320):
    clipped rectangles, the cursor cross, the 8x8 font and text. The GOP
    framebuffer (`Fb + y * Ppsl + x`) is an array2 with one row per scan
    line and Ppsl columns, so cell [y, x] is pixel y * Ppsl + x. */
module Drawing {
  import opened Bits
  import opened Numerals
  import opened Pixels

  /** The framebuffer covers Height scan lines of Ppsl pixels, and a scan
      line holds at least Width pixels. */
  predicate FrameOk(Fb: array2<u32>, width: nat, height: nat, ppsl: nat) {
    Fb.Length0 == height && Fb.Length1 == ppsl && width <= ppsl
  }

  function MinNat(a: nat, b: nat): nat {
    if a < b then a else b
  }

  /** The pixels DrawRect paints: nothing when the corner is off screen,
      otherwise the rectangle cut at the right and bottom screen edges. */
  predicate InClip(width: nat, height: nat, x0: nat, y0: nat, w: nat, h: nat, y: int, x: int) {
    x0 < width && y0 < height &&
    y0 <= y < MinNat(y0 + h, height) && x0 <= x < MinNat(x0 + w, width)
  }

  /** Painted pixels are on screen. */
  lemma ClipOnScreen(width: nat, height: nat, x0: nat, y0: nat, w: nat, h: nat, y: int, x: int)
    requires InClip(width, height, x0, y0, w, h, y, x)
    ensures 0 <= y < height && 0 <= x < width
  {
  }

  /** A rectangle wholly on screen is painted exactly. */
  lemma ClipExact(width: nat, height: nat, x0: nat, y0: nat, w: nat, h: nat, y: int, x: int)
    requires x0 + w <= width && y0 + h <= height && w >= 1 && h >= 1
    ensures InClip(width, height, x0, y0, w, h, y, x) <==> y0 <= y < y0 + h && x0 <= x < x0 + w
  {
  }

  /** DrawRect: fills the clipped rectangle with px and leaves every other
      pixel of the framebuffer as it was. */
  method DrawRect(Fb: array2<u32>, width: nat, height: nat, ppsl: nat,
                  x0: nat, y0: nat, w: nat, h: nat, px: u32)
    requires FrameOk(Fb, width, height, ppsl)
    modifies Fb
    ensures forall y, x :: 0 <= y < Fb.Length0 && 0 <= x < Fb.Length1 ==>
      Fb[y, x] == if InClip(width, height, x0, y0, w, h, y, x) then px else old(Fb[y, x])
  {
    if x0 >= width || y0 >= height {
      return;
    }
    var x1 := MinNat(x0 + w, width);
    var y1 := MinNat(y0 + h, height);
    for y := y0 to y1
      invariant forall y', x' :: 0 <= y' < Fb.Length0 && 0 <= x' < Fb.Length1 ==>
        Fb[y', x'] == if y0 <= y' < y && x0 <= x' < x1 then px else old(Fb[y', x'])
    {
      for x := x0 to x1
        invariant forall y', x' :: 0 <= y' < Fb.Length0 && 0 <= x' < Fb.Length1 ==>
          Fb[y', x'] == if (y0 <= y' < y && x0 <= x' < x1) || (y' == y && x0 <= x' < x) then px
                        else old(Fb[y', x'])
      {
        Fb[y, x] := px;
      }
    }
  }

  /** The cursor: a horizontal bar of 5 pixels starting two left of x (or at
      0) on row y, and a vertical bar of 5 starting two above y (or at 0) on
      column x. */
  predicate InCursor(width: nat, height: nat, x: nat, y: nat, cy: int, cx: int) {
    InClip(width, height, if x > 2 then x - 2 else 0, y, 5, 1, cy, cx) ||
    InClip(width, height, x, if y > 2 then y - 2 else 0, 1, 5, cy, cx)
  }

  /** Away from the edges the cursor is a plus sign with arms of two pixels. */
  lemma CursorIsCross(width: nat, height: nat, x: nat, y: nat, cy: int, cx: int)
    requires 2 <= x && x + 2 < width && 2 <= y && y + 2 < height
    ensures InCursor(width, height, x, y, cy, cx) <==>
      (cy == y && x - 2 <= cx <= x + 2) || (cx == x && y - 2 <= cy <= y + 2)
  {
  }

  /** DrawCursor: the cross in white of the given pixel format. */
  method DrawCursor(Fb: array2<u32>, width: nat, height: nat, ppsl: nat, x: nat, y: nat, pk: PixelPacker)
    requires FrameOk(Fb, width, height, ppsl)
    modifies Fb
    ensures forall cy, cx :: 0 <= cy < Fb.Length0 && 0 <= cx < Fb.Length1 ==>
      Fb[cy, cx] == if InCursor(width, height, x, y, cy, cx) then PackPixel(pk, 255, 255, 255) else old(Fb[cy, cx])
  {
    var w := PackPixel(pk, 255, 255, 255);
    DrawRect(Fb, width, height, ppsl, if x > 2 then x - 2 else 0, y, 5, 1, w);
    DrawRect(Fb, width, height, ppsl, x, if y > 2 then y - 2 else 0, 1, 5, w);
  }

  // ---------------------------------------------------------------- font

  datatype Glyph8 = Glyph8(ch: char, rows: seq<u8>)

  /** gFont8: 32 glyphs of 8 rows, most significant bit leftmost. */
  const Font8: seq<Glyph8> := [
    Glyph8(' ', [0, 0, 0, 0, 0, 0, 0, 0]),
    Glyph8('-', [0, 0, 0, 0x7E, 0, 0, 0, 0]),
    Glyph8(',', [0, 0, 0, 0, 0, 0x18, 0x18, 0x30]),
    Glyph8('.', [0, 0, 0, 0, 0, 0x18, 0x18, 0]),
    Glyph8(':', [0, 0x18, 0x18, 0, 0, 0x18, 0x18, 0]),
    Glyph8('0', [0x3C, 0x66, 0x6E, 0x76, 0x66, 0x66, 0x3C, 0]),
    Glyph8('1', [0x18, 0x38, 0x18, 0x18, 0x18, 0x18, 0x3C, 0]),
    Glyph8('2', [0x3C, 0x66, 0x06, 0x0C, 0x18, 0x30, 0x7E, 0]),
    Glyph8('3', [0x3C, 0x66, 0x06, 0x1C, 0x06, 0x66, 0x3C, 0]),
    Glyph8('4', [0x0C, 0x1C, 0x3C, 0x6C, 0x7E, 0x0C, 0x0C, 0]),
    Glyph8('5', [0x7E, 0x60, 0x7C, 0x06, 0x06, 0x66, 0x3C, 0]),
    Glyph8('6', [0x1C, 0x30, 0x60, 0x7C, 0x66, 0x66, 0x3C, 0]),
    Glyph8('7', [0x7E, 0x06, 0x0C, 0x18, 0x30, 0x30, 0x30, 0]),
    Glyph8('8', [0x3C, 0x66, 0x66, 0x3C, 0x66, 0x66, 0x3C, 0]),
    Glyph8('9', [0x3C, 0x66, 0x66, 0x3E, 0x06, 0x0C, 0x38, 0]),
    Glyph8('A', [0x18, 0x3C, 0x66, 0x66, 0x7E, 0x66, 0x66, 0]),
    Glyph8('C', [0x3C, 0x66, 0x60, 0x60, 0x60, 0x66, 0x3C, 0]),
    Glyph8('D', [0x78, 0x6C, 0x66, 0x66, 0x66, 0x6C, 0x78, 0]),
    Glyph8('H', [0x66, 0x66, 0x66, 0x7E, 0x66, 0x66, 0x66, 0]),
    Glyph8('I', [0x3C, 0x18, 0x18, 0x18, 0x18, 0x18, 0x3C, 0]),
    Glyph8('L', [0x60, 0x60, 0x60, 0x60, 0x60, 0x60, 0x7E, 0]),
    Glyph8('M', [0x63, 0x77, 0x7F, 0x6B, 0x63, 0x63, 0x63, 0]),
    Glyph8('O', [0x3C, 0x66, 0x66, 0x66, 0x66, 0x66, 0x3C, 0]),
    Glyph8('P', [0x7C, 0x66, 0x66, 0x7C, 0x60, 0x60, 0x60, 0]),
    Glyph8('R', [0x7C, 0x66, 0x66, 0x7C, 0x78, 0x6C, 0x66, 0]),
    Glyph8('S', [0x3C, 0x66, 0x60, 0x3C, 0x06, 0x66, 0x3C, 0]),
    Glyph8('T', [0x7E, 0x18, 0x18, 0x18, 0x18, 0x18, 0x18, 0]),
    Glyph8('V', [0x66, 0x66, 0x66, 0x66, 0x66, 0x3C, 0x18, 0]),
    Glyph8('E', [0x7E, 0x60, 0x60, 0x7C, 0x60, 0x60, 0x7E, 0]),
    Glyph8('B', [0x7C, 0x66, 0x66, 0x7C, 0x66, 0x66, 0x7C, 0]),
    Glyph8('N', [0x66, 0x76, 0x7E, 0x7E, 0x6E, 0x66, 0x66, 0]),
    Glyph8('Y', [0x66, 0x66, 0x66, 0x3C, 0x18, 0x18, 0x18, 0])
  ]

  /** Every glyph has eight rows. */
  predicate FontWellFormed() {
    forall k :: 0 <= k < |Font8| ==> |Font8[k].rows| == 8
  }

  lemma FontRows()
    ensures FontWellFormed()
  {
  }

  /** Lower-case ASCII letters are looked up as capitals. */
  function Upcase(ch: char): (c: char)
    ensures 'a' <= ch <= 'z' ==> c as int == ch as int - 32
    ensures !('a' <= ch <= 'z') ==> c == ch
  {
    if 'a' <= ch <= 'z' then (ch as int - 'a' as int + 'A' as int) as char else ch
  }

  /** The index of the first glyph of font with character c at or after i,
      or the table length when there is none. */
  function GlyphIndex(font: seq<Glyph8>, c: char, i: nat): (k: nat)
    requires i <= |font|
    ensures i <= k <= |font|
    ensures k < |font| ==> font[k].ch == c
    ensures forall m :: i <= m < k ==> font[m].ch != c
    decreases |font| - i
  {
    if i == |font| then i
    else if font[i].ch == c then i
    else GlyphIndex(font, c, i + 1)
  }

  /** The rows FindGlyph8 returns: the first matching glyph, or the blank
      glyph 0 for a character the font lacks. */
  function GlyphRows(ch: char): (rows: seq<u8>)
    ensures |rows| == 8
  {
    FontRows();
    var k := GlyphIndex(Font8, Upcase(ch), 0);
    if k < |Font8| then Font8[k].rows else Font8[0].rows
  }

  /** FindGlyph8: the linear search of gFont8. */
  method FindGlyph8(ch: char) returns (rows: seq<u8>)
    ensures rows == GlyphRows(ch)
  {
    var c := Upcase(ch);
    var i := 0;
    while i < |Font8|
      invariant 0 <= i <= |Font8|
      invariant forall m :: 0 <= m < i ==> Font8[m].ch != c
    {
      if Font8[i].ch == c {
        GlyphIndexFirst(Font8, c, i);
        return Font8[i].rows;
      }
      i := i + 1;
    }
    GlyphIndexNone(Font8, c);
    return Font8[0].rows;
  }

  /** The search finds the first match. */
  lemma GlyphIndexFirst(font: seq<Glyph8>, c: char, k: nat)
    requires k < |font| && font[k].ch == c
    requires forall m :: 0 <= m < k ==> font[m].ch != c
    ensures GlyphIndex(font, c, 0) == k
  {
  }

  /** The search fails only for a character the font lacks. */
  lemma GlyphIndexNone(font: seq<Glyph8>, c: char)
    requires forall m :: 0 <= m < |font| ==> font[m].ch != c
    ensures GlyphIndex(font, c, 0) == |font|
  {
  }

  /** A character of the font (in either case) draws its own glyph: the
      first table entry with its capital. */
  lemma GlyphRowsFound(ch: char, k: nat)
    requires k < |Font8| && Font8[k].ch == Upcase(ch)
    requires forall m :: 0 <= m < k ==> Font8[m].ch != Upcase(ch)
    ensures GlyphRows(ch) == Font8[k].rows
  {
    GlyphIndexFirst(Font8, Upcase(ch), k);
  }

  /** A character the font lacks draws the blank glyph. */
  lemma GlyphRowsBlank(ch: char)
    requires forall m :: 0 <= m < |Font8| ==> Font8[m].ch != Upcase(ch)
    ensures GlyphRows(ch) == [0, 0, 0, 0, 0, 0, 0, 0]
  {
    GlyphIndexNone(Font8, Upcase(ch));
  }

  /** Lower case draws the same glyph as upper case. */
  lemma GlyphCaseless(ch: char)
    requires 'a' <= ch <= 'z'
    ensures GlyphRows(ch) == GlyphRows((ch as int - 32) as char)
  {
  }

  /** `bits & (0x80u >> rx)`: the column-rx test of one glyph row; the
      shifted mask is 2^(7 - rx) (ShiftedMsb). */
  predicate GlyphBit(bits: u8, rx: nat)
    requires rx < 8
  {
    BitAnd(bits, Pow2(7 - rx)) != 0
  }

  /** Column rx of a glyph row is bit 7 - rx: the most significant bit is
      the leftmost pixel. */
  lemma GlyphBitMsbFirst(bits: u8, rx: nat)
    requires rx < 8
    ensures GlyphBit(bits, rx) <==> (bits / Pow2(7 - rx)) % 2 == 1
  {
    BitAndPow2(bits, 7 - rx);
  }

  /** The column mask, 0x80 shifted right by rx, is 2^(7 - rx). */
  lemma ShiftedMsb(rx: nat)
    requires rx < 8
    ensures 0x80 / Pow2(rx) == Pow2(7 - rx)
  {
    assert Pow2(1) == 2 && Pow2(2) == 4 && Pow2(3) == 8 && Pow2(4) == 16;
    assert Pow2(5) == 32 && Pow2(6) == 64 && Pow2(7) == 128;
  }

  /** AND with a power of two tests one bit. */
  lemma {:induction false} BitAndPow2(b: nat, k: nat)
    ensures BitAnd(b, Pow2(k)) != 0 <==> (b / Pow2(k)) % 2 == 1
  {
    if k == 0 {
      assert BitAnd(b / 2, 0) == 0;
    } else if b == 0 {
    } else {
      assert Pow2(k) % 2 == 0 && Pow2(k) / 2 == Pow2(k - 1);
      assert BitAnd(b, Pow2(k)) == 2 * BitAnd(b / 2, Pow2(k - 1));
      BitAndPow2(b / 2, k - 1);
      HalveDiv(b, Pow2(k - 1));
    }
  }

  /** The pixels one glyph row paints on its scan line: the set bits of the
      row, starting at column x and cut at the right screen edge. */
  predicate BitsCover(width: nat, x: nat, bits: u8, cx: int) {
    x <= cx < x + 8 && cx < width && GlyphBit(bits, cx - x)
  }

  predicate RowsCover(width: nat, height: nat, x: nat, y: nat, rows: seq<u8>, cy: int, cx: int)
    requires |rows| == 8
  {
    y <= cy < y + 8 && cy < height && BitsCover(width, x, rows[cy - y], cx)
  }

  /** The pixels DrawChar8 paints for a glyph at (x, y): the set bits of
      the eight rows, cut at the right and bottom screen edges. */
  predicate GlyphCovers(width: nat, height: nat, x: nat, y: nat, ch: char, cy: int, cx: int) {
    RowsCover(width, height, x, y, GlyphRows(ch), cy, cx)
  }

  /** The inner loop of DrawChar8: one glyph row on scan line py. */
  method DrawGlyphRow(Fb: array2<u32>, width: nat, py: nat, x: nat, bits: u8, fg: u32)
    requires py < Fb.Length0 && width <= Fb.Length1
    modifies Fb
    ensures forall cy, cx :: 0 <= cy < Fb.Length0 && 0 <= cx < Fb.Length1 ==>
      Fb[cy, cx] == if cy == py && BitsCover(width, x, bits, cx) then fg else old(Fb[cy, cx])
  {
    var rx := 0;
    while rx < 8
      invariant 0 <= rx <= 8
      invariant forall cy, cx :: 0 <= cy < Fb.Length0 && 0 <= cx < Fb.Length1 ==>
        Fb[cy, cx] == if cy == py && BitsCover(width, x, bits, cx) && cx < x + rx then fg else old(Fb[cy, cx])
    {
      var px := x + rx;
      if px >= width {
        break;
      }
      if GlyphBit(bits, rx) {
        Fb[py, px] := fg;
      }
      rx := rx + 1;
    }
  }

  /** DrawChar8: fg at the glyph's set bits, every other pixel unchanged. */
  method DrawChar8(Fb: array2<u32>, width: nat, height: nat, ppsl: nat, x: nat, y: nat, ch: char, fg: u32)
    requires FrameOk(Fb, width, height, ppsl)
    modifies Fb
    ensures forall cy, cx :: 0 <= cy < Fb.Length0 && 0 <= cx < Fb.Length1 ==>
      Fb[cy, cx] == if GlyphCovers(width, height, x, y, ch, cy, cx) then fg else old(Fb[cy, cx])
  {
    var rows := FindGlyph8(ch);
    var ry := 0;
    while ry < 8
      invariant 0 <= ry <= 8
      invariant forall cy, cx :: 0 <= cy < Fb.Length0 && 0 <= cx < Fb.Length1 ==>
        Fb[cy, cx] == if RowsCover(width, height, x, y, rows, cy, cx) && cy < y + ry then fg else old(Fb[cy, cx])
    {
      var py := y + ry;
      if py >= height {
        break;
      }
      DrawGlyphRow(Fb, width, py, x, rows[ry], fg);
      ry := ry + 1;
    }
  }

  // ---------------------------------------------------------------- text

  /** Where the pen is after the characters of s, starting at (x, y): a
      newline returns to column x ten rows down, any other character
      advances eight columns. */
  function PenAfter(s: seq<char>, x: nat, y: nat): (pen: (nat, nat))
    ensures pen.1 >= y
  {
    if s == [] then (x, y)
    else
      var pen := PenAfter(s[..|s| - 1], x, y);
      if s[|s| - 1] == '\n' then (x, pen.1 + 10) else (pen.0 + 8, pen.1)
  }

  datatype Placement = Placement(x: nat, y: nat, ch: char)

  /** The glyphs DrawString8 draws, in order. */
  function Placements(s: seq<char>, x: nat, y: nat): (ps: seq<Placement>)
    ensures |ps| <= |s|
  {
    if s == [] then []
    else
      var pre := s[..|s| - 1];
      var c := s[|s| - 1];
      if c == '\n' then Placements(pre, x, y)
      else var pen := PenAfter(pre, x, y); Placements(pre, x, y) + [Placement(pen.0, pen.1, c)]
  }

  /** On a line without newlines the k-th character is drawn eight columns
      on from the (k-1)-th. */
  lemma {:induction false} LinePlacements(s: seq<char>, x: nat, y: nat)
    requires forall k :: 0 <= k < |s| ==> s[k] != '\n'
    ensures PenAfter(s, x, y) == (x + 8 * |s|, y)
    ensures |Placements(s, x, y)| == |s|
    ensures forall k :: 0 <= k < |s| ==> Placements(s, x, y)[k] == Placement(x + 8 * k, y, s[k])
  {
    if s != [] {
      var pre := s[..|s| - 1];
      LinePlacements(pre, x, y);
      var ps := Placements(s, x, y);
      assert ps == Placements(pre, x, y) + [Placement(x + 8 * |pre|, y, s[|s| - 1])];
      forall k | 0 <= k < |s|
        ensures ps[k] == Placement(x + 8 * k, y, s[k])
      {
        if k < |pre| {
          assert ps[k] == Placements(pre, x, y)[k];
        }
      }
    }
  }

  /** After a newline the pen is back at column x, ten rows lower. */
  lemma NewlineReturns(s: seq<char>, x: nat, y: nat)
    ensures PenAfter(s + ['\n'], x, y) == (x, PenAfter(s, x, y).1 + 10)
    ensures Placements(s + ['\n'], x, y) == Placements(s, x, y)
  {
    assert (s + ['\n'])[..|s|] == s;
  }

  predicate TextCovers(width: nat, height: nat, ps: seq<Placement>, cy: int, cx: int) {
    exists k :: 0 <= k < |ps| && GlyphCovers(width, height, ps[k].x, ps[k].y, ps[k].ch, cy, cx)
  }

  /** One more character: a newline moves the pen down a line and back to
      x, any other character is placed at the pen, which moves right. */
  lemma PlacementsStep(s: seq<char>, k: nat, x: nat, y: nat)
    requires k < |s|
    ensures var pen := PenAfter(s[..k], x, y);
      if s[k] == '\n' then
        PenAfter(s[..k + 1], x, y) == (x, pen.1 + 10) && Placements(s[..k + 1], x, y) == Placements(s[..k], x, y)
      else
        PenAfter(s[..k + 1], x, y) == (pen.0 + 8, pen.1) &&
        Placements(s[..k + 1], x, y) == Placements(s[..k], x, y) + [Placement(pen.0, pen.1, s[k])]
  {
    assert s[..k + 1][..k] == s[..k];
  }

  /** A pixel is covered by the text with one more glyph iff the shorter text or that glyph covers it. */
  lemma TextCoversSnoc(width: nat, height: nat, ps: seq<Placement>, p: Placement, cy: int, cx: int)
    ensures TextCovers(width, height, ps + [p], cy, cx) <==>
      TextCovers(width, height, ps, cy, cx) || GlyphCovers(width, height, p.x, p.y, p.ch, cy, cx)
  {
    var qs := ps + [p];
    if GlyphCovers(width, height, p.x, p.y, p.ch, cy, cx) {
      assert qs[|ps|] == p;
    }
    if TextCovers(width, height, ps, cy, cx) {
      var k :| 0 <= k < |ps| && GlyphCovers(width, height, ps[k].x, ps[k].y, ps[k].ch, cy, cx);
      assert qs[k] == ps[k];
    }
    if TextCovers(width, height, qs, cy, cx) {
      var k :| 0 <= k < |qs| && GlyphCovers(width, height, qs[k].x, qs[k].y, qs[k].ch, cy, cx);
      if k < |ps| {
        assert qs[k] == ps[k];
      }
    }
  }

  /** DrawString8: fg at every pixel some placed glyph covers, every other
      pixel unchanged. The string is the characters before the NUL. */
  method DrawString8(Fb: array2<u32>, width: nat, height: nat, ppsl: nat, x: nat, y: nat, s: seq<char>, fg: u32)
    requires FrameOk(Fb, width, height, ppsl)
    modifies Fb
    ensures forall cy, cx :: 0 <= cy < Fb.Length0 && 0 <= cx < Fb.Length1 ==>
      Fb[cy, cx] == if TextCovers(width, height, Placements(s, x, y), cy, cx) then fg else old(Fb[cy, cx])
  {
    var cx: nat := x;
    var py: nat := y;
    var k := 0;
    while k < |s|
      invariant 0 <= k <= |s|
      invariant (cx, py) == PenAfter(s[..k], x, y)
      invariant forall cy, cx' :: 0 <= cy < Fb.Length0 && 0 <= cx' < Fb.Length1 ==>
        Fb[cy, cx'] == if TextCovers(width, height, Placements(s[..k], x, y), cy, cx') then fg else old(Fb[cy, cx'])
    {
      ghost var before := Placements(s[..k], x, y);
      PlacementsStep(s, k, x, y);
      if s[k] == '\n' {
        py := py + 10;
        cx := x;
      } else {
        label Before:
        DrawChar8(Fb, width, height, ppsl, cx, py, s[k], fg);
        ghost var p := Placement(cx, py, s[k]);
        forall cy, cx' | 0 <= cy < Fb.Length0 && 0 <= cx' < Fb.Length1
          ensures Fb[cy, cx'] == if TextCovers(width, height, before + [p], cy, cx') then fg else old(Fb[cy, cx'])
        {
          assert old@Before(Fb[cy, cx']) == if TextCovers(width, height, before, cy, cx') then fg else old(Fb[cy, cx']);
          TextCoversSnoc(width, height, before, p, cy, cx');
        }
        cx := cx + 8;
      }
      k := k + 1;
    }
    assert s[..|s|] == s;
    assert Placements(s[..|s|], x, y) == Placements(s, x, y);
  }
}
