/** The text-mode compositor as a specification: what colour each pixel of
    the 640x400 frame takes, given memory, the position of the text window,
    the PSF1 font and the 16-entry palette. */
module Video {
  import opened Bits
  import opened Cpu

  const GLYPH_WIDTH: nat := 8
  const GLYPH_HEIGHT: nat := 16
  const SCREEN_WIDTH: nat := 640
  const SCREEN_HEIGHT: nat := 400
  const SCREEN_PIXELS: nat := 640 * 400

  /** Size of the PSF1 header that precedes the glyphs. */
  const PSF1_HEADER_SIZE: nat := 4

  /** The font holds a glyph for every byte value: the renderer indexes it
      by character code without checking its length. */
  predicate FontCovers(font: seq<bv8>)
  {
    |font| >= PSF1_HEADER_SIZE + 256 * GLYPH_HEIGHT
  }

  /** The palette has one colour per 4-bit colour index. */
  predicate IsPalette(palette: seq<bv32>)
  {
    |palette| == 16
  }

  /** Foreground colour index: the attribute's low nibble. */
  function Foreground(attr: bv8): (i: nat)
    ensures i < 16
  {
    (attr & 0x0F) as nat
  }

  /** Background colour index: the attribute's high nibble. */
  function Background(attr: bv8): (i: nat)
    ensures i < 16
  {
    ((attr & 0xF0) >> 4) as nat
  }

  /** A pixel position inside the screen, as a cell (x, y) of the 80x25 grid
      and a glyph pixel (fx, fy) of the 8x16 cell. */
  predicate InScreen(x: int, y: int, fx: int, fy: int)
  {
    0 <= x < 80 && 0 <= y < 25 && 0 <= fx < 8 && 0 <= fy < 16
  }

  /** Pixel (fx, fy) of cell (x, y) in the row-major framebuffer. */
  function PixelIndex(x: int, y: int, fx: int, fy: int): (p: int)
    ensures InScreen(x, y, fx, fy) ==> 0 <= p < SCREEN_PIXELS
  {
    x * 8 + fx + (y * 16 + fy) * 640
  }

  /** Glyph pixel (fx, fy) of character `ch` is set: bit `0x80 >> fx` of
      the glyph's row `fy`, the most significant bit being the leftmost. */
  predicate GlyphBit(font: seq<bv8>, ch: bv8, fx: int, fy: int): (lit: bool)
    requires FontCovers(font) && 0 <= fx < 8 && 0 <= fy < 16
    ensures lit <==> (font[PSF1_HEADER_SIZE + 16 * ch as int + fy] >> (7 - fx)) & 1 == 1
  {
    font[PSF1_HEADER_SIZE + fy + ch as int * 16] & (0x80 >> fx) != 0
  }

  /** Address of the character byte of cell (x, y); the attribute follows it. */
  function CellAddress(videoMemory: int, x: int, y: int): (a: int)
    ensures 0 <= x < TEXT_COLUMNS && 0 <= y < TEXT_ROWS ==>
      videoMemory <= a && a + 2 <= videoMemory + TEXT_BYTES && (a - videoMemory) % 2 == 0
  {
    videoMemory + 2 * (80 * y + x)
  }

  /** Colour of glyph pixel (fx, fy) of cell (x, y): foreground where the
      glyph bit is set, background elsewhere. */
  function CellPixel(mem: seq<bv8>, videoMemory: int, font: seq<bv8>, palette: seq<bv32>,
                     x: int, y: int, fx: int, fy: int): (c: bv32)
    requires |mem| == MEM_SIZE && VideoFits(videoMemory) && FontCovers(font) && IsPalette(palette)
    requires InScreen(x, y, fx, fy)
    ensures var attr := mem[CellAddress(videoMemory, x, y) + 1];
      c == palette[Foreground(attr)] || c == palette[Background(attr)]
  {
    var ch := mem[CellAddress(videoMemory, x, y)];
    var attr := mem[CellAddress(videoMemory, x, y) + 1];
    if GlyphBit(font, ch, fx, fy) then palette[Foreground(attr)] else palette[Background(attr)]
  }

  /** Colour of framebuffer pixel `p`. */
  function FramePixel(mem: seq<bv8>, videoMemory: int, font: seq<bv8>, palette: seq<bv32>, p: int): (c: bv32)
    requires |mem| == MEM_SIZE && VideoFits(videoMemory) && FontCovers(font) && IsPalette(palette)
    requires 0 <= p < SCREEN_PIXELS
    ensures forall x, y, fx, fy :: InScreen(x, y, fx, fy) && PixelIndex(x, y, fx, fy) == p ==>
      c == CellPixel(mem, videoMemory, font, palette, x, y, fx, fy)
  {
    PixelCoordinatesInScreen(p);
    PixelIndexDetermines(p);
    var row := p / 640;
    var col := p % 640;
    CellPixel(mem, videoMemory, font, palette, col / 8, row / 16, col % 8, row % 16)
  }

  /** The whole frame, pixel by pixel. */
  function Frame(mem: seq<bv8>, videoMemory: int, font: seq<bv8>, palette: seq<bv32>): (f: seq<bv32>)
    requires |mem| == MEM_SIZE && VideoFits(videoMemory) && FontCovers(font) && IsPalette(palette)
    ensures |f| == SCREEN_PIXELS
  {
    seq(SCREEN_PIXELS, p requires 0 <= p < SCREEN_PIXELS =>
      FramePixel(mem, videoMemory, font, palette, p))
  }

  /** Every framebuffer index names a pixel position inside the screen. */
  lemma PixelCoordinatesInScreen(p: int)
    requires 0 <= p < SCREEN_PIXELS
    ensures InScreen((p % 640) / 8, (p / 640) / 16, (p % 640) % 8, (p / 640) % 16)
    ensures PixelIndex((p % 640) / 8, (p / 640) / 16, (p % 640) % 8, (p / 640) % 16) == p
  {
  }

  /** Framebuffer index `p` names exactly one pixel position. */
  lemma PixelIndexDetermines(p: int)
    requires 0 <= p < SCREEN_PIXELS
    ensures forall x, y, fx, fy :: InScreen(x, y, fx, fy) && PixelIndex(x, y, fx, fy) == p ==>
      x == (p % 640) / 8 && y == (p / 640) / 16 && fx == (p % 640) % 8 && fy == (p / 640) % 16
  {
    forall x, y, fx, fy | InScreen(x, y, fx, fy) && PixelIndex(x, y, fx, fy) == p
      ensures x == (p % 640) / 8 && y == (p / 640) / 16 && fx == (p % 640) % 8 && fy == (p / 640) % 16
    {
      PixelIndexIsBijective(x, y, fx, fy);
    }
  }

  /** The pixel positions of the 2000 cells and the framebuffer indices are
      in one-to-one correspondence: the index lies in the buffer and the
      position can be read back from it, so the four nested loops write
      every pixel of the buffer exactly once. */
  lemma PixelIndexIsBijective(x: int, y: int, fx: int, fy: int)
    requires InScreen(x, y, fx, fy)
    ensures var p := PixelIndex(x, y, fx, fy);
      0 <= p < SCREEN_PIXELS &&
      (p % 640) / 8 == x && (p / 640) / 16 == y && (p % 640) % 8 == fx && (p / 640) % 16 == fy
  {
    var p := PixelIndex(x, y, fx, fy);
    var row := y * 16 + fy;
    var col := x * 8 + fx;
    assert p == row * 640 + col && 0 <= col < 640;
    assert p / 640 == row && p % 640 == col;
  }

  /** Distinct pixel positions have distinct framebuffer indices. */
  lemma PixelIndexIsInjective(x: int, y: int, fx: int, fy: int, x': int, y': int, fx': int, fy': int)
    requires InScreen(x, y, fx, fy) && InScreen(x', y', fx', fy')
    requires PixelIndex(x, y, fx, fy) == PixelIndex(x', y', fx', fy')
    ensures x == x' && y == y' && fx == fx' && fy == fy'
  {
    PixelIndexIsBijective(x, y, fx, fy);
    PixelIndexIsBijective(x', y', fx', fy');
  }

  /** The 8 pixels of glyph row `fy` of cell (x, y) are consecutive in the
      framebuffer, and no pixel of another glyph row or cell falls among them. */
  lemma GlyphRowsDisjoint(x: int, y: int, fy: int, x': int, y': int, fx': int, fy': int)
    requires InScreen(x, y, 0, fy) && InScreen(x', y', fx', fy')
    requires x' != x || y' != y || fy' != fy
    ensures var base := PixelIndex(x, y, 0, fy);
      !(base <= PixelIndex(x', y', fx', fy') < base + 8)
  {
  }

  /** The frame's pixel at a cell position is that cell's glyph pixel. */
  lemma FrameAtCell(mem: seq<bv8>, videoMemory: int, font: seq<bv8>, palette: seq<bv32>,
                    x: int, y: int, fx: int, fy: int)
    requires |mem| == MEM_SIZE && VideoFits(videoMemory) && FontCovers(font) && IsPalette(palette)
    requires InScreen(x, y, fx, fy)
    ensures 0 <= PixelIndex(x, y, fx, fy) < SCREEN_PIXELS
    ensures Frame(mem, videoMemory, font, palette)[PixelIndex(x, y, fx, fy)]
         == CellPixel(mem, videoMemory, font, palette, x, y, fx, fy)
  {
    PixelIndexIsBijective(x, y, fx, fy);
  }

  /** With two distinct colours, each glyph bit maps to exactly one of them:
      the foreground colour when set, the background colour when clear. */
  lemma GlyphBitsSelectColours(mem: seq<bv8>, videoMemory: int, font: seq<bv8>, palette: seq<bv32>,
                               x: int, y: int, fx: int, fy: int)
    requires |mem| == MEM_SIZE && VideoFits(videoMemory) && FontCovers(font) && IsPalette(palette)
    requires InScreen(x, y, fx, fy)
    requires var attr := mem[CellAddress(videoMemory, x, y) + 1];
      palette[Foreground(attr)] != palette[Background(attr)]
    ensures var ch := mem[CellAddress(videoMemory, x, y)];
      var attr := mem[CellAddress(videoMemory, x, y) + 1];
      var c := CellPixel(mem, videoMemory, font, palette, x, y, fx, fy);
      (c == palette[Foreground(attr)] <==> GlyphBit(font, ch, fx, fy)) &&
      (c == palette[Background(attr)] <==> !GlyphBit(font, ch, fx, fy))
  {
  }

  /** A cell's pixels depend on its own two bytes and nothing else in
      memory: no cross-cell aliasing. */
  lemma CellPixelIsLocal(mem: seq<bv8>, mem': seq<bv8>, videoMemory: int, font: seq<bv8>, palette: seq<bv32>,
                         x: int, y: int, fx: int, fy: int)
    requires |mem| == MEM_SIZE && |mem'| == MEM_SIZE && VideoFits(videoMemory)
    requires FontCovers(font) && IsPalette(palette) && InScreen(x, y, fx, fy)
    requires mem[CellAddress(videoMemory, x, y)] == mem'[CellAddress(videoMemory, x, y)]
    requires mem[CellAddress(videoMemory, x, y) + 1] == mem'[CellAddress(videoMemory, x, y) + 1]
    ensures CellPixel(mem, videoMemory, font, palette, x, y, fx, fy)
         == CellPixel(mem', videoMemory, font, palette, x, y, fx, fy)
  {
  }

  /** The frame depends only on the 4000 bytes of the text window. */
  lemma {:induction false} FrameReadsOnlyTextWindow(mem: seq<bv8>, mem': seq<bv8>, videoMemory: int,
                                                    font: seq<bv8>, palette: seq<bv32>)
    requires |mem| == MEM_SIZE && |mem'| == MEM_SIZE && VideoFits(videoMemory)
    requires FontCovers(font) && IsPalette(palette)
    requires mem[videoMemory..videoMemory + TEXT_BYTES] == mem'[videoMemory..videoMemory + TEXT_BYTES]
    ensures Frame(mem, videoMemory, font, palette) == Frame(mem', videoMemory, font, palette)
  {
    forall p | 0 <= p < SCREEN_PIXELS
      ensures Frame(mem, videoMemory, font, palette)[p] == Frame(mem', videoMemory, font, palette)[p]
    {
      PixelCoordinatesInScreen(p);
      var x, y, fx, fy := (p % 640) / 8, (p / 640) / 16, (p % 640) % 8, (p / 640) % 16;
      var a := CellAddress(videoMemory, x, y);
      assert mem[a] == mem[videoMemory..videoMemory + TEXT_BYTES][a - videoMemory];
      assert mem[a + 1] == mem[videoMemory..videoMemory + TEXT_BYTES][a + 1 - videoMemory];
      CellPixelIsLocal(mem, mem', videoMemory, font, palette, x, y, fx, fy);
    }
  }

  /** While halted the machine state never changes, so every frame drawn
      after the halt is identical to the first. */
  lemma HaltedFramesIdentical(s: State, videoMemory: int, font: seq<bv8>, palette: seq<bv32>, n: nat)
    requires s.WellFormed() && s.hlt && VideoFits(videoMemory) && FontCovers(font) && IsPalette(palette)
    ensures Run(s, videoMemory, n).state.mem == s.mem
    ensures Frame(Run(s, videoMemory, n).state.mem, videoMemory, font, palette)
         == Frame(s.mem, videoMemory, font, palette)
  {
    HaltedIsFixpoint(s, videoMemory, n);
  }

  /** Teletype output at a cursor inside the grid shows up in the next frame
      as the glyph of AL drawn in colour 7 on colour 0 in the cursor's cell. */
  lemma TeletypeIsDisplayed(s: State, videoMemory: int, font: seq<bv8>, palette: seq<bv32>, fx: int, fy: int)
    requires s.WellFormed() && VideoFits(videoMemory) && FontCovers(font) && IsPalette(palette)
    requires InScreen(s.curX, s.curY, fx, fy)
    ensures TeletypeFits(s, videoMemory)
    ensures CellPixel(Teletype(s, videoMemory).mem, videoMemory, font, palette, s.curX, s.curY, fx, fy)
         == if GlyphBit(font, Low8(s.regs[EAX]), fx, fy) then palette[7] else palette[0]
  {
    var a := CellAddress(videoMemory, s.curX, s.curY);
    assert a == CursorAddress(s, videoMemory);
    assert Foreground(0x07) == 7 && Background(0x07) == 0;
  }
}
