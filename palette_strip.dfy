/**
 * The palette view: one row of swatches per palette, one b-by-b swatch per
 * colour, separated and framed by 1-pixel black gutters.
 */
module PaletteStrip {
  import opened Colors
  import opened Raster
  import opened PaletteDecoder

  /**
   * Canvas width set by the palette view, 16 * b + 17: sixteen steps of
   * b + 1 pixels (a gutter then a swatch) and one closing gutter.
   */
  function StripWidth(b: nat): (w: nat)
    ensures (w - 1) / (b + 1) == 16 && (w - 1) % (b + 1) == 0
  {
    MulDiv(16, b + 1);
    16 * b + 17
  }

  /**
   * Canvas height set by the palette view for n palettes, n * b + n + 1: one
   * step of b + 1 pixels per palette and one closing gutter.
   */
  function StripHeight(n: nat, b: nat): (h: nat)
    ensures (h - 1) / (b + 1) == n && (h - 1) % (b + 1) == 0
  {
    MulDiv(n, b + 1);
    n * b + n + 1
  }

  /** Left edge of the swatch of colour ci. */
  function SwatchLeft(ci: nat, b: nat): nat {
    ci * (b + 1) + 1
  }

  /** Top edge of the swatches of palette p. */
  function SwatchTop(p: nat, b: nat): nat {
    p * (b + 1) + 1
  }

  /**
   * Reference definition of the finished strip: the colour at canvas pixel
   * (row, col). The canvas is cut into (b + 1)-pixel steps; the first pixel
   * of every step is gutter.
   */
  function StripPixel(palettes: seq<Palette>, b: nat, row: nat, col: nat): (px: RGB)
    ensures row % (b + 1) == 0 || col % (b + 1) == 0 ==> px == Black
  {
    var s := b + 1;
    if row % s == 0 || col % s == 0 then Black
    else if row / s < |palettes| && col / s < |palettes[row / s]| then palettes[row / s][col / s]
    else Black
  }

  /** Pixel p of a line lies in the span [q * s + 1, q * s + s) exactly when it is past the gutter of step q. */
  lemma SpanPastGutter(p: nat, q: nat, s: nat)
    requires 0 < s
    ensures q * s + 1 <= p < q * s + s <==> p / s == q && p % s != 0
  {
    DivSpan(p, q, s);
  }

  /** The swatch of colour ci of palette p is exactly the non-gutter part of step (p, ci). */
  lemma SwatchIsStep(p: nat, ci: nat, b: nat, row: nat, col: nat)
    ensures InRect(row, col, SwatchLeft(ci, b), SwatchTop(p, b), b, b) <==>
            row / (b + 1) == p && row % (b + 1) != 0 && col / (b + 1) == ci && col % (b + 1) != 0
  {
    SpanPastGutter(col, ci, b + 1);
    SpanPastGutter(row, p, b + 1);
  }

  /** Every pixel of the swatch of colour ci of palette p shows that colour. */
  lemma SwatchColor(palettes: seq<Palette>, b: nat, p: nat, ci: nat, i: nat, j: nat)
    requires p < |palettes| && ci < |palettes[p]| && i < b && j < b
    ensures StripPixel(palettes, b, SwatchTop(p, b) + j, SwatchLeft(ci, b) + i) == palettes[p][ci]
  {
    SwatchIsStep(p, ci, b, SwatchTop(p, b) + j, SwatchLeft(ci, b) + i);
  }

  /** Swatches of distinct (palette, colour) pairs never share a pixel. */
  lemma SwatchesDisjoint(b: nat, p1: nat, c1: nat, p2: nat, c2: nat, row: nat, col: nat)
    requires InRect(row, col, SwatchLeft(c1, b), SwatchTop(p1, b), b, b)
    requires InRect(row, col, SwatchLeft(c2, b), SwatchTop(p2, b), b, b)
    ensures p1 == p2 && c1 == c2
  {
    SwatchIsStep(p1, c1, b, row, col);
    SwatchIsStep(p2, c2, b, row, col);
  }

  /**
   * For n palettes of 16 colours every swatch lies inside the canvas the
   * palette view creates, and a gutter is left on the right and at the bottom.
   */
  lemma SwatchesInsideCanvas(n: nat, b: nat, p: nat, ci: nat)
    requires p < n && ci < 16
    ensures SwatchLeft(ci, b) + b < StripWidth(b)
    ensures SwatchTop(p, b) + b < StripHeight(n, b)
  {
    MulMonotone(ci + 1, 16, b + 1);
    MulMonotone(p + 1, n, b + 1);
  }

  /** A pixel that no swatch covers is black: gutters and unused places alike. */
  lemma UncoveredIsBlack(palettes: seq<Palette>, b: nat, row: nat, col: nat)
    requires forall p: nat, ci: nat :: p < |palettes| && ci < |palettes[p]| ==>
               !InRect(row, col, SwatchLeft(ci, b), SwatchTop(p, b), b, b)
    ensures StripPixel(palettes, b, row, col) == Black
  {
    var s := b + 1;
    if row % s != 0 && col % s != 0 && row / s < |palettes| && col / s < |palettes[row / s]| {
      SwatchIsStep(row / s, col / s, b, row, col);
      assert false;
    }
  }

  /** Drawing the swatches of palette p onto the strip of the first p palettes adds exactly its row. */
  lemma StripStep(palettes: seq<Palette>, b: nat, p: nat, row: nat, col: nat)
    requires p < |palettes|
    ensures StripPixel(palettes[..p + 1], b, row, col) ==
            if InRow(b, p, |palettes[p]|, row, col) then palettes[p][col / (b + 1)]
            else StripPixel(palettes[..p], b, row, col)
  {
    var s := b + 1;
    if row / s < p {
      assert palettes[..p + 1][row / s] == palettes[..p][row / s];
    }
  }

  /** Row p of the strip, as drawing palette p paints it. */
  predicate InRow(b: nat, p: nat, cols: nat, row: nat, col: nat) {
    row / (b + 1) == p && row % (b + 1) != 0 && col % (b + 1) != 0 && col / (b + 1) < cols
  }

  /** Row p with ci + 1 swatches is row p with ci swatches plus the swatch of colour ci. */
  lemma RowGrows(b: nat, p: nat, ci: nat, row: nat, col: nat)
    ensures InRow(b, p, ci + 1, row, col) <==>
            InRow(b, p, ci, row, col) || InRect(row, col, SwatchLeft(ci, b), SwatchTop(p, b), b, b)
    ensures InRect(row, col, SwatchLeft(ci, b), SwatchTop(p, b), b, b) ==> col / (b + 1) == ci
  {
    SwatchIsStep(p, ci, b, row, col);
  }

  /**
   * One swatch step at one pixel: painting swatch ci over row p with ci
   * swatches gives row p with ci + 1 swatches, whatever the pixel held before.
   */
  lemma RowPixelStep(palette: Palette, b: nat, p: nat, ci: nat, row: nat, col: nat, before: RGB)
    requires ci < |palette|
    ensures (if InRect(row, col, SwatchLeft(ci, b), SwatchTop(p, b), b, b) then palette[ci]
             else if InRow(b, p, ci, row, col) then palette[col / (b + 1)] else before)
            == (if InRow(b, p, ci + 1, row, col) then palette[col / (b + 1)] else before)
  {
    RowGrows(b, p, ci, row, col);
    if InRow(b, p, ci, row, col) {
      SwatchIsStep(p, ci, b, row, col);
    }
  }

  /** Paints the swatches of palette p; pixels outside its row keep their colour. */
  method DrawPaletteRow(canvas: array2<RGB>, palette: Palette, pIndex: nat, b: nat)
    modifies canvas
    ensures forall r, c :: 0 <= r < canvas.Length0 && 0 <= c < canvas.Length1 ==>
              canvas[r, c] == if InRow(b, pIndex, |palette|, r, c) then palette[c / (b + 1)] else old(canvas[r, c])
  {
    for cIndex := 0 to |palette|
      invariant forall r, c :: 0 <= r < canvas.Length0 && 0 <= c < canvas.Length1 ==>
                  canvas[r, c] == if InRow(b, pIndex, cIndex, r, c) then palette[c / (b + 1)] else old(canvas[r, c])
    {
      var color := palette[cIndex];
      var left, top := cIndex * (b + 1) + 1, pIndex * (b + 1) + 1;
      assert left == SwatchLeft(cIndex, b) && top == SwatchTop(pIndex, b);
      FillRect(canvas, left, top, b, b, color);
      forall r, c | 0 <= r < canvas.Length0 && 0 <= c < canvas.Length1
        ensures canvas[r, c] == if InRow(b, pIndex, cIndex + 1, r, c) then palette[c / (b + 1)] else old(canvas[r, c])
      {
        RowPixelStep(palette, b, pIndex, cIndex, r, c, old(canvas[r, c]));
      }
    }
  }

  /**
   * drawPalette: black background, then one swatch per colour. The canvas
   * ends up equal to the reference strip wherever it has pixels.
   */
  method DrawPalette(canvas: array2<RGB>, palettes: seq<Palette>, blockSize: nat)
    modifies canvas
    ensures forall r, c :: 0 <= r < canvas.Length0 && 0 <= c < canvas.Length1 ==>
              canvas[r, c] == StripPixel(palettes, blockSize, r, c)
  {
    var b := blockSize;
    FillRect(canvas, 0, 0, canvas.Length1, canvas.Length0, Black);
    for pIndex := 0 to |palettes|
      invariant forall r, c :: 0 <= r < canvas.Length0 && 0 <= c < canvas.Length1 ==>
                  canvas[r, c] == StripPixel(palettes[..pIndex], b, r, c)
    {
      DrawPaletteRow(canvas, palettes[pIndex], pIndex, b);
      forall r, c | 0 <= r < canvas.Length0 && 0 <= c < canvas.Length1
        ensures canvas[r, c] == StripPixel(palettes[..pIndex + 1], b, r, c)
      {
        StripStep(palettes, b, pIndex, r, c);
      }
    }
    assert palettes[..|palettes|] == palettes;
  }
}
